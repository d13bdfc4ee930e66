/** White space and trimming, as JavaScript has them. */
module JsText {

  /** What `\s` and `trim()` call white space. */
  predicate IsSpace(c: char) {
    var n := c as int;
    || 0x09 <= n <= 0x0D || n == 0x20 || n == 0xA0 || n == 0x1680 || 0x2000 <= n <= 0x200A
    || n == 0x2028 || n == 0x2029 || n == 0x202F || n == 0x205F || n == 0x3000 || n == 0xFEFF
  }

  /** What `.` does not match. */
  predicate IsLineEnd(c: char) { c == '\n' || c == '\r' || c as int == 0x2028 || c as int == 0x2029 }

  predicate OneLine(s: string) { forall c | c in s :: !IsLineEnd(c) }

  function LTrim(s: string): string { if s != [] && IsSpace(s[0]) then LTrim(s[1..]) else s }

  function RTrim(s: string): string { if s != [] && IsSpace(s[|s| - 1]) then RTrim(s[..|s| - 1]) else s }

  function Trim(s: string): string { RTrim(LTrim(s)) }

  predicate Trimmed(s: string) { s == [] || (!IsSpace(s[0]) && !IsSpace(s[|s| - 1])) }

  lemma {:induction false} TrimTrimmed(s: string)
    requires Trimmed(s)
    ensures Trim(s) == s && LTrim(s) == s
  {
  }

  lemma {:induction false} LTrimIsSuffix(s: string) returns (k: nat)
    ensures k <= |s| && LTrim(s) == s[k..] && (LTrim(s) == [] || !IsSpace(LTrim(s)[0]))
  {
    if s != [] && IsSpace(s[0]) {
      k := LTrimIsSuffix(s[1..]);
      k := k + 1;
    } else {
      k := 0;
    }
  }

  lemma {:induction false} RTrimIsPrefix(s: string) returns (k: nat)
    ensures k <= |s| && RTrim(s) == s[..k] && (RTrim(s) == [] || !IsSpace(RTrim(s)[|RTrim(s)| - 1]))
  {
    if s != [] && IsSpace(s[|s| - 1]) {
      k := RTrimIsPrefix(s[..|s| - 1]);
      assert s[..|s| - 1][..k] == s[..k];
    } else {
      k := |s|;
    }
  }

  /** Trimming cuts both ends and leaves a trimmed text. */
  lemma {:induction false} TrimIsSlice(s: string) returns (a: nat, b: nat)
    ensures a <= b <= |s| && Trim(s) == s[a..b] && Trimmed(Trim(s))
  {
    a := LTrimIsSuffix(s);
    var k := RTrimIsPrefix(LTrim(s));
    b := a + k;
  }

  predicate Blank(s: string) { forall c | c in s :: IsSpace(c) }

  lemma {:induction false} LTrimOf(a: string, s: string)
    requires Blank(a) && (s == [] || !IsSpace(s[0]))
    ensures LTrim(a + s) == s
  {
    if a == [] {
      assert a + s == s;
    } else {
      assert (a + s)[0] == a[0] && (a + s)[1..] == a[1..] + s;
      LTrimOf(a[1..], s);
    }
  }

  lemma {:induction false} RTrimOf(s: string, b: string)
    requires Blank(b) && (s == [] || !IsSpace(s[|s| - 1]))
    ensures RTrim(s + b) == s
  {
    if b == [] {
      assert s + b == s;
    } else {
      var n := |b| - 1;
      assert (s + b)[|s + b| - 1] == b[n] && (s + b)[..|s + b| - 1] == s + b[..n];
      RTrimOf(s, b[..n]);
    }
  }

  /** Trimming takes the white space around a trimmed text, and only that. */
  lemma {:induction false} TrimOf(a: string, t: string, b: string)
    requires Blank(a) && Blank(b) && Trimmed(t)
    ensures Trim(a + t + b) == t
  {
    if t == [] {
      assert a + t + b == (a + b) + [];
      LTrimOf(a + b, []);
    } else {
      assert a + t + b == a + (t + b) && (t + b)[0] == t[0];
      LTrimOf(a, t + b);
      RTrimOf(t, b);
    }
  }

  lemma {:induction false} LTrimParts(s: string) returns (a: string)
    ensures Blank(a) && s == a + LTrim(s)
  {
    a := [];
    if s != [] && IsSpace(s[0]) {
      a := LTrimParts(s[1..]);
      a := [s[0]] + a;
    }
  }

  lemma {:induction false} RTrimParts(s: string) returns (b: string)
    ensures Blank(b) && s == RTrim(s) + b
  {
    b := [];
    if s != [] && IsSpace(s[|s| - 1]) {
      b := RTrimParts(s[..|s| - 1]);
      b := b + [s[|s| - 1]];
    }
  }

  lemma {:induction false} TrimParts(s: string) returns (a: string, b: string)
    ensures Blank(a) && Blank(b) && Trimmed(Trim(s)) && s == a + Trim(s) + b
  {
    a := LTrimParts(s);
    b := RTrimParts(LTrim(s));
    var _, _ := TrimIsSlice(s);
  }
}
