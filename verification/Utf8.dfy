/** UTF-8, as in section 3 of RFC 3629. */
module Utf8 {
  import opened Options

  type Byte = b: int | 0 <= b < 256

  /** `(b & 0xC0) == 0x80`. */
  predicate IsContinuation(b: Byte) { 0x80 <= b < 0xC0 }

  function Encode(c: char): (bytes: seq<Byte>)
    ensures 1 <= |bytes| <= 4 && !IsContinuation(bytes[0])
    ensures forall k | 1 <= k < |bytes| :: IsContinuation(bytes[k])
  {
    var n := c as int;
    if n < 0x80 then [n]
    else if n < 0x800 then [0xC0 + n / 64, 0x80 + n % 64]
    else if n < 0x10000 then [0xE0 + n / 4096, 0x80 + n / 64 % 64, 0x80 + n % 64]
    else [0xF0 + n / 262144, 0x80 + n / 4096 % 64, 0x80 + n / 64 % 64, 0x80 + n % 64]
  }

  /** The number in bytes: 6 bits in every byte after the first, and in the first the rest behind a mark. */
  function Number(bytes: seq<Byte>, mark: int): int {
    if bytes == [] then 0
    else if |bytes| == 1 then bytes[0] as int - mark
    else Number(bytes[..|bytes| - 1], mark) * 64 + bytes[|bytes| - 1] as int - 0x80
  }

  /** The bytes of a character carry its number, and the first one marks how many there are: as few as can. */
  lemma {:induction false} EncodeCarriesNumber(c: char)
    ensures var b, n := Encode(c), c as int;
      && |b| == (if n < 0x80 then 1 else if n < 0x800 then 2 else if n < 0x10000 then 3 else 4)
      && Number(b, if |b| == 1 then 0 else if |b| == 2 then 0xC0 else if |b| == 3 then 0xE0 else 0xF0) == n
      && (if |b| == 1 then b[0] < 0x80 else if |b| == 2 then 0xC2 <= b[0] < 0xE0
          else if |b| == 3 then 0xE0 <= b[0] < 0xF0 else 0xF0 <= b[0] <= 0xF4)
  {
    var n, b := c as int, Encode(c);
    if |b| == 2 {
      NumberOf([], b[0], b[1], 0xC0);
      assert b == [] + [b[0], b[1]];
    } else if |b| == 3 {
      NumberOf([], b[0], b[1], 0xE0);
      NumberOf([b[0]], b[1], b[2], 0xE0);
      assert [] + [b[0], b[1]] == [b[0]] + [b[1]] && b == [b[0]] + [b[1], b[2]];
      assert n / 4096 == n / 64 / 64;
    } else if |b| == 4 {
      NumberOf([], b[0], b[1], 0xF0);
      NumberOf([b[0]], b[1], b[2], 0xF0);
      NumberOf([b[0], b[1]], b[2], b[3], 0xF0);
      assert [] + [b[0], b[1]] == [b[0]] + [b[1]] && [b[0]] + [b[1], b[2]] == [b[0], b[1]] + [b[2]];
      assert b == [b[0], b[1]] + [b[2], b[3]];
      assert n / 262144 == n / 4096 / 64 && n / 4096 == n / 64 / 64;
    }
  }

  lemma {:induction false} NumberOf(bytes: seq<Byte>, next: Byte, last: Byte, mark: int)
    ensures Number(bytes + [next, last], mark) == Number(bytes + [next], mark) * 64 + last as int - 0x80
    ensures Number([] + [next], mark) == next as int - mark
  {
    assert [] + [next] == [next];
    assert (bytes + [next, last])[..|bytes| + 1] == bytes + [next];
  }

  function EncodeAll(s: string): seq<Byte> { if s == [] then [] else Encode(s[0]) + EncodeAll(s[1..]) }

  lemma {:induction false} EncodeConcat(a: string, b: string)
    ensures EncodeAll(a + b) == EncodeAll(a) + EncodeAll(b)
  {
    if a == [] {
      assert a + b == b;
    } else {
      EncodeConcat(a[1..], b);
      assert (a + b)[1..] == a[1..] + b;
    }
  }

  /** Byte offset at which character `k` of `s` starts. */
  function Offset(s: string, k: nat): nat
    requires k <= |s|
  {
    |EncodeAll(s[..k])|
  }

  lemma {:induction false} SplitAt(s: string, p: nat, q: nat)
    requires p <= q <= |s|
    ensures Offset(s, p) <= Offset(s, q) <= |EncodeAll(s)|
    ensures EncodeAll(s)[Offset(s, p)..Offset(s, q)] == EncodeAll(s[p..q])
  {
    assert s == s[..p] + s[p..q] + s[q..] && s[..q] == s[..p] + s[p..q];
    EncodeConcat(s[..p], s[p..q]);
    EncodeConcat(s[..q], s[q..]);
    assert s[..q] + s[q..] == s;
  }

  /** No continuation byte stands at `i`. */
  predicate IsBoundary(bytes: seq<Byte>, i: nat) {
    i == |bytes| || (i < |bytes| && !IsContinuation(bytes[i]))
  }

  /** A byte position is the start of a character, or the end, exactly when it is a boundary. */
  lemma {:induction false} BoundaryAt(s: string, i: nat) returns (k: nat)
    requires IsBoundary(EncodeAll(s), i)
    ensures k <= |s| && Offset(s, k) == i
  {
    if i == 0 {
      k := 0;
    } else {
      var first := Encode(s[0]);
      assert i < |EncodeAll(s)| ==> EncodeAll(s)[i] == EncodeAll(s[1..])[i - |first|];
      var rest := BoundaryAt(s[1..], i - |first|);
      k := rest + 1;
      assert s[..k][1..] == s[1..][..rest];
    }
  }

  lemma {:induction false} OffsetIsBoundary(s: string, k: nat)
    requires k <= |s|
    ensures IsBoundary(EncodeAll(s), Offset(s, k))
  {
    assert s == s[..k] + s[k..];
    EncodeConcat(s[..k], s[k..]);
    if k < |s| { assert EncodeAll(s)[Offset(s, k)] == Encode(s[k])[0]; }
  }

  /** Every position of an encoded text is less than four bytes from a boundary on either side. */
  lemma {:induction false} BoundaryNear(s: string, i: nat) returns (lo: nat, hi: nat)
    requires i <= |EncodeAll(s)|
    ensures IsBoundary(EncodeAll(s), lo) && lo <= i < lo + 4
    ensures IsBoundary(EncodeAll(s), hi) && i <= hi < i + 4
  {
    if s == [] {
      lo, hi := 0, 0;
    } else {
      var n := |Encode(s[0])|;
      assert s[..1] == [s[0]] && EncodeAll([s[0]]) == Encode(s[0]) + EncodeAll([]);
      OffsetIsBoundary(s, 1);
      if i < n {
        lo, hi := 0, if i == 0 then 0 else n;
      } else {
        lo, hi := BoundaryNear(s[1..], i - n);
        lo, hi := lo + n, hi + n;
      }
    }
  }

  // ------------------------------------------------------------------ decoding

  /** Length a lead byte announces, 0 if it announces none. */
  function LeadLength(b: Byte): nat {
    if b < 0x80 then 1
    else if 0xC0 <= b < 0xE0 then 2
    else if 0xE0 <= b < 0xF0 then 3
    else if 0xF0 <= b < 0xF8 then 4
    else 0
  }

  function Bits(b: Byte, marker: int): int { b as int - marker }

  /** The code point carried by the payload bits of one sequence. */
  function Payload(bytes: seq<Byte>): int
    requires 1 <= |bytes| <= 4
  {
    if |bytes| == 1 then Bits(bytes[0], 0)
    else if |bytes| == 2 then Bits(bytes[0], 0xC0) * 64 + Bits(bytes[1], 0x80)
    else if |bytes| == 3 then Bits(bytes[0], 0xE0) * 4096 + Bits(bytes[1], 0x80) * 64 + Bits(bytes[2], 0x80)
    else Bits(bytes[0], 0xF0) * 262144 + Bits(bytes[1], 0x80) * 4096 + Bits(bytes[2], 0x80) * 64 + Bits(bytes[3], 0x80)
  }

  predicate IsScalarValue(n: int) { 0 <= n < 0xD800 || 0xE000 <= n < 0x110000 }

  /** The character at the front: the shortest form of a scalar value, or nothing. */
  function DecodeFirst(bytes: seq<Byte>): (c: Option<char>)
    requires bytes != []
    ensures c.Some? ==> Encode(c.value) <= bytes
  {
    var n := LeadLength(bytes[0]);
    if n == 0 || n > |bytes| then None
    else
      var code := Payload(bytes[..n]);
      if IsScalarValue(code) && Encode(code as char) == bytes[..n] then Some(code as char) else None
  }

  /** The strict decoder. */
  function Decode(bytes: seq<Byte>): Option<string>
    decreases |bytes|
  {
    if bytes == [] then Some([])
    else
      var c := DecodeFirst(bytes);
      if c == None then None
      else
        var rest := Decode(bytes[|Encode(c.value)|..]);
        if rest == None then None else Some([c.value] + rest.value)
  }

  lemma {:induction false} Digits64(n: nat)
    ensures n / 64 / 64 == n / 4096 && n / 4096 / 64 == n / 262144
    ensures n == n / 4096 * 4096 + n / 64 % 64 * 64 + n % 64
    ensures n / 4096 == n / 262144 * 64 + n / 4096 % 64
  {
    var a, r := n / 64, n % 64;
    var b, q := a / 64, a % 64;
    assert n == 64 * a + r && a == 64 * b + q;
    var c, p := b / 64, b % 64;
    assert b == 64 * c + p;
    assert n == 4096 * b + (64 * q + r) && 0 <= 64 * q + r < 4096;
    assert n == 262144 * c + (4096 * p + 64 * q + r) && 0 <= 4096 * p + 64 * q + r < 262144;
  }

  lemma {:induction false} PayloadOfEncode(c: char)
    ensures LeadLength(Encode(c)[0]) == |Encode(c)| && Payload(Encode(c)) == c as int && IsScalarValue(c as int)
  {
    var n := c as int;
    Digits64(n);
    if n < 0x80 {
    } else if n < 0x800 {
      assert n / 64 < 0x20;
    } else if n < 0x10000 {
      assert n / 4096 < 0x10;
    } else {
      assert n / 262144 < 0x08;
    }
  }

  lemma {:induction false} DecodeFirstOfEncode(c: char, rest: seq<Byte>)
    ensures DecodeFirst(Encode(c) + rest) == Some(c)
  {
    PayloadOfEncode(c);
    hide Encode, Payload, LeadLength;
    var bytes := Encode(c) + rest;
    assert bytes[..|Encode(c)|] == Encode(c) && bytes[0] == Encode(c)[0];
  }

  lemma {:induction false} DecodeInvertsEncode(s: string)
    ensures Decode(EncodeAll(s)) == Some(s)
  {
    if s != [] {
      hide Encode;
      DecodeInvertsEncode(s[1..]);
      DecodeFirstOfEncode(s[0], EncodeAll(s[1..]));
      assert EncodeAll(s)[|Encode(s[0])|..] == EncodeAll(s[1..]);
      assert s == [s[0]] + s[1..];
    }
  }

  lemma {:induction false} EncodeInvertsDecode(bytes: seq<Byte>)
    requires Decode(bytes).Some?
    ensures EncodeAll(Decode(bytes).value) == bytes
    decreases |bytes|
  {
    if bytes != [] {
      hide Encode, DecodeFirst;
      var c := DecodeFirst(bytes).value;
      EncodeInvertsDecode(bytes[|Encode(c)|..]);
      var s := Decode(bytes).value;
      assert s[0] == c && s[1..] == Decode(bytes[|Encode(c)|..]).value;
      assert bytes == Encode(c) + bytes[|Encode(c)|..];
    }
  }

  lemma {:induction false} StartsCharacter(s: string)
    requires s != []
    ensures EncodeAll(s) != [] && !IsContinuation(EncodeAll(s)[0])
  {
  }

  lemma {:induction false} EncodeInjective(s: string, t: string)
    requires EncodeAll(s) == EncodeAll(t)
    ensures s == t
  {
    DecodeInvertsEncode(s);
    DecodeInvertsEncode(t);
  }

  /** A text whose bytes end with those of `tail` ends with `tail`. */
  lemma {:induction false} EndsWith(t: string, front: seq<Byte>, tail: string) returns (k: nat)
    requires EncodeAll(t) == front + EncodeAll(tail) && tail != []
    ensures k <= |t| && t == t[..k] + tail
  {
    var n := |front|;
    StartsCharacter(tail);
    hide EncodeAll, Encode, Decode;
    assert EncodeAll(t)[n] == EncodeAll(tail)[0];
    k := BoundaryAt(t, n);
    SplitAt(t, k, |t|);
    assert t[..|t|] == t && t[k..|t|] == t[k..];
    assert EncodeAll(t)[n..|EncodeAll(t)|] == EncodeAll(tail);
    EncodeInjective(t[k..], tail);
  }

  predicate Ascii(s: string) { forall c | c in s :: c as int < 0x80 }

  lemma {:induction false} AsciiBytes(s: string)
    requires Ascii(s)
    ensures |EncodeAll(s)| == |s|
  {
    if s != [] {
      assert s[0] in s && forall c | c in s[1..] :: c in s;
      AsciiBytes(s[1..]);
    }
  }

  lemma {:induction false} AsciiSlice(s: string, p: nat)
    requires p <= |s| && Ascii(s)
    ensures |EncodeAll(s)| == |s| && EncodeAll(s)[p..] == EncodeAll(s[p..])
  {
    assert forall c | c in s[..p] :: c in s;
    AsciiBytes(s);
    AsciiBytes(s[..p]);
    SplitAt(s, p, |s|);
    assert s[..|s|] == s && s[p..|s|] == s[p..];
  }
}
