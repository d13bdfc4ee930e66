/** Searching, splitting and joining, shared by the Python and the TypeScript models. */
module Strings {

  function IndexOf(s: string, c: char): (i: nat)
    ensures i <= |s| && c !in s[..i] && (i < |s| ==> s[i] == c)
  {
    if s == [] || s[0] == c then 0
    else
      var k := IndexOf(s[1..], c);
      assert s[..k + 1] == [s[0]] + s[1..][..k];
      k + 1
  }

  lemma {:induction false} IndexOfFirst(s: string, c: char, t: string)
    requires c !in s
    ensures IndexOf(s + [c] + t, c) == |s|
  {
    var u := s + [c] + t;
    var i := IndexOf(u, c);
    assert u[|s|] == c && u[..|s|] == s;
    assert forall k | 0 <= k < |s| :: u[k] in s;
    assert forall k | 0 <= k < i :: u[k] in u[..i];
  }

  /** Where a character is found does not depend on what follows it. */
  lemma {:induction false} IndexOfPrefix(s: string, c: char, t: string)
    ensures IndexOf(s, c) < |s| ==> IndexOf(s + t, c) == IndexOf(s, c)
    ensures c !in t && IndexOf(s, c) == |s| ==> IndexOf(s + t, c) == |s + t|
  {
    var k := IndexOf(s, c);
    if k < |s| {
      assert s + t == s[..k] + [c] + (s[k + 1..] + t);
      IndexOfFirst(s[..k], c, s[k + 1..] + t);
    } else {
      assert s[..k] == s;
    }
  }

  /** `s.split("\n")`. */
  function SplitLines(s: string): (lines: seq<string>)
    ensures lines != []
    decreases |s|
  {
    var k := IndexOf(s, '\n');
    if k == |s| then [s] else [s[..k]] + SplitLines(s[k + 1..])
  }

  /** `"\n".join(lines)`. */
  function JoinLines(lines: seq<string>): string {
    if lines == [] then []
    else if |lines| == 1 then lines[0]
    else lines[0] + "\n" + JoinLines(lines[1..])
  }

  lemma {:induction false} JoinCons(line: string, lines: seq<string>)
    requires lines != []
    ensures JoinLines([line] + lines) == line + "\n" + JoinLines(lines)
  {
    assert ([line] + lines)[1..] == lines;
  }

  lemma {:induction false} JoinInvertsSplit(s: string)
    ensures JoinLines(SplitLines(s)) == s
    decreases |s|
  {
    var k := IndexOf(s, '\n');
    if k < |s| {
      var rest := s[k + 1..];
      JoinInvertsSplit(rest);
      var tail := SplitLines(rest);
      assert SplitLines(s) == [s[..k]] + tail;
      JoinCons(s[..k], tail);
      hide JoinLines, SplitLines, IndexOf;
      assert s == s[..k] + "\n" + rest;
    }
  }

  lemma {:induction false} SplitInvertsJoin(lines: seq<string>)
    requires lines != [] && forall l | l in lines :: '\n' !in l
    ensures SplitLines(JoinLines(lines)) == lines
  {
    assert lines[0] in lines;
    if |lines| == 1 {
      assert IndexOf(lines[0], '\n') == |lines[0]|;
    } else {
      SplitInvertsJoin(lines[1..]);
      var rest := JoinLines(lines[1..]);
      IndexOfFirst(lines[0], '\n', rest);
      var s := lines[0] + ['\n'] + rest;
      assert JoinLines(lines) == s && s[..|lines[0]|] == lines[0] && s[|lines[0]| + 1..] == rest;
      assert lines == [lines[0]] + lines[1..];
    }
  }

  lemma {:induction false} SplitHasNoNewlines(s: string, l: string)
    requires l in SplitLines(s)
    ensures '\n' !in l
    decreases |s|
  {
    var k := IndexOf(s, '\n');
    if k < |s| && l != s[..k] { SplitHasNoNewlines(s[k + 1..], l); }
  }

  /** Every line with its newline. */
  function Terminated(lines: seq<string>): string {
    if lines == [] then [] else lines[0] + "\n" + Terminated(lines[1..])
  }

  lemma {:induction false} JoinSplitsAt(lines: seq<string>, k: nat)
    requires k < |lines|
    ensures JoinLines(lines) == Terminated(lines[..k]) + JoinLines(lines[k..])
  {
    if k > 0 {
      JoinSplitsAt(lines[1..], k - 1);
      assert lines[..k][1..] == lines[1..][..k - 1] && lines[k..] == lines[1..][k - 1..];
    } else {
      assert lines[0..] == lines;
    }
  }

  /** Joined text begins with the join of any leading lines, followed by a newline if more follow. */
  lemma {:induction false} JoinPrefix(lines: seq<string>, k: nat) returns (rest: string)
    requires 0 < k <= |lines|
    ensures JoinLines(lines) == JoinLines(lines[..k]) + rest && (rest == [] || rest[0] == '\n')
  {
    if k == |lines| {
      assert lines[..k] == lines;
      rest := [];
    } else if k == 1 {
      rest := "\n" + JoinLines(lines[1..]);
    } else {
      rest := JoinPrefix(lines[1..], k - 1);
      assert lines[..k][1..] == lines[1..][..k - 1];
    }
  }

  /** `needle` occurs in `hay` at `i`. */
  predicate OccursAt(hay: string, needle: string, i: nat) {
    i + |needle| <= |hay| && hay[i..i + |needle|] == needle
  }

  /** Python's `hay.find(needle)`: the first occurrence, or -1. */
  function FindText(hay: string, needle: string): int {
    if |hay| < |needle| then -1
    else if hay[..|needle|] == needle then 0
    else
      var rest := FindText(hay[1..], needle);
      if rest == -1 then -1 else rest + 1
  }

  lemma {:induction false} FindTextIsFirst(hay: string, needle: string)
    ensures var i := FindText(hay, needle);
      && i >= -1 && (i >= 0 ==> OccursAt(hay, needle, i))
      && forall k: nat | OccursAt(hay, needle, k) :: 0 <= i <= k
  {
    if |needle| <= |hay| && hay[..|needle|] != needle {
      FindTextIsFirst(hay[1..], needle);
      var rest := FindText(hay[1..], needle);
      if rest >= 0 { OccursShift(hay, needle, rest + 1); }
      forall k: nat | OccursAt(hay, needle, k) ensures 0 <= rest + 1 <= k && rest >= 0 {
        if k > 0 { OccursShift(hay, needle, k); }
      }
    }
  }

  /** The first `c` of a text that ends with `a` and `c`. */
  lemma {:induction false} FirstAtEnd(n: string, a: char, c: char)
    requires c !in n && a != c
    ensures FindText(n + [a, c], [c]) == |n| + 1
  {
    var hay := n + [a, c];
    FindTextIsFirst(hay, [c]);
    assert hay[|n| + 1..|n| + 2] == [c];
    assert OccursAt(hay, [c], |n| + 1);
    var i := FindText(hay, [c]);
    assert hay[i..i + 1][0] == hay[i] == c;
    assert forall k | 0 <= k < |n| :: hay[k] == n[k] && n[k] in n;
  }

  lemma {:induction false} OccursShift(hay: string, needle: string, k: nat)
    requires 0 < k && hay != []
    ensures OccursAt(hay, needle, k) <==> OccursAt(hay[1..], needle, k - 1)
  {
    if k + |needle| <= |hay| {
      assert hay[1..][k - 1..k - 1 + |needle|] == hay[k..k + |needle|];
    }
  }

  /** Python's `needle in hay`, JavaScript's `hay.includes(needle)`. */
  predicate Contains(hay: string, needle: string) { FindText(hay, needle) != -1 }

  lemma {:induction false} ContainsIff(hay: string, needle: string)
    ensures Contains(hay, needle) <==> exists i: nat :: OccursAt(hay, needle, i)
  {
    FindTextIsFirst(hay, needle);
    hide FindText, OccursAt;
    if Contains(hay, needle) {
      var i: nat := FindText(hay, needle);
      assert OccursAt(hay, needle, i);
    }
  }
}
