/** Normalised text with an offset map back to bytes, and the byte range of a phrase. */
module SourceSpans {
  import opened Collections
  import opened MarkdownLinks
  import opened Options
  import opened PythonText
  import opened Strings
  import opened Utf8

  // ------------------------------------------------------------------ normalisation

  /** Neither white space nor Markdown noise. */
  predicate Keeps(c: char) { !IsSpace(c) && !IsNoise(c) }

  /** `c in "*_`#>~[]()"`. */
  predicate IsNoise(c: char) {
    c == '*' || c == '_' || c == '`' || c == '#' || c == '>' || c == '~' || c == '[' || c == ']' || c == '(' || c == ')'
  }

  /** What one character contributes; `fold` is NFKC followed by lower-casing. */
  function Fold(fold: char -> string, c: char): string { if Keeps(c) then fold(c) else [] }

  function Norm(fold: char -> string, s: string): string {
    if s == [] then [] else Norm(fold, s[..|s| - 1]) + Fold(fold, s[|s| - 1])
  }

  /** For every normalised character, the byte offset of the character it came from. */
  function Origins(fold: char -> string, s: string): seq<nat> {
    if s == [] then []
    else
      var n := |s| - 1;
      Origins(fold, s[..n]) + seq(|Fold(fold, s[n])|, _ => |EncodeAll(s[..n])|)
  }

  method AppendFolded(chars: string, orig: seq<nat>, folded: string, b: nat) returns (chars': string, orig': seq<nat>)
    ensures chars' == chars + folded && orig' == orig + seq(|folded|, _ => b)
  {
    chars', orig' := chars, orig;
    for j := 0 to |folded|
      invariant chars' == chars + folded[..j] && orig' == orig + seq(j, _ => b)
    {
      chars', orig' := chars' + [folded[j]], orig' + [b];
    }
    assert folded[..|folded|] == folded;
  }

  lemma {:induction false} NormEmpty(fold: char -> string)
    ensures Norm(fold, []) == [] && Origins(fold, []) == [] && EncodeAll([]) == []
  {
  }

  lemma {:induction false} NormStepAt(fold: char -> string, s: string, k: nat)
    requires k < |s|
    ensures Norm(fold, s[..k + 1]) == Norm(fold, s[..k]) + Fold(fold, s[k])
    ensures Origins(fold, s[..k + 1]) == Origins(fold, s[..k]) + seq(|Fold(fold, s[k])|, _ => |EncodeAll(s[..k])|)
    ensures Fold(fold, s[k]) == if !(IsSpace(s[k]) || IsNoise(s[k])) then fold(s[k]) else []
  {
    assert s[..k + 1][..k] == s[..k];
  }

  method NormSeq(fold: char -> string, s: string) returns (chars: string, orig: seq<nat>)
    ensures chars == Norm(fold, StripLinks(s)) && orig == Origins(fold, StripLinks(s)) && |chars| == |orig|
  {
    hide StripLinks, Encode, Norm, Origins, Keeps, EncodeAll;
    var s2 := StripLinks(s);
    chars, orig := [], [];
    var b: nat := 0;
    NormEmpty(fold);
    assert s2[..0] == [];
    for k := 0 to |s2|
      invariant chars == Norm(fold, s2[..k]) && orig == Origins(fold, s2[..k]) && |chars| == |orig|
      invariant b == |EncodeAll(s2[..k])|
    {
      var ch := s2[k];
      NormStepAt(fold, s2, k);
      if !(IsSpace(ch) || IsNoise(ch)) {
        chars, orig := AppendFolded(chars, orig, fold(ch), b);
      } else {
        assert orig + seq(0, _ => b) == orig;
      }
      EncodeStep(s2, k);
      b := b + |Encode(ch)|;
    }
    assert s2[..|s2|] == s2;
  }

  lemma {:induction false} EncodeStep(s: string, k: nat)
    requires k < |s|
    ensures Offset(s, k + 1) == Offset(s, k) + |Encode(s[k])|
  {
    assert s[..k + 1] == s[..k] + [s[k]];
    EncodeConcat(s[..k], [s[k]]);
    assert [s[k]][1..] == [];
  }

  // ------------------------------------------------------------------ the offset map

  lemma {:induction false} NormConcat(fold: char -> string, a: string, b: string)
    ensures Norm(fold, a + b) == Norm(fold, a) + Norm(fold, b)
  {
    if b == [] {
      assert a + b == a;
    } else {
      hide Fold;
      NormConcat(fold, a, b[..|b| - 1]);
      assert (a + b)[..|a + b| - 1] == a + b[..|b| - 1] && (a + b)[|a + b| - 1] == b[|b| - 1];
    }
  }

  /** White space and the characters of `*_`#>~[]()` disappear, and every other character is folded where it stands. */
  lemma {:induction false} NormFoldsCharacters(fold: char -> string, before: string, c: char, after: string)
    ensures Norm(fold, before + [c] + after)
      == Norm(fold, before) + (if IsSpace(c) || c in "*_`#>~[]()" then [] else fold(c)) + Norm(fold, after)
  {
    NormConcat(fold, before + [c], after);
    NormConcat(fold, before, [c]);
    assert [c][..0] == [];
  }

  /** Number of normalised characters before character `k`. */
  function NormIndex(fold: char -> string, s: string, k: nat): nat
    requires k <= |s|
  {
    |Norm(fold, s[..k])|
  }

  lemma {:induction false} NormSlice(fold: char -> string, s: string, p: nat, q: nat)
    requires p <= q <= |s|
    ensures NormIndex(fold, s, p) <= NormIndex(fold, s, q) <= |Norm(fold, s)|
    ensures Norm(fold, s[p..q]) == Norm(fold, s)[NormIndex(fold, s, p)..NormIndex(fold, s, q)]
  {
    assert s == s[..p] + s[p..q] + s[q..] && s[..q] == s[..p] + s[p..q] && s == s[..q] + s[q..];
    NormConcat(fold, s[..p], s[p..q]);
    NormConcat(fold, s[..q], s[q..]);
  }

  lemma {:induction false} OriginsLength(fold: char -> string, s: string)
    ensures |Origins(fold, s)| == |Norm(fold, s)|
  {
    if s != [] { OriginsLength(fold, s[..|s| - 1]); }
  }

  /** The source character behind normalised position `i`. */
  lemma {:induction false} OriginOf(fold: char -> string, s: string, i: nat) returns (k: nat)
    requires i < |Norm(fold, s)|
    ensures |Origins(fold, s)| == |Norm(fold, s)|
    ensures k < |s| && NormIndex(fold, s, k) <= i < NormIndex(fold, s, k + 1) && Origins(fold, s)[i] == Offset(s, k)
  {
    OriginsLength(fold, s);
    var n := |s| - 1;
    OriginsLength(fold, s[..n]);
    if i < |Norm(fold, s[..n])| {
      k := OriginOf(fold, s[..n], i);
      assert s[..n][..k] == s[..k] && s[..n][..k + 1] == s[..k + 1];
    } else {
      k := n;
      assert s[..n + 1] == s;
    }
  }

  lemma {:induction false} OffsetStrict(s: string, p: nat, q: nat)
    requires p < q <= |s|
    ensures Offset(s, p) < Offset(s, q)
  {
    EncodeStep(s, q - 1);
    if p < q - 1 { OffsetStrict(s, p, q - 1); }
  }

  /** Offsets never decrease along the normalised text. */
  lemma {:induction false} OriginsNondecreasing(fold: char -> string, s: string, i: nat, j: nat)
    requires i <= j < |Norm(fold, s)|
    ensures |Origins(fold, s)| == |Norm(fold, s)| && Origins(fold, s)[i] <= Origins(fold, s)[j] < |EncodeAll(s)|
  {
    var p := OriginOf(fold, s, i);
    var q := OriginOf(fold, s, j);
    if q < p { NormSlice(fold, s, q + 1, p); }
    if p < q { OffsetStrict(s, p, q); }
    OffsetStrict(s, q, |s|);
    assert s[..|s|] == s;
  }

  /** Byte range of the first occurrence of the normalised phrase. */
  function FindSpan(fold: char -> string, source: string, phrase: string): Option<(nat, nat)> {
    var hay, orig, needle := Norm(fold, StripLinks(source)), Origins(fold, StripLinks(source)),
        Norm(fold, StripLinks(phrase));
    FindTextIsFirst(hay, needle);
    OriginsLength(fold, StripLinks(source));
    var i := FindText(hay, needle);
    if needle == [] || i < 0 then None
    else Some((orig[i], if i + |needle| < |orig| then orig[i + |needle|] else |EncodeAll(source)|))
  }

  method FindSpanOf(fold: char -> string, source: string, phrase: string) returns (r: Option<(nat, nat)>)
    ensures r == FindSpan(fold, source, phrase)
  {
    hide Norm, Origins, StripLinks, FindText, OccursAt, EncodeAll;
    var hay, orig := NormSeq(fold, source);
    var needle, _ := NormSeq(fold, phrase);
    FindTextIsFirst(hay, needle);
    if needle == [] { return None; }
    var i := FindText(hay, needle);
    if i < 0 { return None; }
    var start := orig[i];
    var endIdx := i + |needle|;
    var end := if endIdx < |orig| then orig[endIdx] else |EncodeAll(source)|;
    return Some((start, end));
  }

  /** Normalised position `i` is where a source character's expansion starts. */
  predicate WholeAt(orig: seq<nat>, i: nat) { i == 0 || i >= |orig| || orig[i - 1] != orig[i] }

  lemma {:induction false} WholeAtStart(fold: char -> string, s: string, i: nat, k: nat)
    requires |Origins(fold, s)| == |Norm(fold, s)| && i < |Norm(fold, s)| && k < |s|
    requires NormIndex(fold, s, k) <= i < NormIndex(fold, s, k + 1) && Origins(fold, s)[i] == Offset(s, k)
    ensures WholeAt(Origins(fold, s), i) <==> i == NormIndex(fold, s, k)
  {
    if i > 0 {
      var j := OriginOf(fold, s, i - 1);
      if j < k {
        NormSlice(fold, s, j + 1, k);
        OffsetStrict(s, j, k);
      } else if k < j {
        NormSlice(fold, s, k + 1, j);
      }
    }
  }

  /** The characters between which the match of `needle` at `i` puts the byte range. */
  lemma {:induction false} SpanBounds(fold: char -> string, s: string, i: nat, j: nat) returns (p: nat, q: nat)
    requires i < j <= |Norm(fold, s)|
    ensures |Origins(fold, s)| == |Norm(fold, s)| && p <= q <= |s|
    ensures Origins(fold, s)[i] == Offset(s, p)
    ensures if j < |Norm(fold, s)| then Origins(fold, s)[j] == Offset(s, q) else q == |s|
    ensures NormIndex(fold, s, p) <= i && NormIndex(fold, s, q) <= j
    ensures WholeAt(Origins(fold, s), i) <==> i == NormIndex(fold, s, p)
    ensures WholeAt(Origins(fold, s), j) <==> j == NormIndex(fold, s, q)
    ensures j < |Norm(fold, s)| ==> q < |s|
  {
    hide EncodeAll, Encode, Norm, Origins;
    OriginsLength(fold, s);
    p := OriginOf(fold, s, i);
    WholeAtStart(fold, s, i, p);
    if j < |Norm(fold, s)| {
      q := OriginOf(fold, s, j);
      WholeAtStart(fold, s, j, q);
      OriginsNondecreasing(fold, s, i, j);
      if q < p { OffsetStrict(s, q, p); }
    } else {
      q := |s|;
      assert s[..q] == s;
    }
  }

  /** The range ends where the first link begins or before, or takes all of the rest from there or before. */
  ghost predicate BeforeLinks(source: string, span: (nat, nat)) {
    var link := Offset(source, FirstLink(source));
    span.1 <= link || (span.0 <= link && span.1 == |EncodeAll(source)|)
  }

  lemma {:induction false} OffsetOrder(s: string, p: nat, q: nat)
    requires p <= |s| && q <= |s|
    ensures p <= q <==> Offset(s, p) <= Offset(s, q)
  {
    if p < q { OffsetStrict(s, p, q); } else if q < p { OffsetStrict(s, q, p); }
  }

  /** Two texts that agree up to `k`, and a position before it. */
  lemma {:induction false} SameHead(source: string, s: string, k: nat, m: nat)
    requires k <= |source| && k <= |s| && s[..k] == source[..k] && m <= |s| && Offset(s, m) <= Offset(source, k)
    ensures m <= k && s[..m] == source[..m] && Offset(s, m) == Offset(source, m)
  {
    hide EncodeAll;
    OffsetOrder(s, m, k);
    assert s[..m] == s[..k][..m] && source[..m] == source[..k][..m];
  }

  /** The part of the source the range holds. */
  lemma {:induction false} SpanInSource(source: string, p: nat, q: nat, span: (nat, nat)) returns (q': nat)
    requires var s := StripLinks(source);
      && p <= q <= |s| && BeforeLinks(source, span) && span.0 == Offset(s, p) <= span.1
      && (if span.1 == |EncodeAll(source)| then q == |s| else span.1 == Offset(s, q))
    ensures p <= q' <= |source| && span == (Offset(source, p), Offset(source, q'))
    ensures StripLinks(source[p..q']) == StripLinks(source)[p..q]
  {
    hide StripLinks, EncodeAll, FirstLink, LinkAt, NoLinkBefore;
    var s, k := StripLinks(source), FirstLink(source);
    StripTail(source, k);
    SameHead(source, s, k, p);
    if span.1 == |EncodeAll(source)| {
      q' := |source|;
      assert source[..q'] == source;
      StripTail(source, p);
      assert source[p..q'] == source[p..] && s[p..q] == s[p..];
    } else {
      q' := q;
      SameHead(source, s, k, q);
      StripSlice(source, p, q, k);
      assert s[p..q] == s[..q][p..] && source[p..q] == source[..q][p..];
    }
  }

  /** When the range found ends where the first link begins or before, or starts there or before and takes all the
      rest, links included, it starts and ends on characters, and what it holds normalises back to the phrase exactly
      when the match starts and ends between whole characters. */
  lemma {:induction false} SpanNormalisesBack(fold: char -> string, source: string, phrase: string)
    returns (p: nat, q: nat)
    requires FindSpan(fold, source, phrase).Some? && BeforeLinks(source, FindSpan(fold, source, phrase).value)
    ensures var s, needle := StripLinks(source), Norm(fold, StripLinks(phrase));
      var i, span := FindText(Norm(fold, s), needle), FindSpan(fold, source, phrase).value;
      && p <= q <= |source| && span == (Offset(source, p), Offset(source, q)) && span.0 <= span.1 <= |EncodeAll(source)|
      && EncodeAll(source)[span.0..span.1] == EncodeAll(source[p..q])
      && i >= 0 && (Norm(fold, StripLinks(source[p..q])) == needle
                    <==> WholeAt(Origins(fold, s), i) && WholeAt(Origins(fold, s), i + |needle|))
  {
    var s := StripLinks(source);
    var hay, needle := Norm(fold, s), Norm(fold, StripLinks(phrase));
    FindTextIsFirst(hay, needle);
    OriginsLength(fold, s);
    var i := FindText(hay, needle);
    var j := i + |needle|;
    hide EncodeAll, Encode, Norm, Origins, StripLinks, FindText, WholeAt, BeforeLinks;
    var r;
    p, r := SpanBounds(fold, s, i, j);
    StrippedIsShorter(source);
    if j < |hay| {
      OffsetStrict(s, r, |s|);
      assert s[..|s|] == s;
    }
    if j < |hay| { OriginsNondecreasing(fold, s, i, j); } else { SplitAt(s, p, |s|); }
    q := SpanInSource(source, p, r, FindSpan(fold, source, phrase).value);
    SplitAt(source, p, q);
    NormSlice(fold, s, p, r);
    MatchIsExact(hay, needle, NormIndex(fold, s, p), NormIndex(fold, s, r), i, j);
  }

  /** A slice that starts no later than the first occurrence and ends no later equals the needle
      only if it is that occurrence. */
  lemma {:induction false} MatchIsExact(hay: string, needle: string, a: nat, b: nat, i: nat, j: nat)
    requires FindText(hay, needle) == i && j == i + |needle| <= |hay| && a <= i && a <= b <= j
    requires needle != []
    ensures hay[a..b] == needle <==> a == i && b == j
  {
    FindTextIsFirst(hay, needle);
    if hay[a..b] == needle { assert OccursAt(hay, needle, a); }
  }

  // ------------------------------------------------------------------ links before the match

  /** The folding keeps the character and takes it to one character. */
  predicate FoldsTo(fold: char -> string, c: char, to: char) { Keeps(c) && fold(c) == [to] }

  lemma {:induction false} NormOne(fold: char -> string, c: char, to: char)
    requires FoldsTo(fold, c, to)
    ensures Norm(fold, [c]) == [to]
  {
    assert [c][..0] == [];
  }

  lemma {:induction false} PairIsPlain(fold: char -> string, a: char, c: char, a': char, c': char)
    requires FoldsTo(fold, a, a') && FoldsTo(fold, c, c')
    ensures NoBracket([a, c]) && '[' !in [c]
  {
  }

  /** Normalising a source with `a` and `c` behind it. */
  lemma {:induction false} NormBehind(fold: char -> string, source: string, a: char, c: char, a': char, c': char)
    requires FoldsTo(fold, a, a') && FoldsTo(fold, c, c')
    ensures StripLinks(source + [a, c]) == StripLinks(source) + [a, c]
    ensures StripLinks([c]) == [c] && Norm(fold, [c]) == [c']
    ensures Norm(fold, StripLinks(source) + [a, c]) == Norm(fold, StripLinks(source)) + [a', c']
    ensures Norm(fold, StripLinks(source) + [a]) == Norm(fold, StripLinks(source)) + [a']
  {
    hide StripLinks, Norm;
    var stripped := StripLinks(source);
    PairIsPlain(fold, a, c, a', c');
    StripAppend(source, [a, c]);
    StripPlain([c]);
    hide FoldsTo;
    NormOne(fold, a, a');
    NormOne(fold, c, c');
    NormConcat(fold, stripped, [a]);
    NormConcat(fold, stripped + [a], [c]);
    assert stripped + [a, c] == stripped + [a] + [c];
  }

  /** The offset of the last character. */
  lemma {:induction false} LastOrigin(fold: char -> string, s: string, n: nat, i: nat)
    requires n < |s| && i + 1 == |Norm(fold, s)| && |Norm(fold, s[..n])| == i
    ensures |Origins(fold, s)| == i + 1 && (n + 1 == |s| ==> Origins(fold, s)[i] == Offset(s, n))
  {
    hide Norm, Origins, EncodeAll;
    var k := OriginOf(fold, s, i);
    if k < n { NormSlice(fold, s, k + 1, n); }
  }

  /** The range found for the last character behind a source. */
  lemma {:induction false} SpanBehind(fold: char -> string, source: string, a: char, c: char, a': char, c': char)
    requires FoldsTo(fold, a, a') && FoldsTo(fold, c, c') && a' != c' && c' !in Norm(fold, StripLinks(source))
    ensures FindSpan(fold, source + [a, c], [c])
         == Some((|EncodeAll(StripLinks(source) + [a])|, |EncodeAll(source + [a, c])|))
  {
    hide Norm, Origins, StripLinks, EncodeAll, Keeps, FindText, FoldsTo;
    var stripped := StripLinks(source);
    var s, i := stripped + [a, c], |Norm(fold, stripped)| + 1;
    NormBehind(fold, source, a, c, a', c');
    FirstAtEnd(Norm(fold, stripped), a', c');
    assert s[..|stripped| + 1] == stripped + [a];
    LastOrigin(fold, s, |stripped| + 1, i);
  }

  lemma {:induction false} BytesBehind(source: string, stripped: string, a: char, c: char)
    requires |EncodeAll(stripped)| + 4 <= |EncodeAll(source)|
    ensures |EncodeAll(stripped + [a])| <= |EncodeAll(source)| <= |EncodeAll(source + [a, c])|
    ensures var start := |EncodeAll(stripped + [a])|;
      EncodeAll(source + [a, c])[start..] == EncodeAll(source)[start..] + EncodeAll([a, c])
  {
    EncodeConcat(stripped, [a]);
    EncodeConcat(source, [a, c]);
    assert [a][1..] == [] && EncodeAll([a]) == Encode(a) + EncodeAll([]);
    hide EncodeAll, Encode;
    CutConcat(EncodeAll(source), EncodeAll([a, c]), |EncodeAll(stripped + [a])|);
  }

  /** Behind a link the range found misses: append two characters that fold to different ones to any source with
      a link, the second new to it, and what is found for the second one does not normalise back to it, whatever
      text its bytes are read as. */
  lemma {:induction false} LinksShiftTheSpan(fold: char -> string, source: string, a: char, c: char, a': char, c': char,
          t: string)
    requires FirstLink(source) < |source|
    requires FoldsTo(fold, a, a') && FoldsTo(fold, c, c') && a' != c' && c' !in Norm(fold, StripLinks(source))
    ensures var s := source + [a, c];
      && FindSpan(fold, s, [c]).Some?
      && var span := FindSpan(fold, s, [c]).value;
      && span.0 <= span.1 == |EncodeAll(s)|
      && (EncodeAll(t) == EncodeAll(s)[span.0..span.1] ==> Norm(fold, StripLinks(t)) != Norm(fold, StripLinks([c])))
  {
    hide Norm, Origins, FindSpan, FirstLink, StripLinks, EncodeAll, Keeps, FoldsTo;
    var stripped, all := StripLinks(source), EncodeAll(source + [a, c]);
    SpanBehind(fold, source, a, c, a', c');
    StrippedIsShorter(source);
    BytesBehind(source, stripped, a, c);
    NormBehind(fold, source, a, c, a', c');
    var start := |EncodeAll(stripped + [a])|;
    assert all[start..|all|] == all[start..];
    if EncodeAll(t) == all[start..] {
      var k := EndsWith(t, EncodeAll(source)[start..], [a, c]);
      NormBehind(fold, t[..k], a, c, a', c');
    }
  }

  /** A source of links alone, and two characters. */
  lemma {:induction false} SpanBehindLinks(links: string, a: char, c: char)
    requires StripLinks(links) == [] && Ascii(links + [a, c]) && Keeps(a) && Keeps(c) && a != c
    ensures FindSpan(Same, links + [a, c], [c]) == Some((1, |links| + 2))
    ensures |EncodeAll(links + [a, c])| == |links| + 2
    ensures EncodeAll(links + [a, c])[1..] == EncodeAll((links + [a, c])[1..])
  {
    var all := links + [a, c];
    assert all[|links|] in all && [] + [a] == [a] && Norm(Same, []) == [];
    AsciiBytes([a]);
    AsciiBytes(all);
    AsciiSlice(all, 1);
    hide EncodeAll, FindSpan, StripLinks, Norm;
    SpanBehind(Same, links, a, c, a, c);
  }

  /** For instance `c` in `[](b)ac`: the range found holds `](b)ac`, which normalises to `bac`. */
  lemma {:induction false} LinkedMiss()
    ensures var source := "[](b)" + ['a', 'c'];
      && FindSpan(Same, source, ['c']) == Some((1, 7))
      && |EncodeAll(source)| == 7 && EncodeAll(source)[1..] == EncodeAll("](b)ac")
    ensures Norm(Same, StripLinks("](b)ac")) == "bac"
  {
    LinkedStrip();
    MissIsPlain();
    NormOfMiss();
    StripPlain("](b)ac");
    hide EncodeAll, FindSpan, StripLinks, Norm, Keeps, Ascii, Same;
    SpanBehindLinks("[](b)", 'a', 'c');
  }

  lemma {:induction false} MissIsPlain()
    ensures Ascii("[](b)" + ['a', 'c']) && Keeps('a') && Keeps('c') && |"[](b)"| == 5
    ensures ("[](b)" + ['a', 'c'])[1..] == "](b)ac"
  {
  }

  lemma {:induction false} LinkedStrip()
    ensures StripLinks("[](b)") == ""
  {
    LinkedLabel();
    hide LabelAt;
    assert "[](b)"[1..] == "](b)" && "[](b)"[5..] == "" && Bang("[](b)") == 0;
  }

  lemma {:induction false} LinkedLabel()
    ensures LabelAt("](b)") == Some(([], 4))
  {
    assert "](b)"[2..] == "b)" && "b)"[1..] == ")" && "](b)"[..0] == [];
  }

  lemma {:induction false} NormOfMiss()
    ensures Norm(Same, "](b)ac") == "bac"
  {
    hide Norm;
    NormOfMissStart();
    NormStep("](b)", 'a', "](b)a", "b", "ba");
    NormStep("](b)a", 'c', "](b)ac", "ba", "bac");
  }

  lemma {:induction false} NormOfMissStart()
    ensures Norm(Same, "](b)") == "b"
  {
    hide Norm;
    NormStep("", ']', "]", "", "");
    NormStep("]", '(', "](", "", "");
    assert Fold(Same, 'b') == "b" && "" + "b" == "b";
    NormStep("](", 'b', "](b", "", "b");
    NormStep("](b", ')', "](b)", "b", "b");
  }

  lemma {:induction false} NormStep(s: string, c: char, t: string, before: string, after: string)
    requires t == s + [c] && (s == [] ==> before == []) && (s == [] || Norm(Same, s) == before)
    requires after == before + Fold(Same, c)
    ensures Norm(Same, t) == after
  {
    assert t[..|s|] == s;
  }

  function Same(c: char): string { [c] }
}
