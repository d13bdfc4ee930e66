/** Markdown links and images, and stripping them down to their labels. */
module MarkdownLinks {
  import opened Collections
  import opened Options
  import opened Strings
  import opened Utf8

  /** `label](target)` at the front: the label, and the number of characters the whole takes. */
  function LabelAt(s: string): (m: Option<(string, nat)>)
    ensures m.Some? ==> |m.value.0| + 3 <= m.value.1 <= |s|
  {
    var close := IndexOf(s, ']');
    if close + 1 >= |s| || s[close + 1] != '(' then None
    else
      var paren := IndexOf(s[close + 2..], ')');
      if close + 2 + paren >= |s| then None else Some((s[..close], close + paren + 3))
  }

  function Bang(s: string): nat { if s != [] && s[0] == '!' then 1 else 0 }

  predicate OpensLink(s: string) { |s| > Bang(s) && s[Bang(s)] == '[' }

  /** A Markdown link or image at the front: its label, and the number of characters it takes. */
  function LinkAt(s: string): (m: Option<(string, nat)>)
    ensures m.Some? ==> 0 < m.value.1 <= |s|
  {
    if !OpensLink(s) then None
    else
      match LabelAt(s[Bang(s) + 1..])
      case None => None
      case Some((text, n)) => Some((text, Bang(s) + 1 + n))
  }

  /** `re.sub(r"!?\[([^\]]*)\]\([^)]*\)", r"\1", s)`. */
  function StripLinks(s: string): string
    decreases |s|
  {
    if s == [] then []
    else
      match LinkAt(s)
      case Some((text, n)) => text + StripLinks(s[n..])
      case None => [s[0]] + StripLinks(s[1..])
  }

  predicate NoLinkBefore(s: string, k: nat)
    requires k <= |s|
  {
    forall m | 0 <= m < k :: LinkAt(s[m..]) == None
  }

  /** Where the first link begins; the length if there is none. */
  function FirstLink(s: string): (k: nat)
    ensures k <= |s| && NoLinkBefore(s, k) && (k < |s| ==> LinkAt(s[k..]).Some?)
  {
    hide LinkAt;
    if s == [] || LinkAt(s).Some? then
      assert s[0..] == s;
      0
    else
      var k := FirstLink(s[1..]);
      NoLinkStep(s, k);
      k + 1
  }

  lemma {:induction false} NoLinkStep(s: string, k: nat)
    requires s != [] && LinkAt(s) == None && k < |s| && NoLinkBefore(s[1..], k)
    ensures NoLinkBefore(s, k + 1) && s[k + 1..] == s[1..][k..]
  {
    hide LinkAt;
    forall m | 0 <= m < k + 1 ensures LinkAt(s[m..]) == None {
      if m == 0 { assert s[m..] == s; } else { assert s[m..] == s[1..][m - 1..]; }
    }
  }

  lemma {:induction false} StripCharacter(s: string)
    requires s != [] && LinkAt(s) == None
    ensures StripLinks(s) == [s[0]] + StripLinks(s[1..])
  {
  }

  lemma {:induction false} NoLinkBeforeTail(s: string, p: nat, k: nat)
    requires p <= k <= |s| && NoLinkBefore(s, k)
    ensures NoLinkBefore(s[p..], k - p)
  {
    hide LinkAt;
    forall m | 0 <= m < k - p ensures LinkAt(s[p..][m..]) == None { assert s[p..][m..] == s[p + m..]; }
  }

  lemma {:induction false} FirstIsNoLink(s: string, k: nat)
    requires 0 < k <= |s| && NoLinkBefore(s, k)
    ensures LinkAt(s) == None
  {
    assert s[0..] == s;
  }

  /** Text before the first link is left alone. */
  lemma {:induction false} StripHead(s: string, k: nat)
    requires k <= |s| && NoLinkBefore(s, k)
    ensures StripLinks(s) == s[..k] + StripLinks(s[k..])
  {
    hide LinkAt, StripLinks, NoLinkBefore;
    if k == 0 {
      assert s[0..] == s;
    } else {
      var tail := s[1..];
      FirstIsNoLink(s, k);
      StripCharacter(s);
      NoLinkBeforeTail(s, 1, k);
      StripHead(tail, k - 1);
      assert tail[k - 1..] == s[k..] && s[..k] == [s[0]] + tail[..k - 1];
    }
  }

  lemma {:induction false} LabelInPrefix(s: string, t: string)
    requires LabelAt(s).Some?
    ensures LabelAt(s + t) == LabelAt(s)
  {
    var close := IndexOf(s, ']');
    var target := s[close + 2..];
    IndexOfPrefix(s, ']', t);
    IndexOfPrefix(target, ')', t);
    hide IndexOf;
    assert (s + t)[close + 1] == s[close + 1] && (s + t)[close + 2..] == target + t;
    assert (s + t)[..close] == s[..close];
  }

  /** A link at the front stays one whatever follows. */
  lemma {:induction false} LinkInPrefix(s: string, t: string)
    ensures LinkAt(s).Some? ==> LinkAt(s + t) == LinkAt(s)
  {
    hide LabelAt;
    if LinkAt(s).Some? {
      var n := Bang(s) + 1;
      assert Bang(s + t) == Bang(s) && (s + t)[n - 1] == s[n - 1] && (s + t)[n..] == s[n..] + t;
      LabelInPrefix(s[n..], t);
    }
  }

  /** No link begins and ends inside text without one. */
  lemma {:induction false} StripSlice(s: string, p: nat, q: nat, k: nat)
    requires p <= q <= k <= |s| && NoLinkBefore(s, k)
    ensures StripLinks(s[p..q]) == s[p..q]
  {
    var t := s[p..q];
    forall m | 0 <= m < |t| ensures LinkAt(t[m..]) == None {
      assert s[p + m..] == t[m..] + s[q..];
      LinkInPrefix(t[m..], s[q..]);
    }
    StripHead(t, |t|);
  }

  /** Text from before the first link on. */
  lemma {:induction false} StripTail(s: string, p: nat)
    requires p <= FirstLink(s)
    ensures p <= |StripLinks(s)| && StripLinks(s[p..]) == StripLinks(s)[p..] && StripLinks(s)[..p] == s[..p]
  {
    hide LinkAt, StripLinks, NoLinkBefore, FirstLink;
    var k := FirstLink(s);
    StripHead(s, k);
    NoLinkBeforeTail(s, p, k);
    StripHead(s[p..], k - p);
    CutConcat(s[..k], StripLinks(s[k..]), p);
    assert s[p..][k - p..] == s[k..] && s[p..][..k - p] == s[..k][p..] && s[..k][..p] == s[..p];
  }

  /** Text without the first character of any link is left alone. */
  lemma {:induction false} StripPlain(s: string)
    requires '[' !in s
    ensures StripLinks(s) == s
  {
    if s != [] {
      assert LinkAt(s) == None;
      StripPlain(s[1..]);
      assert s == [s[0]] + s[1..];
    }
  }

  /** Stripping a link takes at least its four brackets. */
  lemma {:induction false} LinkShrinks(s: string)
    requires LinkAt(s).Some?
    ensures |EncodeAll(LinkAt(s).value.0)| + 4 <= |EncodeAll(s[..LinkAt(s).value.1])|
  {
    var from, n := Bang(s) + 1, LinkAt(s).value.1;
    var text := LinkAt(s).value.0;
    LabelIsPrefix(s[from..]);
    hide LabelAt, EncodeAll, Encode;
    var head, tail := s[..from], s[from + |text|..n];
    CutAround(s, from, text, n);
    EncodeConcat(head, text + tail);
    EncodeConcat(text, tail);
    BytesAtLeast(head);
    BytesAtLeast(tail);
  }

  lemma {:induction false} CutAround(s: string, from: nat, text: string, n: nat)
    requires from + |text| <= n <= |s| && text <= s[from..]
    ensures s[..n] == s[..from] + (text + s[from + |text|..n])
  {
    assert s[from..from + |text|] == text;
  }

  lemma {:induction false} LabelIsPrefix(s: string)
    ensures LabelAt(s).Some? ==> LabelAt(s).value.0 <= s
  {
  }

  lemma {:induction false} BytesAtLeast(s: string)
    ensures |EncodeAll(s)| >= |s|
  {
    if s != [] { BytesAtLeast(s[1..]); }
  }

  lemma {:induction false} StrippedIsShorter(s: string)
    ensures |EncodeAll(StripLinks(s))| <= |EncodeAll(s)|
    ensures FirstLink(s) < |s| ==> |EncodeAll(StripLinks(s))| + 4 <= |EncodeAll(s)|
    decreases |s|
  {
    hide LinkAt, EncodeAll, Encode;
    if s != [] {
      match LinkAt(s)
      case Some((text, n)) =>
        LinkShrinks(s);
        StrippedIsShorter(s[n..]);
        assert s == s[..n] + s[n..];
        EncodeConcat(s[..n], s[n..]);
        EncodeConcat(text, StripLinks(s[n..]));
      case None =>
        StrippedIsShorter(s[1..]);
        assert s == [s[0]] + s[1..];
        EncodeConcat([s[0]], s[1..]);
        EncodeConcat([s[0]], StripLinks(s[1..]));
    }
  }

  predicate NoBracket(s: string) { '[' !in s && ']' !in s && '(' !in s && ')' !in s }

  lemma {:induction false} NoLabelAppears(s: string, t: string)
    requires NoBracket(t) && LabelAt(s) == None
    ensures LabelAt(s + t) == None
  {
    var close := IndexOf(s, ']');
    IndexOfPrefix(s, ']', t);
    if close + 1 == |s| && t != [] {
      assert (s + t)[close + 1] == t[0] && t[0] in t;
    } else if close + 1 < |s| && s[close + 1] == '(' {
      IndexOfPrefix(s[close + 2..], ')', t);
      assert (s + t)[close + 2..] == s[close + 2..] + t;
    }
  }

  lemma {:induction false} NoLinkAppears(s: string, t: string)
    requires s != [] && NoBracket(t) && LinkAt(s) == None
    ensures LinkAt(s + t) == None
  {
    hide LabelAt;
    var n := Bang(s) + 1;
    assert Bang(s + t) == Bang(s);
    if |s| < n {
      assert t != [] ==> (s + t)[n - 1] == t[0] && t[0] in t;
    } else if OpensLink(s) {
      NoLabelAppears(s[n..], t);
      assert (s + t)[n..] == s[n..] + t;
    }
  }

  /** Text without brackets passes through behind anything. */
  lemma {:induction false} StripAppend(s: string, t: string)
    requires NoBracket(t)
    ensures StripLinks(s + t) == StripLinks(s) + t
    decreases |s|
  {
    hide LinkAt;
    if s == [] {
      assert s + t == t;
      StripPlain(t);
    } else {
      assert (s + t)[0] == s[0];
      match LinkAt(s)
      case Some((text, n)) =>
        LinkInPrefix(s, t);
        StripAppend(s[n..], t);
        assert (s + t)[n..] == s[n..] + t;
        assert text + StripLinks(s[n..] + t) == text + StripLinks(s[n..]) + t;
      case None =>
        NoLinkAppears(s, t);
        StripAppend(s[1..], t);
        assert (s + t)[1..] == s[1..] + t;
        assert [s[0]] + StripLinks(s[1..] + t) == [s[0]] + StripLinks(s[1..]) + t;
    }
  }

  // ------------------------------------------------------------------ what a link is, in characters

  /** `[text](target)`, or the same behind an exclamation mark. */
  predicate IsLinkTo(t: string, text: string, target: string) {
    && (t == "[" + text + "](" + target + ")" || t == "![" + text + "](" + target + ")")
    && ']' !in text && ')' !in target
  }

  ghost predicate IsLink(t: string, text: string) { exists target :: IsLinkTo(t, text, target) }

  lemma {:induction false} LabelParts(s: string) returns (target: string)
    requires LabelAt(s).Some?
    ensures var (text, n) := LabelAt(s).value;
      s[..n] == text + "](" + target + ")" && ']' !in text && ')' !in target
  {
    hide IndexOf;
    var close := IndexOf(s, ']');
    var rest := s[close + 2..];
    var paren := IndexOf(rest, ')');
    target := rest[..paren];
    assert s[..close + 2] == s[..close] + "](" && rest[..paren + 1] == target + ")";
    assert s[..close + paren + 3] == s[..close + 2] + rest[..paren + 1];
  }

  lemma {:induction false} LabelOfParts(s: string, text: string, target: string)
    requires ']' !in text && ')' !in target && text + "](" + target + ")" <= s
    ensures LabelAt(s) == Some((text, |text| + |target| + 3))
  {
    var n := |text| + |target| + 3;
    var rest := s[n..];
    assert s == text + "](" + target + ")" + rest;
    assert s == text + [']'] + ("(" + target + ")" + rest);
    IndexOfFirst(text, ']', "(" + target + ")" + rest);
    assert s[|text| + 1] == '(' && s[|text| + 2..] == target + [')'] + rest;
    IndexOfFirst(target, ')', rest);
    assert s[..|text|] == text;
  }

  /** A link is found at the front exactly when the text begins with one, and then it is that one. */
  lemma {:induction false} LinkAtIff(s: string, text: string, n: nat)
    ensures LinkAt(s) == Some((text, n)) <==> n <= |s| && IsLink(s[..n], text)
  {
    hide LabelAt, IndexOf;
    var b := Bang(s) + 1;
    if LinkAt(s) == Some((text, n)) {
      var target := LabelParts(s[b..]);
      assert s[..n] == s[..b] + s[b..][..n - b];
      assert s[..b] == (if b == 2 then "![" else "[");
      assert s[..n] == s[..b] + (text + "](" + target + ")");
      assert IsLinkTo(s[..n], text, target);
    }
    if n <= |s| && IsLink(s[..n], text) {
      var target :| IsLinkTo(s[..n], text, target);
      assert s[0] == s[..n][0] && s[1] == s[..n][1];
      assert s[b..][..n - b] == s[..n][b..] == text + "](" + target + ")";
      LabelOfParts(s[b..], text, target);
    }
  }

  /** The `n` characters from `j` on are a link. */
  ghost predicate LinkSpans(s: string, j: nat, n: nat, text: string) { j + n <= |s| && IsLink(s[j..j + n], text) }

  ghost predicate LinkStarts(s: string, j: nat) { exists n, text :: LinkSpans(s, j, n, text) }

  /** Stripping replaces the leftmost link by its text and goes on behind it. */
  lemma {:induction false} StripReplacesLink(s: string, k: nat, n: nat, text: string)
    requires LinkSpans(s, k, n, text) && forall j: nat | j < k :: !LinkStarts(s, j)
    ensures StripLinks(s) == s[..k] + text + StripLinks(s[k + n..])
  {
    NothingBefore(s, k);
    StripHead(s, k);
    var rest := s[k..];
    LinkAtIff(rest, text, n);
    assert rest[..n] == s[k..k + n] && rest[n..] == s[k + n..];
    hide LinkAt, LinkSpans, LinkStarts, IsLink, NoLinkBefore;
    assert StripLinks(rest) == text + StripLinks(s[k + n..]);
  }

  /** Text without a link is left as it is. */
  lemma {:induction false} StripLeavesRest(s: string)
    requires forall j: nat | j < |s| :: !LinkStarts(s, j)
    ensures StripLinks(s) == s
  {
    NothingBefore(s, |s|);
    StripHead(s, |s|);
  }

  lemma {:induction false} NothingBefore(s: string, k: nat)
    requires k <= |s| && forall j: nat | j < k :: !LinkStarts(s, j)
    ensures NoLinkBefore(s, k)
  {
    hide LinkStarts, LinkAt;
    forall j: nat | j < k ensures LinkAt(s[j..]) == None {
      if LinkAt(s[j..]).Some? { FoundLinkStarts(s, j); }
    }
  }

  lemma {:induction false} FoundLinkStarts(s: string, j: nat)
    requires j <= |s| && LinkAt(s[j..]).Some?
    ensures LinkStarts(s, j)
  {
    hide IsLink, LinkAt;
    var (text, n) := LinkAt(s[j..]).value;
    LinkAtIff(s[j..], text, n);
    assert s[j..][..n] == s[j..j + n];
    assert LinkSpans(s, j, n, text);
  }
}
