/** What the frontmatter patterns match, character by character, and the styles of writing that are read back. */
module FrontmatterStyles {
  import opened Frontmatter
  import opened JsText
  import opened Options
  import opened Strings

  // ------------------------------------------------------------------ the patterns

  /** `key:`, white space, and the rest of the line. */
  predicate IsField(line: string, key: string, gap: string, rest: string) {
    && line == key + ":" + gap + rest
    && key != [] && (forall c | c in key :: KeyCharacter(c))
    && Blank(gap) && (rest == [] || !IsSpace(rest[0])) && OneLine(rest)
  }

  predicate KeyCharacter(c: char) {
    'a' <= c <= 'z' || 'A' <= c <= 'Z' || '0' <= c <= '9' || c in "_/-"
  }

  lemma {:induction false} FieldKey(line: string, key: string, tail: string)
    requires line == key + ":" + tail && key != [] && forall c | c in key :: KeyCharacter(c)
    ensures StartsWithKey(line) && KeyLength(line) == |key| && line[..|key|] == key && line[|key| + 1..] == tail
  {
    forall i | 0 <= i < |key| ensures IsKeyChar(key[i]) { assert KeyCharacter(key[i]); }
    KeyOf(key, tail);
  }

  /** Both sides of a character, and the white space behind it. */
  lemma {:induction false} Around(line: string, k: nat, gap: string, rest: string)
    requires k < |line| && line[k + 1..] == gap + rest
    ensures line == line[..k] + [line[k]] + gap + rest
  {
    assert line == line[..k] + [line[k]] + line[k + 1..];
  }

  lemma {:induction false} MatchedIsField(line: string) returns (gap: string)
    requires MatchField(line).Some?
    ensures var (key, rest) := MatchField(line).value; IsField(line, key, gap, rest)
  {
    var k := KeyLength(line);
    var _ := LTrimIsSuffix(line[k + 1..]);
    gap := LTrimParts(line[k + 1..]);
    hide LTrim, IsSpace, OneLine;
    Around(line, k, gap, LTrim(line[k + 1..]));
  }

  lemma {:induction false} FieldIsMatched(line: string, key: string, gap: string, rest: string)
    requires IsField(line, key, gap, rest)
    ensures MatchField(line) == Some((key, rest))
  {
    hide OneLine, Blank, IsSpace, StartsWithKey, KeyLength, KeyCharacter, LTrim;
    assert line == key + ":" + (gap + rest);
    FieldKey(line, key, gap + rest);
    LTrimOf(gap, rest);
  }

  /** The field pattern matches exactly such lines, with this key and this rest. */
  lemma {:induction false} MatchFieldIff(line: string, key: string, rest: string)
    ensures MatchField(line) == Some((key, rest)) <==> exists gap :: IsField(line, key, gap, rest)
  {
    hide MatchField, IsField;
    if MatchField(line) == Some((key, rest)) { var gap := MatchedIsField(line); }
    if gap :| IsField(line, key, gap, rest) { FieldIsMatched(line, key, gap, rest); }
  }

  /** White space, a dash, white space, and the item. */
  predicate IsItem(line: string, indent: string, gap: string, rest: string) {
    && line == indent + "-" + gap + rest && Blank(indent) && Blank(gap) && gap != []
    && (rest == [] || !IsSpace(rest[0])) && OneLine(rest)
  }

  /** The item pattern matches exactly such lines. */
  lemma {:induction false} MatchItemIff(line: string, rest: string)
    ensures MatchItem(line) == Some(rest) <==> exists indent, gap :: IsItem(line, indent, gap, rest)
  {
    hide MatchItem, IsItem;
    if MatchItem(line) == Some(rest) { var indent, gap := MatchedIsItem(line); }
    if indent, gap :| IsItem(line, indent, gap, rest) { ItemIsMatched(line, indent, gap, rest); }
  }

  lemma {:induction false} MatchedIsItem(line: string) returns (indent: string, gap: string)
    requires MatchItem(line).Some?
    ensures IsItem(line, indent, gap, MatchItem(line).value)
  {
    var t := LTrim(line);
    indent := LTrimParts(line);
    var _ := LTrimIsSuffix(t[1..]);
    gap := LTrimParts(t[1..]);
    var rest := LTrim(t[1..]);
    GapNotEmpty(t[1..], gap, rest);
    hide LTrim, IsSpace, OneLine;
    Around(t, 0, gap, rest);
    assert line == indent + (t[..0] + [t[0]] + gap + rest) == indent + "-" + gap + rest;
  }

  lemma {:induction false} ItemIsMatched(line: string, indent: string, gap: string, rest: string)
    requires IsItem(line, indent, gap, rest)
    ensures MatchItem(line) == Some(rest)
  {
    var t := "-" + gap + rest;
    LTrimOf(indent, t);
    LTrimOf(gap, rest);
    hide LTrim, OneLine;
    assert line == indent + t && t[1..] == gap + rest && t[1] == gap[0] && gap[0] in gap;
  }

  lemma {:induction false} GapNotEmpty(t: string, gap: string, rest: string)
    requires t == gap + rest && t != [] && IsSpace(t[0]) && (rest == [] || !IsSpace(rest[0]))
    ensures gap != []
  {
  }

  /** Around a trimmed text white space is cut off, and so is one pair of equal quotes, double or single. */
  lemma {:induction false} StripQOf(a: string, t: string, b: string)
    requires Blank(a) && Blank(b) && Trimmed(t)
    ensures StripQ(a + t + b) == (
      if |t| >= 2 && (t[0] == t[|t| - 1] == '"' || t[0] == t[|t| - 1] == '\'') then t[1..|t| - 1]
      else if t == "\"" || t == "'" then "" else t)
  {
    TrimOf(a, t, b);
  }

  /** An indented line with something on it that does not begin with a key and a colon. */
  lemma {:induction false} IsContinuationOf(a: string, t: string, b: string)
    requires Blank(a) && Blank(b) && Trimmed(t)
    ensures IsContinuation(a + t + b) <==>
      a != [] && t != [] && !exists key, tail :: StartsWith(t, key, tail)
  {
    var line := a + t + b;
    TrimOf(a, t, b);
    assert line == a + (t + b);
    if t != [] {
      assert (t + b)[0] == t[0];
      LTrimOf(a, t + b);
    } else {
      assert line == (a + b) + [];
      LTrimOf(a + b, []);
    }
    StartsWithKeyIff(t);
    hide IsSpace, Trim, LTrim, StartsWithKey;
    assert a != [] ==> line[0] == a[0];
    assert a == [] && t != [] ==> line[0] == t[0];
  }

  predicate StartsWith(t: string, key: string, tail: string) {
    t == key + ":" + tail && key != [] && forall c | c in key :: KeyCharacter(c)
  }

  lemma {:induction false} StartsWithKeyIff(t: string)
    ensures StartsWithKey(t) <==> exists key, tail :: StartsWith(t, key, tail)
  {
    if StartsWithKey(t) {
      var k := KeyLength(t);
      assert t == t[..k] + ":" + t[k + 1..];
      assert StartsWith(t, t[..k], t[k + 1..]);
    }
    if key, tail :| StartsWith(t, key, tail) { FieldKey(t, key, tail); }
  }

  // ------------------------------------------------------------------ the fences

  ghost predicate PaddedDashes(line: string) { exists a, b :: Padded(line, a, "---", b) }

  predicate Padded(line: string, a: string, t: string, b: string) { line == a + t + b && Blank(a) && Blank(b) }

  lemma {:induction false} IsFenceIff(line: string)
    ensures IsFence(line) <==> PaddedDashes(line)
  {
    if IsFence(line) {
      var a, b := TrimParts(line);
      assert Padded(line, a, "---", b);
    }
    if a, b :| Padded(line, a, "---", b) { TrimOf(a, "---", b); }
  }

  /** A note has frontmatter exactly when its first line is a fence and a later one is: the lines up to the first such
      line. Otherwise the note is its own body. */
  lemma {:induction false} SplitAtFences(md: string, close: nat)
    requires var lines := SplitLines(md);
      && close <= |lines| && (forall i | 1 <= i < close :: !PaddedDashes(lines[i]))
      && (close < |lines| ==> close >= 1 && PaddedDashes(lines[close]))
    ensures var lines := SplitLines(md);
      && (PaddedDashes(lines[0]) && close < |lines| ==>
            Split(md).fmText == Some(JoinLines(lines[1..close])) && |SplitLines(Split(md).body)| == |lines|
            && forall i | 0 <= i < |lines| :: SplitLines(Split(md).body)[i] == if i <= close then "" else lines[i])
      && (!PaddedDashes(lines[0]) || close == |lines| ==> Split(md) == Note(None, md))
  {
    var lines := SplitLines(md);
    forall i | 0 <= i < |lines| ensures IsFence(lines[i]) <==> PaddedDashes(lines[i]) { IsFenceIff(lines[i]); }
    hide IsFence, PaddedDashes, SplitLines, JoinLines;
    assert NextFence(lines, 1) == close;
    if PaddedDashes(lines[0]) && close < |lines| { BodyKeepsLineNumbers(md); }
  }

  // ------------------------------------------------------------------ every style of writing

  datatype Style = Bare | Single | Double

  function Styled(v: string, style: Style): string {
    match style
    case Bare => v
    case Single => "'" + v + "'"
    case Double => "\"" + v + "\""
  }

  /** Without quotes of its own a value needs no white space around it and no quotes that would be taken off. */
  predicate Writable(v: string, style: Style) {
    style == Bare ==> Trimmed(v) && (v != "" ==> !(v[0] == v[|v| - 1] == '"') && !(v[0] == v[|v| - 1] == '\''))
  }

  /** A line that adds a value to an open field. */
  datatype ValueText = Dash(indent: string, gap: string, v: string, style: Style)
                     | Indented(indent: string, v: string, style: Style)

  function LineOf(x: ValueText): string {
    match x
    case Dash(indent, gap, v, style) => indent + "-" + gap + Styled(v, style)
    case Indented(indent, v, style) => indent + Styled(v, style)
  }

  ghost predicate ReadableValue(x: ValueText) {
    && Blank(x.indent) && Writable(x.v, x.style)
    && match x
       case Dash(_, gap, v, _) => Blank(gap) && gap != [] && OneLine(v)
       case Indented(indent, v, style) => indent != [] && (style == Bare ==>
         v != [] && (v[0] == '-' && |v| > 1 ==> !IsSpace(v[1])) && !exists key, tail :: StartsWith(v, key, tail))
  }

  lemma {:induction false} StyledReadsBack(v: string, style: Style)
    requires Writable(v, style)
    ensures Trimmed(Styled(v, style)) && StripQ(Styled(v, style)) == v && (OneLine(v) ==> OneLine(Styled(v, style)))
  {
    var t := Styled(v, style);
    StripQOf([], t, []);
    assert [] + t + [] == t;
    hide StripQ;
    match style
    case Bare =>
    case Single => InQuotes(t, v, '\'');
    case Double => InQuotes(t, v, '"');
  }

  lemma {:induction false} InQuotes(t: string, v: string, q: char)
    requires t == [q] + v + [q] && (q == '"' || q == '\'')
    ensures |t| >= 2 && t[0] == t[|t| - 1] == q && t[1..|t| - 1] == v && (OneLine(v) ==> OneLine(t))
  {
  }

  lemma {:induction false} ValueReadsBack(x: ValueText)
    requires ReadableValue(x)
    ensures ValueLine(LineOf(x)) == Some(x.v)
  {
    var t := Styled(x.v, x.style);
    StyledReadsBack(x.v, x.style);
    match x
    case Dash(indent, gap, v, style) =>
      assert IsItem(LineOf(x), indent, gap, t);
      MatchItemIff(LineOf(x), t);
    case Indented(indent, v, style) => IndentedReadsBack(indent, v, style);
  }

  lemma {:induction false} IndentedReadsBack(indent: string, v: string, style: Style)
    requires ReadableValue(Indented(indent, v, style))
    ensures ValueLine(indent + Styled(v, style)) == Some(v)
  {
    var t := Styled(v, style);
    StyledReadsBack(v, style);
    if style != Bare { QuoteIsNoKey(t); }
    assert t != [] && !(t[0] == '-' && |t| > 1 && IsSpace(t[1])) && !exists key, tail :: StartsWith(t, key, tail);
    hide Styled, Writable, StripQ, StartsWith;
    IndentedAdds(indent, t);
  }

  lemma {:induction false} IndentedAdds(indent: string, t: string)
    requires Blank(indent) && indent != [] && t != [] && Trimmed(t) && !(t[0] == '-' && |t| > 1 && IsSpace(t[1]))
    requires !exists key, tail :: StartsWith(t, key, tail)
    ensures ValueLine(indent + t) == Some(StripQ(t))
  {
    var line := indent + t;
    assert line + [] == line && indent + t + [] == line && [] + t + [] == t;
    IsContinuationOf(indent, t, []);
    TrimOf(indent, t, []);
    TrimOf([], t, []);
    LTrimOf(indent, t);
    hide IsContinuation, Trim, LTrim, StartsWith, IsSpace;
    assert MatchItem(line) == None;
    assert StripQ(line) == StripQ(t);
  }

  lemma {:induction false} QuoteIsNoKey(t: string)
    requires t != [] && (t[0] == '"' || t[0] == '\'')
    ensures !exists key, tail :: StartsWith(t, key, tail)
  {
    StartsWithKeyIff(t);
  }

  /** A field on one line, a field with value lines, or a line that is none: blank, or a comment. */
  datatype Entry = Scalar(key: string, gap: string, v: string, style: Style)
                 | Block(key: string, gap: string, indicator: string, items: seq<ValueText>)
                 | Aside(line: string)

  predicate IsIndicator(s: string) { s == "" || s == "|" || s == ">" }

  ghost predicate Readable(e: Entry) {
    match e
    case Scalar(key, gap, v, style) =>
      IsField(key + ":" + gap, key, gap, "") && Writable(v, style) && OneLine(v) && (style == Bare ==> !IsIndicator(v))
    case Block(key, gap, indicator, items) =>
      IsField(key + ":" + gap, key, gap, "") && IsIndicator(indicator) && forall x | x in items :: ReadableValue(x)
    case Aside(line) => Blank(line) || line[0] == '#'
  }

  function TextOf(items: seq<ValueText>): seq<string> {
    if items == [] then [] else [LineOf(items[0])] + TextOf(items[1..])
  }

  function ValuesOf(items: seq<ValueText>): seq<string> {
    if items == [] then [] else [items[0].v] + ValuesOf(items[1..])
  }

  function LinesOf(e: Entry): seq<string> {
    match e
    case Scalar(key, gap, v, style) => [key + ":" + gap + Styled(v, style)]
    case Block(key, gap, indicator, items) => [key + ":" + gap + indicator] + TextOf(items)
    case Aside(line) => [line]
  }

  function Written(entries: seq<Entry>): seq<string> {
    if entries == [] then [] else LinesOf(entries[0]) + Written(entries[1..])
  }

  /** What the writer meant. */
  function Meant(entries: seq<Entry>): seq<Field> {
    if entries == [] then []
    else
      var more := Meant(entries[1..]);
      match entries[0]
      case Scalar(key, _, v, _) => [Field(key, [v])] + more
      case Block(key, _, _, items) => [Field(key, if items == [] then [""] else ValuesOf(items))] + more
      case Aside(_) => more
  }

  /** A value line cannot begin an entry. */
  lemma {:induction false} EntryEndsValues(e: Entry, rest: seq<string>)
    requires Readable(e)
    ensures Values(LinesOf(e) + rest) == []
  {
    var line := LinesOf(e)[0];
    assert (LinesOf(e) + rest)[0] == line;
    hide Values, ValueLine, MatchField, StartsWithKey, Styled, OneLine;
    LineEndsValues(line, LinesOf(e) + rest);
    match e
    case Scalar(key, gap, v, style) => KeyedAddsNothing(line, key, gap, Styled(v, style));
    case Block(key, gap, indicator, items) => KeyedAddsNothing(line, key, gap, indicator);
    case Aside(_) => AsideIsNothing(line);
  }

  lemma {:induction false} KeyedAddsNothing(line: string, key: string, gap: string, tail: string)
    requires line == key + ":" + gap + tail && IsField(key + ":" + gap, key, gap, "")
    ensures ValueLine(line) == None
  {
    hide ValueLine, StartsWithKey, Blank;
    assert line == key + ":" + (gap + tail);
    FieldKey(line, key, gap + tail);
    KeyLineAddsNothing(line);
  }

  lemma {:induction false} LineEndsValues(line: string, lines: seq<string>)
    requires lines != [] && lines[0] == line
    ensures ValueLine(line) == None ==> Values(lines) == []
  {
  }

  lemma {:induction false} AsideIsNothing(line: string)
    requires Blank(line) || line[0] == '#'
    ensures MatchField(line) == None && ValueLine(line) == None
  {
    if Blank(line) {
      LTrimOf(line, []);
      assert line + [] == line;
    }
    assert line == [] || !IsKeyChar(line[0]);
  }

  lemma {:induction false} ItemsRead(items: seq<ValueText>, rest: seq<string>)
    requires (forall x | x in items :: ReadableValue(x)) && Values(rest) == []
    ensures Values(TextOf(items) + rest) == ValuesOf(items) && |TextOf(items)| == |ValuesOf(items)| == |items|
  {
    hide ReadableValue, Values, ValueLine, LineOf;
    if items == [] {
      assert TextOf(items) + rest == rest;
    } else {
      var x, more := items[0], items[1..];
      assert x in items && forall y | y in more :: y in items;
      ValueReadsBack(x);
      ItemsRead(more, rest);
      var tail := TextOf(more) + rest;
      ValuesStep(LineOf(x), x.v, tail);
      assert TextOf(items) + rest == [LineOf(x)] + tail;
    }
  }

  lemma {:induction false} EntryReads(e: Entry, rest: seq<string>)
    requires Readable(e) && Values(rest) == []
    ensures Fields(LinesOf(e) + rest) == (
      match e
      case Scalar(key, _, v, _) => [Field(key, [v])] + Fields(rest)
      case Block(key, _, _, items) => [Field(key, if items == [] then [""] else ValuesOf(items))] + Fields(rest)
      case Aside(_) => Fields(rest))
  {
    hide Values, MatchField, StripQ, ReadableValue, TextOf, ValuesOf;
    var lines := LinesOf(e) + rest;
    match e
    case Scalar(key, gap, v, style) =>
      var t := Styled(v, style);
      StyledReadsBack(v, style);
      assert IsField(lines[0], key, gap, t);
      MatchFieldIff(lines[0], key, t);
      assert !OpensBlock(t);
      assert lines[1..] == rest;
    case Block(key, gap, indicator, items) =>
      assert IsField(lines[0], key, gap, indicator);
      MatchFieldIff(lines[0], key, indicator);
      ItemsRead(items, rest);
      assert lines[1..] == TextOf(items) + rest && lines[1 + |items|..] == rest;
    case Aside(line) =>
      AsideIsNothing(line);
      assert lines[1..] == rest;
  }

  /** Fields are read back however they are written: any white space after the colon and before and after a dash, bare
      or in either quotes, as a list or as indented lines, opened by nothing, `|` or `>`, with blank lines and
      comments between them. */
  lemma {:induction false} EveryStyleReadsBack(entries: seq<Entry>)
    requires forall e | e in entries :: Readable(e)
    ensures Fields(Written(entries)) == Meant(entries)
  {
    if entries != [] {
      var e, more := entries[0], entries[1..];
      assert e in entries && forall d | d in more :: d in entries;
      hide Readable, Fields, LinesOf, Values;
      EveryStyleReadsBack(more);
      NothingOpen(more);
      EntryReads(e, Written(more));
    }
  }

  lemma {:induction false} NothingOpen(entries: seq<Entry>)
    requires forall e | e in entries :: Readable(e)
    ensures Values(Written(entries)) == []
  {
    if entries != [] {
      assert entries[0] in entries;
      EntryEndsValues(entries[0], Written(entries[1..]));
    }
  }
}
