/** Note frontmatter: cutting it off a note, and the light parser for its fields. */
module Frontmatter {
  import opened JsText
  import opened Options
  import opened Strings

  // ------------------------------------------------------------------ the line patterns

  predicate IsKeyChar(c: char) {
    'A' <= c <= 'Z' || 'a' <= c <= 'z' || '0' <= c <= '9' || c == '_' || c == '/' || c == '-'
  }

  function KeyLength(s: string): (k: nat)
    ensures k <= |s| && (forall i | 0 <= i < k :: IsKeyChar(s[i])) && (k < |s| ==> !IsKeyChar(s[k]))
  {
    if s == [] || !IsKeyChar(s[0]) then 0 else 1 + KeyLength(s[1..])
  }

  /** `/^([A-Za-z0-9_/-]+):/`. */
  predicate StartsWithKey(s: string) {
    var k := KeyLength(s);
    0 < k < |s| && s[k] == ':'
  }

  /** `/^([A-Za-z0-9_/-]+):\s*(.*)$/`: the key and the rest. */
  function MatchField(line: string): Option<(string, string)> {
    if !StartsWithKey(line) then None
    else
      var k := KeyLength(line);
      var rest := LTrim(line[k + 1..]);
      if OneLine(rest) then Some((line[..k], rest)) else None
  }

  /** `/^\s*-\s+(.*)$/`: the item. */
  function MatchItem(line: string): Option<string> {
    var t := LTrim(line);
    if |t| < 2 || t[0] != '-' || !IsSpace(t[1]) then None
    else
      var rest := LTrim(t[1..]);
      if OneLine(rest) then Some(rest) else None
  }

  /** `/^\s+\S/`, and no key once trimmed. */
  predicate IsContinuation(line: string) {
    line != [] && IsSpace(line[0]) && LTrim(line) != [] && !StartsWithKey(Trim(line))
  }

  predicate Quoted(t: string) {
    t != [] && ((t[0] == '"' && t[|t| - 1] == '"') || (t[0] == '\'' && t[|t| - 1] == '\''))
  }

  function StripQ(s: string): string {
    var t := Trim(s);
    if !Quoted(t) then t else if |t| == 1 then [] else t[1..|t| - 1]
  }

  // ------------------------------------------------------------------ the parser

  datatype Field = Field(key: string, values: seq<string>)

  /** The value a line adds to the open field, if it belongs to it. */
  function ValueLine(line: string): Option<string> {
    match MatchItem(line)
    case Some(item) => Some(StripQ(item))
    case None => if IsContinuation(line) then Some(StripQ(line)) else None
  }

  /** The value lines at the front. */
  function Values(lines: seq<string>): seq<string> {
    if lines == [] || ValueLine(lines[0]) == None then [] else [ValueLine(lines[0]).value] + Values(lines[1..])
  }

  lemma {:induction false} ValuesFit(lines: seq<string>)
    ensures |Values(lines)| <= |lines|
  {
    if lines != [] && ValueLine(lines[0]).Some? { ValuesFit(lines[1..]); }
  }

  predicate OpensBlock(rest: string) { rest == "" || rest == "|" || rest == ">" }

  /** Every line is read once, from the front. */
  function Fields(lines: seq<string>): seq<Field>
    decreases |lines|
  {
    if lines == [] then []
    else
      match MatchField(lines[0])
      case None => Fields(lines[1..])
      case Some((key, rest)) =>
        if OpensBlock(rest) then
          var values := Values(lines[1..]);
          ValuesFit(lines[1..]);
          [Field(key, if values == [] then [""] else values)] + Fields(lines[1 + |values|..])
        else [Field(key, [StripQ(rest)])] + Fields(lines[1..])
  }

  function Parse(fmText: string): seq<Field> { Fields(SplitLines(fmText)) }

  method ParseFrontmatterFields(fmText: string) returns (out: seq<Field>)
    ensures out == Parse(fmText)
  {
    var lines := SplitLines(fmText);
    hide MatchField, StripQ, SplitLines, Values, OpensBlock, Fields;
    out := [];
    var i := 0;
    assert lines[0..] == lines;
    while i < |lines|
      invariant 0 <= i <= |lines| && out + Fields(lines[i..]) == Fields(lines)
    {
      FieldsStep(lines, i);
      var m := MatchField(lines[i]);
      if m == None {
        i := i + 1;
        continue;
      }
      var key, rest := m.value.0, m.value.1;
      if OpensBlock(rest) {
        var values, n := ReadValues(lines, i + 1);
        out := out + [Field(key, if |values| > 0 then values else [""])];
        i := n;
        continue;
      }
      out := out + [Field(key, [StripQ(rest)])];
      i := i + 1;
    }
    FieldsEnd(lines);
  }

  /** What the lines from `i` on contribute. */
  lemma {:induction false} FieldsStep(lines: seq<string>, i: nat)
    requires i < |lines|
    ensures i + 1 + |Values(lines[i + 1..])| <= |lines|
    ensures Fields(lines[i..]) ==
      match MatchField(lines[i])
      case None => Fields(lines[i + 1..])
      case Some((key, rest)) =>
        if OpensBlock(rest) then
          var values := Values(lines[i + 1..]);
          [Field(key, if |values| > 0 then values else [""])] + Fields(lines[i + 1 + |values|..])
        else [Field(key, [StripQ(rest)])] + Fields(lines[i + 1..])
  {
    hide MatchField, StripQ, Values, OpensBlock;
    ValuesFit(lines[i + 1..]);
    assert lines[i..][0] == lines[i] && lines[i..][1..] == lines[i + 1..];
    assert lines[i..][1 + |Values(lines[i + 1..])|..] == lines[i + 1 + |Values(lines[i + 1..])|..];
  }

  lemma {:induction false} FieldsEnd(lines: seq<string>)
    ensures Fields(lines[|lines|..]) == []
  {
  }

  /** The inner loop: value lines from position `start` on. */
  method ReadValues(lines: seq<string>, start: nat) returns (values: seq<string>, i: nat)
    requires start <= |lines|
    ensures values == Values(lines[start..]) && i == start + |values| <= |lines|
  {
    hide MatchItem, IsContinuation, StripQ;
    values, i := [], start;
    while i < |lines|
      invariant start <= i <= |lines| && i == start + |values| && values + Values(lines[i..]) == Values(lines[start..])
    {
      var li := lines[i];
      assert lines[i..][0] == li && lines[i..][1..] == lines[i + 1..];
      var item := MatchItem(li);
      if item.Some? {
        values, i := values + [StripQ(item.value)], i + 1;
        continue;
      }
      if IsContinuation(li) {
        values, i := values + [StripQ(li)], i + 1;
        continue;
      }
      break;
    }
  }

  // ------------------------------------------------------------------ quote stripping

  lemma {:induction false} InnerSlice(s: string, a: nat, b: nat)
    requires a + 2 <= b <= |s|
    ensures s[a..b][1..|s[a..b]| - 1] == s[a + 1..b - 1]
  {
    var t := s[a..b];
    assert forall i | 1 <= i < |t| - 1 :: t[i] == s[a + i];
    assert t[1..|t| - 1] == s[a + 1..b - 1];
  }

  lemma {:induction false} StripQIsSlice(s: string) returns (a: nat, b: nat)
    ensures a <= b <= |s| && StripQ(s) == s[a..b]
  {
    a, b := TrimIsSlice(s);
    var t := Trim(s);
    if Quoted(t) && |t| == 1 {
      b := a;
    } else if Quoted(t) {
      InnerSlice(s, a, b);
      a, b := a + 1, b - 1;
    }
  }

  /** A value that quote stripping keeps is trimmed. */
  lemma {:induction false} KeptIsTrimmed(v: string)
    requires StripQ(v) == v
    ensures Trimmed(v)
  {
    var a, b := TrimIsSlice(v);
  }

  function Quote(v: string): string { ['"'] + v + ['"'] }

  lemma {:induction false} StripQuoted(v: string)
    ensures StripQ(Quote(v)) == v && Trimmed(Quote(v))
  {
    TrimTrimmed(Quote(v));
  }

  // ------------------------------------------------------------------ the printer

  /** Can stand after `key: ` or `- ` as it is. */
  predicate PlainValue(v: string) { OneLine(v) && StripQ(v) == v }

  function PrintScalar(v: string): string { if StripQ(v) == v then v else Quote(v) }

  /** A list item, or an indented quoted line where `.` would stop early. */
  function PrintItem(v: string): string {
    if OneLine(v) then "- " + PrintScalar(v) else "  " + Quote(v)
  }

  function PrintItems(values: seq<string>): seq<string> {
    if values == [] then [] else [PrintItem(values[0])] + PrintItems(values[1..])
  }

  function PrintField(f: Field): seq<string> {
    if |f.values| == 1 && PlainValue(f.values[0]) && !OpensBlock(f.values[0]) then [f.key + ": " + f.values[0]]
    else [f.key + ":"] + PrintItems(f.values)
  }

  function PrintFields(fields: seq<Field>): seq<string> {
    if fields == [] then [] else PrintField(fields[0]) + PrintFields(fields[1..])
  }

  /** The field lists that can be written down: a key, at least one value, no newline inside a value. */
  predicate Legal(f: Field) {
    && f.key != [] && (forall i | 0 <= i < |f.key| :: IsKeyChar(f.key[i]))
    && f.values != [] && forall v | v in f.values :: '\n' !in v
  }

  lemma {:induction false} KeyOf(key: string, tail: string)
    requires key != [] && forall i | 0 <= i < |key| :: IsKeyChar(key[i])
    ensures var line := key + ":" + tail;
      KeyLength(line) == |key| && StartsWithKey(line) && line[..|key|] == key && line[|key| + 1..] == tail
  {
    var line := key + ":" + tail;
    var k := KeyLength(line);
    assert line[|key|] == ':';
    assert forall i | 0 <= i < |key| :: line[i] == key[i];
  }

  lemma {:induction false} MatchPrintedKey(key: string)
    requires key != [] && forall i | 0 <= i < |key| :: IsKeyChar(key[i])
    ensures MatchField(key + ":") == Some((key, ""))
  {
    KeyOf(key, "");
    assert key + ":" + "" == key + ":";
  }

  lemma {:induction false} MatchPrintedScalar(key: string, v: string)
    requires key != [] && (forall i | 0 <= i < |key| :: IsKeyChar(key[i])) && PlainValue(v)
    ensures MatchField(key + ": " + v) == Some((key, v))
  {
    KeyOf(key, " " + v);
    KeptIsTrimmed(v);
    assert (" " + v)[1..] == v;
    assert key + ":" + (" " + v) == key + ": " + v;
    TrimTrimmed(v);
  }

  /** A printed value line is read back as the value. */
  lemma {:induction false} ItemReadsBack(v: string)
    ensures ValueLine(PrintItem(v)) == Some(v)
  {
    if OneLine(v) { DashReadsBack(v); } else { QuotedReadsBack(v); }
  }

  lemma {:induction false} DashReadsBack(v: string)
    requires OneLine(v)
    ensures ValueLine("- " + PrintScalar(v)) == Some(v)
  {
    var q := PrintScalar(v);
    StripQuoted(v);
    if StripQ(v) == v { KeptIsTrimmed(v); }
    assert Trimmed(q) && OneLine(q) && StripQ(q) == v;
    TrimTrimmed(q);
    hide StripQ, OneLine, Trimmed, PrintScalar;
    var line := "- " + q;
    assert LTrim(line) == line && line[1..] == " " + q && (" " + q)[1..] == q;
    assert LTrim(" " + q) == q;
  }

  lemma {:induction false} QuotedReadsBack(v: string)
    ensures ValueLine("  " + Quote(v)) == Some(v)
  {
    StripQuoted(v);
    IndentedQuote(v);
    var line := "  " + Quote(v);
    assert KeyLength(Quote(v)) == 0;
    TrimTrimmed(Quote(v));
  }

  lemma {:induction false} IndentedQuote(v: string)
    ensures LTrim("  " + Quote(v)) == Quote(v) && Trim("  " + Quote(v)) == Quote(v)
  {
    var line := "  " + Quote(v);
    assert line[1..] == " " + Quote(v) && (" " + Quote(v))[1..] == Quote(v);
    assert LTrim(Quote(v)) == Quote(v);
    assert LTrim(" " + Quote(v)) == Quote(v);
    assert RTrim(Quote(v)) == Quote(v);
  }

  /** A line that begins with a key character adds no value. */
  lemma {:induction false} KeyLineAddsNothing(line: string)
    requires StartsWithKey(line)
    ensures ValueLine(line) == None
  {
    assert IsKeyChar(line[0]) && !IsSpace(line[0]);
    assert |line| >= 2 && (IsKeyChar(line[1]) || line[1] == ':');
  }

  lemma {:induction false} ValuesStop(rest: seq<string>)
    requires rest == [] || StartsWithKey(rest[0])
    ensures Values(rest) == []
  {
    if rest != [] { KeyLineAddsNothing(rest[0]); }
  }

  lemma {:induction false} ValuesStep(line: string, v: string, rest: seq<string>)
    requires ValueLine(line) == Some(v)
    ensures Values([line] + rest) == [v] + Values(rest)
  {
    hide ValueLine;
    assert ([line] + rest)[0] == line && ([line] + rest)[1..] == rest;
  }

  lemma {:induction false} ItemsReadBack(values: seq<string>, rest: seq<string>)
    requires rest == [] || StartsWithKey(rest[0])
    ensures Values(PrintItems(values) + rest) == values
  {
    hide Values, ValueLine, PrintItem, StartsWithKey;
    if values == [] {
      assert PrintItems(values) + rest == rest;
      ValuesStop(rest);
    } else {
      ItemReadsBack(values[0]);
      ItemsReadBack(values[1..], rest);
      ValuesStep(PrintItem(values[0]), values[0], PrintItems(values[1..]) + rest);
      assert PrintItems(values) + rest == [PrintItem(values[0])] + (PrintItems(values[1..]) + rest);
    }
  }

  lemma {:induction false} ItemsLength(values: seq<string>)
    ensures |PrintItems(values)| == |values|
  {
    if values != [] { ItemsLength(values[1..]); }
  }

  lemma {:induction false} PrintedStartsWithKey(fields: seq<Field>)
    requires forall f | f in fields :: Legal(f)
    ensures PrintFields(fields) == [] || StartsWithKey(PrintFields(fields)[0])
  {
    if fields != [] {
      var f := fields[0];
      assert f in fields;
      KeyOf(f.key, "");
      KeyOf(f.key, " " + f.values[0]);
      assert f.key + ":" + "" == f.key + ":" && f.key + ":" + (" " + f.values[0]) == f.key + ": " + f.values[0];
    }
  }

  /** The parser inverts the printer. */
  lemma {:induction false} FieldsReadBack(fields: seq<Field>)
    requires forall f | f in fields :: Legal(f)
    ensures Fields(PrintFields(fields)) == fields
  {
    if fields != [] {
      var f, more := fields[0], fields[1..];
      assert f in fields;
      assert forall g | g in more :: g in fields;
      FieldsReadBack(more);
      PrintedStartsWithKey(more);
      FieldReadsBack(f, PrintFields(more));
      assert fields == [f] + more;
    }
  }

  lemma {:induction false} PlainKeeps(v: string)
    requires PlainValue(v)
    ensures StripQ(v) == v
  {
  }

  lemma {:induction false} FieldReadsBack(f: Field, rest: seq<string>)
    requires Legal(f) && (rest == [] || StartsWithKey(rest[0]))
    ensures Fields(PrintField(f) + rest) == [f] + Fields(rest)
  {
    hide MatchField, PlainValue, PrintItems, StripQ, Values, StartsWithKey;
    var lines := PrintField(f) + rest;
    if |f.values| == 1 && PlainValue(f.values[0]) && !OpensBlock(f.values[0]) {
      MatchPrintedScalar(f.key, f.values[0]);
      assert lines[0] == f.key + ": " + f.values[0] && lines[1..] == rest;
      assert f.values == [f.values[0]];
      PlainKeeps(f.values[0]);
    } else {
      MatchPrintedKey(f.key);
      ItemsReadBack(f.values, rest);
      ItemsLength(f.values);
      assert lines[0] == f.key + ":" && lines[1..] == PrintItems(f.values) + rest;
      assert lines[1 + |f.values|..] == rest;
    }
  }

  // ------------------------------------------------------------------ what the parser can produce

  predicate NoNewlines(lines: seq<string>) { forall l | l in lines :: '\n' !in l }

  lemma {:induction false} ValueLineIsSlice(line: string) returns (a: nat, b: nat)
    requires ValueLine(line).Some?
    ensures a <= b <= |line| && ValueLine(line).value == line[a..b]
  {
    if MatchItem(line).Some? {
      var k := LTrimIsSuffix(line);
      var t := LTrim(line);
      var n := LTrimIsSuffix(t[1..]);
      a, b := StripQIsSlice(MatchItem(line).value);
      a, b := a + k + 1 + n, b + k + 1 + n;
    } else {
      a, b := StripQIsSlice(line);
    }
  }

  lemma {:induction false} ValuesHaveNoNewlines(lines: seq<string>)
    requires NoNewlines(lines)
    ensures NoNewlines(Values(lines))
  {
    if lines != [] && ValueLine(lines[0]).Some? {
      var a, b := ValueLineIsSlice(lines[0]);
      assert lines[0] in lines;
      ValuesHaveNoNewlines(lines[1..]);
    }
  }

  lemma {:induction false} MatchFieldParts(line: string) returns (k: nat)
    requires MatchField(line).Some?
    ensures k <= |line| && MatchField(line).value.1 == line[k..]
    ensures MatchField(line).value.0 != [] && forall i | 0 <= i < |MatchField(line).value.0| ::
        IsKeyChar(MatchField(line).value.0[i])
  {
    var n := KeyLength(line);
    k := LTrimIsSuffix(line[n + 1..]);
    k := k + n + 1;
  }

  lemma {:induction false} OutputsAreLegal(lines: seq<string>)
    requires NoNewlines(lines)
    ensures forall f | f in Fields(lines) :: Legal(f)
    decreases |lines|
  {
    if lines != [] {
      assert lines[0] in lines;
      OutputsAreLegal(lines[1..]);
      if MatchField(lines[0]).Some? {
        var k := MatchFieldParts(lines[0]);
        var a, b := StripQIsSlice(MatchField(lines[0]).value.1);
        ValuesFit(lines[1..]);
        ValuesHaveNoNewlines(lines[1..]);
        OutputsAreLegal(lines[1 + |Values(lines[1..])|..]);
      }
    }
  }

  lemma {:induction false} PrintedHasNoNewlines(fields: seq<Field>)
    requires forall f | f in fields :: Legal(f)
    ensures NoNewlines(PrintFields(fields))
  {
    if fields != [] {
      var f := fields[0];
      assert f in fields && forall g | g in fields[1..] :: g in fields;
      PrintedHasNoNewlines(fields[1..]);
      ItemsHaveNoNewlines(f.values);
      assert '\n' !in f.key && f.values[0] in f.values;
    }
  }

  lemma {:induction false} ItemsHaveNoNewlines(values: seq<string>)
    requires NoNewlines(values)
    ensures NoNewlines(PrintItems(values))
  {
    if values != [] {
      assert values[0] in values;
      ItemsHaveNoNewlines(values[1..]);
    }
  }

  /** Every legal field list survives printing and parsing. */
  lemma {:induction false} ParseInvertsPrint(fields: seq<Field>)
    requires forall f | f in fields :: Legal(f)
    ensures Parse(JoinLines(PrintFields(fields))) == fields
  {
    FieldsReadBack(fields);
    PrintedHasNoNewlines(fields);
    var lines := PrintFields(fields);
    if lines != [] {
      SplitInvertsJoin(lines);
    } else {
      assert fields == [];
      assert SplitLines("") == [""] && MatchField("") == None && Fields([]) == [];
    }
  }

  /** The legal field lists are exactly what the parser can return. */
  lemma {:induction false} ParserImage(fields: seq<Field>)
    ensures (exists text :: Parse(text) == fields) <==> (forall f | f in fields :: Legal(f))
  {
    if text :| Parse(text) == fields {
      forall l | l in SplitLines(text) ensures '\n' !in l { SplitHasNoNewlines(text, l); }
      OutputsAreLegal(SplitLines(text));
    } else if forall f | f in fields :: Legal(f) {
      ParseInvertsPrint(fields);
    }
  }

  // ------------------------------------------------------------------ cutting frontmatter off a note

  predicate IsFence(line: string) { Trim(line) == "---" }

  /** First fence at or after line `j`. */
  function NextFence(lines: seq<string>, j: nat): (k: nat)
    requires j <= |lines|
    ensures j <= k <= |lines| && (k < |lines| ==> IsFence(lines[k])) && forall i | j <= i < k :: !IsFence(lines[i])
    decreases |lines| - j
  {
    if j == |lines| || IsFence(lines[j]) then j else NextFence(lines, j + 1)
  }

  function Blanked(lines: seq<string>, close: nat): seq<string> {
    seq(|lines|, i requires 0 <= i < |lines| => if i <= close then "" else lines[i])
  }

  /** Frontmatter text, if any, and the body with the frontmatter lines blanked. */
  datatype Note = Note(fmText: Option<string>, body: string)

  function Split(md: string): Note {
    var lines := SplitLines(md);
    if !IsFence(lines[0]) then Note(None, md)
    else
      var close := NextFence(lines, 1);
      if close == |lines| then Note(None, md)
      else Note(Some(JoinLines(lines[1..close])), JoinLines(Blanked(lines, close)))
  }

  method SplitFrontmatter(md: string) returns (r: Note)
    ensures r == Split(md)
  {
    var lines := SplitLines(md);
    if !IsFence(lines[0]) { return Note(None, md); }
    var j := 1;
    while j < |lines|
      invariant 1 <= j <= |lines| && NextFence(lines, 1) == NextFence(lines, j)
    {
      if IsFence(lines[j]) { return Note(Some(JoinLines(lines[1..j])), JoinLines(Blanked(lines, j))); }
      j := j + 1;
    }
    return Note(None, md);
  }

  /** Line numbers survive: the body has the note's lines, blank up to the closing fence and unchanged after it. */
  lemma {:induction false} BodyKeepsLineNumbers(md: string)
    requires Split(md).fmText.Some?
    ensures var lines, body := SplitLines(md), SplitLines(Split(md).body);
      && |body| == |lines|
      && forall i | 0 <= i < |lines| :: body[i] == if i <= NextFence(lines, 1) then "" else lines[i]
  {
    var lines := SplitLines(md);
    var blanked := Blanked(lines, NextFence(lines, 1));
    forall l | l in blanked ensures '\n' !in l {
      if l != "" { assert l in lines; SplitHasNoNewlines(md, l); }
    }
    SplitInvertsJoin(blanked);
  }

  lemma {:induction false} RTrimDropsSpace(s: string)
    ensures |RTrim(s)| <= |s| && RTrim(s) == s[..|RTrim(s)|] && (|RTrim(s)| < |s| ==> IsSpace(s[|RTrim(s)|]))
  {
    if s != [] && IsSpace(s[|s| - 1]) {
      RTrimDropsSpace(s[..|s| - 1]);
      var k := |RTrim(s)|;
      assert s[..|s| - 1][..k] == s[..k];
    }
  }

  lemma {:induction false} KeyLineIsNoFence(line: string)
    requires StartsWithKey(line)
    ensures !IsFence(line)
  {
    assert IsKeyChar(line[0]) && LTrim(line) == line;
    RTrimDropsSpace(line);
    var k := KeyLength(line);
    assert forall i | 0 <= i < k :: IsKeyChar(line[i]);
  }

  lemma {:induction false} DashIsNoFence(v: string)
    ensures !IsFence("- " + v)
  {
    var line := "- " + v;
    assert line[0] == '-' && line[1] == ' ' && LTrim(line) == line;
    RTrimDropsSpace(line);
  }

  lemma {:induction false} ItemIsNoFence(v: string)
    ensures !IsFence(PrintItem(v))
  {
    if OneLine(v) {
      DashIsNoFence(PrintScalar(v));
    } else {
      IndentedQuote(v);
      assert Quote(v)[0] == '"' && "---"[0] == '-';
    }
  }

  lemma {:induction false} PrintedHasNoFence(fields: seq<Field>)
    requires forall f | f in fields :: Legal(f)
    ensures forall l | l in PrintFields(fields) :: !IsFence(l)
  {
    if fields != [] {
      var f := fields[0];
      assert f in fields && forall g | g in fields[1..] :: g in fields;
      PrintedHasNoFence(fields[1..]);
      ItemsHaveNoFence(f.values);
      KeyOf(f.key, "");
      KeyOf(f.key, " " + f.values[0]);
      assert f.key + ":" + "" == f.key + ":" && f.key + ":" + (" " + f.values[0]) == f.key + ": " + f.values[0];
      KeyLineIsNoFence(f.key + ":");
      KeyLineIsNoFence(f.key + ": " + f.values[0]);
    }
  }

  lemma {:induction false} ItemsHaveNoFence(values: seq<string>)
    ensures forall l | l in PrintItems(values) :: !IsFence(l)
  {
    if values != [] {
      ItemIsNoFence(values[0]);
      ItemsHaveNoFence(values[1..]);
    }
  }

  /** A note written as fences around printed fields, and a body. */
  function Document(fields: seq<Field>, body: seq<string>): seq<string> {
    ["---"] + PrintFields(fields) + ["---"] + body
  }

  /** Splitting and parsing a whole note gives back its fields, and its body at the same lines. */
  lemma {:induction false} NoteReadsBack(fields: seq<Field>, body: seq<string>)
    requires (forall f | f in fields :: Legal(f)) && NoNewlines(body)
    ensures var lines, note := Document(fields, body), Split(JoinLines(Document(fields, body)));
      && note.fmText.Some? && Parse(note.fmText.value) == fields
      && |SplitLines(note.body)| == |lines|
      && forall i | 0 <= i < |lines| ::
           SplitLines(note.body)[i] == if i <= |PrintFields(fields)| + 1 then "" else lines[i]
  {
    PrintedHasNoNewlines(fields);
    PrintedHasNoFence(fields);
    hide PrintFields, Fields, SplitLines, JoinLines, IsFence, NextFence, Legal, Parse;
    FencedSplits(PrintFields(fields), body);
    ParseInvertsPrint(fields);
    BodyKeepsLineNumbers(JoinLines(Document(fields, body)));
  }

  lemma {:induction false} FencedSplits(inner: seq<string>, body: seq<string>)
    requires NoNewlines(inner) && NoNewlines(body) && forall l | l in inner :: !IsFence(l)
    ensures var lines := ["---"] + inner + ["---"] + body;
      SplitLines(JoinLines(lines)) == lines && NextFence(lines, 1) == |inner| + 1
          && Split(JoinLines(lines)).fmText == Some(JoinLines(inner))
  {
    var lines := ["---"] + inner + ["---"] + body;
    TrimTrimmed("---");
    hide Trim, JoinLines, SplitLines;
    SplitInvertsJoin(lines);
    var close := |inner| + 1;
    assert lines[0] == "---" && lines[close] == "---";
    forall i | 1 <= i < close ensures !IsFence(lines[i]) { assert lines[i] == inner[i - 1]; }
    assert lines[1..close] == inner;
  }
}
