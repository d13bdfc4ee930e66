/** Finding the first balanced JSON object in a model's reply. */
module ExtractObj {
  import opened Options
  import opened PythonText
  import opened Strings

  // ------------------------------------------------------------------ stripping

  function LStrip(s: string, drop: char -> bool): string {
    if s != [] && drop(s[0]) then LStrip(s[1..], drop) else s
  }

  function RStrip(s: string, drop: char -> bool): string {
    if s != [] && drop(s[|s| - 1]) then RStrip(s[..|s| - 1], drop) else s
  }

  function Strip(s: string): string { RStrip(LStrip(s, IsSpace), IsSpace) }

  /** Cut off one kind of code fence, if the text starts with it. */
  function CutFence(t: string, fence: string): string {
    if fence <= t then Strip(RStrip(LStrip(t[|fence|..], c => c == '\n'), c => c == '`')) else t
  }

  function Clean(text: string): string { CutFence(CutFence(Strip(text), "```json"), "```") }

  // ------------------------------------------------------------------ the automaton

  datatype Scan = Scan(depth: int, inStr: bool, esc: bool)

  function Step(s: Scan, c: char): Scan {
    if s.inStr then
      if s.esc then s.(esc := false)
      else if c == '\\' then s.(esc := true)
      else if c == '"' then s.(inStr := false)
      else s
    else if c == '"' then s.(inStr := true)
    else if c == '{' then s.(depth := s.depth + 1)
    else if c == '}' then s.(depth := s.depth - 1)
    else s
  }

  function Run(s: Scan, text: string): Scan {
    if text == [] then s else Step(Run(s, text[..|text| - 1]), text[|text| - 1])
  }

  lemma {:induction false} RunStep(text: string, k: nat)
    requires k < |text|
    ensures Run(START, text[..k + 1]) == Step(Run(START, text[..k]), text[k])
  {
    assert text[..k + 1][..k] == text[..k];
  }

  const START := Scan(0, false, false)

  /** Braces opened and not closed outside strings, reading `text` from its start. */
  function Depth(text: string): int { Run(START, text).depth }

  /** `obj` is the shortest nonempty prefix of `rest` at which the depth is back to 0. */
  ghost predicate FirstBalanced(rest: string, obj: string) {
    && obj != [] && obj <= rest && Depth(obj) == 0
    && forall k | 0 < k < |obj| :: Depth(rest[..k]) != 0
  }

  /** `str.find` of one character. */
  function Find(t: string, c: char): (i: int)
    ensures i == -1 <==> c !in t
    ensures i != -1 ==> 0 <= i < |t| && t[i] == c && c !in t[..i]
  {
    var k := IndexOf(t, c);
    assert t[..|t|] == t;
    if k == |t| then -1 else k
  }

  /** The answer is found in the cleaned reply. */
  ghost predicate IsResult(text: string, r: Option<string>) { IsFoundIn(Clean(text), r) }

  /** The shortest text from the first `{` that closes it, or none if none does. */
  ghost predicate IsFoundIn(t: string, r: Option<string>) {
    var i := Find(t, '{');
    match r
    case Some(obj) => i >= 0 && FirstBalanced(t[i..], obj)
    case None => i < 0 || NeverBalanced(t[i..])
  }

  ghost predicate NeverBalanced(rest: string) { forall k | 0 < k <= |rest| :: Depth(rest[..k]) != 0 }

  /** The depth has not been back to 0 in the first `n` characters. */
  ghost predicate OpenUpTo(rest: string, n: nat)
    requires n <= |rest|
  {
    forall k | 0 < k <= n :: Depth(rest[..k]) != 0
  }

  lemma {:induction false} StillOpen(rest: string, n: nat)
    requires n < |rest| && OpenUpTo(rest, n)
    ensures Depth(rest[..n + 1]) != 0 ==> OpenUpTo(rest, n + 1)
    ensures Depth(rest[..n + 1]) == 0 ==> FirstBalanced(rest, rest[..n + 1])
  {
    forall k | 0 < k <= n ensures rest[..n + 1][..k] == rest[..k] {}
  }

  lemma {:induction false} SliceOfTail(t: string, i: nat, j: nat)
    requires i <= j <= |t|
    ensures t[i..j] == t[i..][..j - i]
  {
  }

  lemma {:induction false} NeverClosed(rest: string)
    requires OpenUpTo(rest, |rest|)
    ensures NeverBalanced(rest)
  {
  }

  method Extract(text: string) returns (r: Option<string>)
    ensures IsResult(text, r)
  {
    hide Strip, CutFence, Find;
    var t := Strip(text);
    t := CutFence(t, "```json");
    t := CutFence(t, "```");
    var i := Find(t, '{');
    if i < 0 { return None; }
    ghost var rest := t[i..];
    assert t == Clean(text) && Run(START, rest[..0]) == START && OpenUpTo(rest, 0);
    hide Clean, Run, FirstBalanced, NeverBalanced, OpenUpTo;
    var depth, inStr, esc := 0, false, false;
    var j := i;
    while j < |t|
      invariant i <= j <= |t| && OpenUpTo(rest, j - i)
      invariant Scan(depth, inStr, esc) == Run(START, rest[..j - i])
      invariant if j == i then depth == 0 && !inStr else depth >= 1
    {
      var c := t[j];
      RunStep(rest, j - i);
      StillOpen(rest, j - i);
      ghost var next := Step(Scan(depth, inStr, esc), c);
      assert Depth(rest[..j + 1 - i]) == next.depth;
      if inStr {
        if esc { esc := false; }
        else if c == '\\' { esc := true; }
        else if c == '"' { inStr := false; }
      } else if c == '"' {
        inStr := true;
      } else if c == '{' {
        depth := depth + 1;
      } else if c == '}' {
        depth := depth - 1;
        if depth == 0 {
          SliceOfTail(t, i, j + 1);
          return Some(t[i..j + 1]);
        }
      }
      assert Scan(depth, inStr, esc) == next;
      j := j + 1;
    }
    NeverClosed(rest);
    return None;
  }

  // ------------------------------------------------------------------ JSON texts

  /** One character inside a JSON string: itself, or a backslash and the character it escapes.
      `\uXXXX` is an escaped `u` and four plain characters. */
  datatype StrChar = Plain(c: char) | Escaped(c: char)

  /** JSON texts with every choice of white space, as in sections 2 to 7 of RFC 8259.
      `Scalar` is a number, `true`, `false` or `null`. */
  datatype Value =
    | Scalar(text: string)
    | Str(chars: seq<StrChar>)
    | Array(ws: string, elems: Elems)
    | Object(ws: string, members: Members)

  datatype Elems = NoElems | Elem(before: string, value: Value, after: string, more: Elems)

  datatype Members =
    | NoMembers
    | Member(before: string, name: seq<StrChar>, colonBefore: string, colonAfter: string, value: Value, after: string,
        more: Members)

  predicate IsJsonSpace(s: string) { forall c | c in s :: c in " \t\n\r" }

  predicate IsScalar(s: string) {
    s in ["true", "false", "null"] || (s != [] && forall c | c in s :: c in "0123456789+-.eE")
  }

  predicate IsStringChars(chars: seq<StrChar>) {
    forall k | 0 <= k < |chars| && chars[k].Plain? :: chars[k].c != '"' && chars[k].c != '\\'
  }

  predicate WellFormed(v: Value) {
    match v
    case Scalar(text) => IsScalar(text)
    case Str(chars) => IsStringChars(chars)
    case Array(ws, elems) => IsJsonSpace(ws) && WellFormedElems(elems)
    case Object(ws, members) => IsJsonSpace(ws) && WellFormedMembers(members)
  }

  predicate WellFormedElems(e: Elems) {
    match e
    case NoElems => true
    case Elem(b, v, a, more) => IsJsonSpace(b) && WellFormed(v) && IsJsonSpace(a) && WellFormedElems(more)
  }

  predicate WellFormedMembers(m: Members) {
    match m
    case NoMembers => true
    case Member(b, name, cb, ca, v, a, more) =>
      IsJsonSpace(b) && IsStringChars(name) && IsJsonSpace(cb) && IsJsonSpace(ca) && WellFormed(v) && IsJsonSpace(a)
          && WellFormedMembers(more)
  }

  function RenderChars(chars: seq<StrChar>): string {
    if chars == [] then []
    else
      var last := chars[|chars| - 1];
      RenderChars(chars[..|chars| - 1]) + (match last case Plain(c) => [c] case Escaped(c) => ['\\', c])
  }

  function RenderStr(chars: seq<StrChar>): string { "\"" + RenderChars(chars) + "\"" }

  function Render(v: Value): string {
    match v
    case Scalar(text) => text
    case Str(chars) => RenderStr(chars)
    case Array(ws, elems) => "[" + (if elems.NoElems? then ws else RenderElems(elems)) + "]"
    case Object(ws, members) => "{" + (if members.NoMembers? then ws else RenderMembers(members)) + "}"
  }

  function RenderElems(e: Elems): string {
    match e
    case NoElems => []
    case Elem(b, v, a, more) => b + Render(v) + a + (if more.NoElems? then [] else "," + RenderElems(more))
  }

  function RenderMembers(m: Members): string {
    match m
    case NoMembers => []
    case Member(b, name, cb, ca, v, a, more) =>
      b + RenderStr(name) + cb + ":" + ca + Render(v) + a + (if more.NoMembers? then [] else "," + RenderMembers(more))
  }

  // ------------------------------------------------------------------ balance of JSON texts

  function Level(d: int): Scan { Scan(d, false, false) }

  /** From outside strings at any depth, `text` never dips below that depth and ends at it, outside strings. */
  ghost predicate Neutral(text: string) {
    forall d :: KeepsLevel(text, d)
  }

  ghost predicate KeepsLevel(text: string, d: int) {
    Run(Level(d), text) == Level(d) && forall k | 0 <= k <= |text| :: Run(Level(d), text[..k]).depth >= d
  }

  lemma {:induction false} RunConcat(s: Scan, a: string, b: string)
    ensures Run(s, a + b) == Run(Run(s, a), b)
  {
    if b == [] {
      assert a + b == a;
    } else {
      RunConcat(s, a, b[..|b| - 1]);
      assert (a + b)[..|a + b| - 1] == a + b[..|b| - 1];
    }
  }

  lemma {:induction false} NeutralConcat(a: string, b: string)
    requires Neutral(a) && Neutral(b)
    ensures Neutral(a + b)
  {
    forall d ensures KeepsLevel(a + b, d) {
      assert KeepsLevel(a, d) && KeepsLevel(b, d);
      RunConcat(Level(d), a, b);
      forall k | 0 <= k <= |a + b| ensures Run(Level(d), (a + b)[..k]).depth >= d {
        if k <= |a| {
          assert (a + b)[..k] == a[..k];
        } else {
          assert (a + b)[..k] == a + b[..k - |a|];
          RunConcat(Level(d), a, b[..k - |a|]);
        }
      }
    }
  }

  predicate Inert(text: string) { forall c | c in text :: c != '"' && c != '{' && c != '}' }

  lemma {:induction false} InertIsNeutral(text: string)
    requires Inert(text)
    ensures Neutral(text)
  {
    if text == [] {
    } else {
      var init, c := text[..|text| - 1], text[|text| - 1];
      assert c in text && forall x | x in init :: x in text;
      InertIsNeutral(init);
      forall d ensures KeepsLevel(text, d) {
        assert KeepsLevel(init, d);
        assert forall k | 0 <= k < |text| :: text[..k] == init[..k];
        assert text[..|text|] == text;
      }
    }
  }

  lemma {:induction false} CharsStayInString(chars: seq<StrChar>, d: int)
    requires IsStringChars(chars)
    ensures Run(Scan(d, true, false), RenderChars(chars)) == Scan(d, true, false)
    ensures forall k | 0 <= k <= |RenderChars(chars)| :: Run(Scan(d, true, false), RenderChars(chars)[..k]).depth == d
  {
    if chars != [] {
      var init, last := chars[..|chars| - 1], chars[|chars| - 1];
      CharsStayInString(init, d);
      var a := RenderChars(init);
      var b := match last case Plain(c) => [c] case Escaped(c) => ['\\', c];
      var text := RenderChars(chars);
      RunConcat(Scan(d, true, false), a, b);
      assert text == a + b && b[..1] == [b[0]];
      RunConcat(Scan(d, true, false), a, b[..1]);
      forall k | 0 <= k <= |text| ensures Run(Scan(d, true, false), text[..k]).depth == d {
        if k <= |a| { assert text[..k] == a[..k]; }
        else if k == |a| + 1 { assert text[..k] == a + b[..1]; }
        else { assert text[..k] == text; }
      }
    }
  }

  lemma {:induction false} StrIsNeutral(chars: seq<StrChar>)
    requires IsStringChars(chars)
    ensures Neutral(RenderStr(chars))
  {
    forall d ensures KeepsLevel(RenderStr(chars), d) {
      var body, text := RenderChars(chars), RenderStr(chars);
      CharsStayInString(chars, d);
      assert Run(Level(d), "\"") == Scan(d, true, false) by { assert "\""[..0] == []; }
      assert text == "\"" + body + "\"" && text[..|text| - 1] == "\"" + body;
      RunConcat(Level(d), "\"", body);
      forall k | 0 <= k <= |text| ensures Run(Level(d), text[..k]).depth >= d {
        if 0 < k <= |body| + 1 {
          assert text[..k] == "\"" + body[..k - 1];
          RunConcat(Level(d), "\"", body[..k - 1]);
        } else if k == |text| {
          assert text[..k] == text;
        }
      }
    }
  }

  /** A neutral text in braces stays strictly above the level between them. */
  lemma {:induction false} BracesAround(body: string, d: int)
    requires Neutral(body)
    ensures var text := "{" + body + "}";
      KeepsLevel(text, d) && forall k | 0 < k < |text| :: Run(Level(d), text[..k]).depth > d
  {
    var text := "{" + body + "}";
    assert KeepsLevel(body, d + 1);
    assert Run(Level(d), "{") == Level(d + 1) by { assert "{"[..0] == []; }
    assert text[..|text| - 1] == "{" + body;
    RunConcat(Level(d), "{", body);
    forall k | 0 < k < |text| ensures Run(Level(d), text[..k]).depth > d {
      assert text[..k] == "{" + body[..k - 1];
      RunConcat(Level(d), "{", body[..k - 1]);
    }
    assert text[..|text|] == text && text[..0] == [];
  }

  lemma {:induction false} BracesNeutral(body: string)
    requires Neutral(body)
    ensures Neutral("{" + body + "}")
  {
    forall d ensures KeepsLevel("{" + body + "}", d) { BracesAround(body, d); }
  }

  lemma {:induction false} SpaceIsInert(s: string)
    requires IsJsonSpace(s) || IsScalar(s)
    ensures Inert(s)
  {
  }

  lemma {:induction false} RenderIsNeutral(v: Value)
    requires WellFormed(v)
    ensures Neutral(Render(v))
  {
    match v
    case Scalar(text) =>
      SpaceIsInert(text);
      InertIsNeutral(text);
    case Str(chars) =>
      StrIsNeutral(chars);
    case Array(ws, elems) =>
      var body := if elems.NoElems? then ws else RenderElems(elems);
      if elems.NoElems? { SpaceIsInert(ws); InertIsNeutral(ws); } else { ElemsAreNeutral(elems); }
      InertIsNeutral("[");
      InertIsNeutral("]");
      NeutralConcat("[", body);
      NeutralConcat("[" + body, "]");
    case Object(ws, members) =>
      ObjectBodyIsNeutral(ws, members);
      BracesNeutral(ObjectBody(ws, members));
  }

  function ObjectBody(ws: string, members: Members): string {
    if members.NoMembers? then ws else RenderMembers(members)
  }

  lemma {:induction false} ObjectBodyIsNeutral(ws: string, members: Members)
    requires IsJsonSpace(ws) && WellFormedMembers(members)
    ensures Neutral(ObjectBody(ws, members))
    decreases members, 1
  {
    if members.NoMembers? { SpaceIsInert(ws); InertIsNeutral(ws); } else { MembersAreNeutral(members); }
  }

  lemma {:induction false} ElemsAreNeutral(e: Elems)
    requires WellFormedElems(e)
    ensures Neutral(RenderElems(e))
  {
    match e
    case NoElems => InertIsNeutral([]);
    case Elem(b, v, a, more) =>
      SpaceIsInert(b); SpaceIsInert(a);
      InertIsNeutral(b); InertIsNeutral(a); InertIsNeutral(","); InertIsNeutral([]);
      RenderIsNeutral(v);
      ElemsAreNeutral(more);
      NeutralConcat(b, Render(v));
      NeutralConcat(b + Render(v), a);
      NeutralConcat(",", RenderElems(more));
      NeutralConcat(b + Render(v) + a, if more.NoElems? then [] else "," + RenderElems(more));
  }

  lemma {:induction false} MembersAreNeutral(m: Members)
    requires WellFormedMembers(m)
    ensures Neutral(RenderMembers(m))
    decreases m, 0
  {
    match m
    case NoMembers => InertIsNeutral([]);
    case Member(b, name, cb, ca, v, a, more) =>
      SpaceIsInert(b); SpaceIsInert(cb); SpaceIsInert(ca); SpaceIsInert(a);
      InertIsNeutral(b); InertIsNeutral(cb); InertIsNeutral(ca); InertIsNeutral(a);
      InertIsNeutral(":"); InertIsNeutral(","); InertIsNeutral([]);
      StrIsNeutral(name);
      RenderIsNeutral(v);
      MembersAreNeutral(more);
      NeutralConcat(b, RenderStr(name));
      NeutralConcat(b + RenderStr(name), cb);
      NeutralConcat(b + RenderStr(name) + cb, ":");
      NeutralConcat(b + RenderStr(name) + cb + ":", ca);
      NeutralConcat(b + RenderStr(name) + cb + ":" + ca, Render(v));
      NeutralConcat(b + RenderStr(name) + cb + ":" + ca + Render(v), a);
      NeutralConcat(",", RenderMembers(more));
      NeutralConcat(b + RenderStr(name) + cb + ":" + ca + Render(v) + a,
        if more.NoMembers? then [] else "," + RenderMembers(more));
  }

  // ------------------------------------------------------------------ extraction inverts printing

  /** Opens and closes with characters no cleaning step removes. */
  predicate Braced(core: string) { |core| >= 2 && core[0] == '{' && core[|core| - 1] == '}' }

  lemma {:induction false} LStripPrefix(p: string, core: string, drop: char -> bool)
    requires core != [] && !drop(core[0])
    ensures LStrip(p + core, drop) == LStrip(p, drop) + core
  {
    if p == [] {
      assert p + core == core;
    } else if drop(p[0]) {
      LStripPrefix(p[1..], core, drop);
      assert (p + core)[1..] == p[1..] + core;
    }
  }

  lemma {:induction false} RStripSuffix(core: string, q: string, drop: char -> bool)
    requires core != [] && !drop(core[|core| - 1])
    ensures RStrip(core + q, drop) == core + RStrip(q, drop)
  {
    if q == [] {
      assert core + q == core;
    } else if drop(q[|q| - 1]) {
      RStripSuffix(core, q[..|q| - 1], drop);
      assert (core + q)[..|core + q| - 1] == core + q[..|q| - 1];
    }
  }

  lemma {:induction false} LStripKeepsOut(p: string, drop: char -> bool)
    requires '{' !in p
    ensures '{' !in LStrip(p, drop)
  {
    if p != [] && drop(p[0]) {
      assert forall c :: c in p[1..] ==> c in p;
      LStripKeepsOut(p[1..], drop);
    }
  }

  lemma {:induction false} StripAround(p: string, core: string, q: string) returns (p': string, q': string)
    requires Braced(core) && '{' !in p
    ensures Strip(p + core + q) == p' + core + q' && '{' !in p'
  {
    p', q' := LStrip(p, IsSpace), RStrip(q, IsSpace);
    LStripPrefix(p, core + q, IsSpace);
    assert p + core + q == p + (core + q);
    LStripKeepsOut(p, IsSpace);
    RStripSuffix(p' + core, q, IsSpace);
    assert p' + core + q == p' + (core + q);
  }

  lemma {:induction false} CutFenceAround(p: string, core: string, q: string, fence: string)
    returns (p': string, q': string)
    requires Braced(core) && '{' !in p && '{' !in fence
    ensures CutFence(p + core + q, fence) == p' + core + q' && '{' !in p'
  {
    var t := p + core + q;
    p', q' := p, q;
    if fence <= t {
      assert |fence| <= |p| by {
        assert t[|p|] == '{';
        assert forall k | 0 <= k < |fence| :: fence[k] == t[k];
      }
      var p1 := p[|fence|..];
      assert t[|fence|..] == p1 + (core + q);
      LStripPrefix(p1, core + q, c => c == '\n');
      LStripKeepsOut(p1, c => c == '\n');
      var p2 := LStrip(p1, c => c == '\n');
      RStripSuffix(p2 + core, q, c => c == '`');
      assert p2 + (core + q) == p2 + core + q;
      p', q' := StripAround(p2, core, RStrip(q, c => c == '`'));
    }
  }

  /** Cleaning only ever touches what surrounds a braced text. */
  lemma {:induction false} CleanAround(p: string, core: string, q: string) returns (p': string, q': string)
    requires Braced(core) && '{' !in p
    ensures Clean(p + core + q) == p' + core + q' && '{' !in p'
  {
    p', q' := StripAround(p, core, q);
    p', q' := CutFenceAround(p', core, q', "```json");
    p', q' := CutFenceAround(p', core, q', "```");
  }

  lemma {:induction false} FirstBalancedUnique(rest: string, a: string, b: string)
    requires FirstBalanced(rest, a)
    ensures !NeverBalanced(rest) && (FirstBalanced(rest, b) ==> a == b)
  {
    assert rest[..|a|] == a;
    if FirstBalanced(rest, b) { assert rest[..|b|] == b; }
  }

  lemma {:induction false} ObjectIsFirstBalanced(ws: string, members: Members, q: string)
    requires WellFormed(Object(ws, members))
    ensures var obj := Render(Object(ws, members)); Braced(obj) && FirstBalanced(obj + q, obj)
  {
    var obj, body := Render(Object(ws, members)), ObjectBody(ws, members);
    assert obj == "{" + body + "}";
    ObjectBodyIsNeutral(ws, members);
    BracesAround(body, 0);
    forall k | 0 < k < |obj| ensures Depth((obj + q)[..k]) != 0 { assert (obj + q)[..k] == obj[..k]; }
  }

  lemma {:induction false} FindAt(t: string, n: nat, c: char)
    requires n < |t| && t[n] == c && c !in t[..n]
    ensures Find(t, c) == n
  {
    assert c in t;
    var i := Find(t, c);
    assert forall k | 0 <= k < n :: t[k] in t[..n];
    assert forall k | 0 <= k < i :: t[k] in t[..i];
  }

  lemma {:induction false} FirstBraceOf(prefix: string, obj: string, suffix: string) returns (q: string)
    requires '{' !in prefix && Braced(obj)
    ensures var t := Clean(prefix + obj + suffix); var i := Find(t, '{'); i >= 0 && t[i..] == obj + q
  {
    var p;
    p, q := CleanAround(prefix, obj, suffix);
    hide Clean, Find;
    var t := p + obj + q;
    assert t[|p|] == obj[0] == '{' && t[..|p|] == p;
    FindAt(t, |p|, '{');
    CutBehind(p, obj, q, 0);
  }

  /** Whatever brace-free text precedes a printed JSON object - prose, or an opening code fence - and
      whatever follows it, the result is the object's own text and nothing else. */
  lemma {:induction false} ExtractInvertsPrint(prefix: string, ws: string, members: Members, suffix: string,
          r: Option<string>)
    requires '{' !in prefix && WellFormed(Object(ws, members))
    ensures var obj := Render(Object(ws, members));
      IsResult(prefix + obj + suffix, r) <==> r == Some(obj)
  {
    var obj := Render(Object(ws, members));
    ObjectIsFirstBalanced(ws, members, []);
    hide FirstBalanced, Clean, Render, NeverBalanced, Find, Braced, WellFormed;
    var q := FirstBraceOf(prefix, obj, suffix);
    ObjectIsFirstBalanced(ws, members, q);
    FirstBalancedUnique(obj + q, obj, if r.Some? then r.value else obj);
  }

  // ------------------------------------------------------------------ cleaning changes nothing

  /** Neither a brace nor a quote nor a backslash. */
  predicate Idle(s: string) { forall c | c in s :: c != '{' && c != '}' && c != '"' && c != '\\' }

  lemma {:induction false} LStripParts(s: string, drop: char -> bool) returns (p: string)
    ensures s == p + LStrip(s, drop) && forall c | c in p :: drop(c)
  {
    p := [];
    if s != [] && drop(s[0]) {
      p := LStripParts(s[1..], drop);
      p := [s[0]] + p;
    }
  }

  lemma {:induction false} RStripParts(s: string, drop: char -> bool) returns (q: string)
    ensures s == RStrip(s, drop) + q && forall c | c in q :: drop(c)
  {
    q := [];
    if s != [] && drop(s[|s| - 1]) {
      q := RStripParts(s[..|s| - 1], drop);
      q := q + [s[|s| - 1]];
    }
  }

  ghost predicate CutsIdle(s: string, t: string) { exists p, q :: CutsTo(s, p, t, q) }

  ghost predicate CutsTo(s: string, p: string, t: string, q: string) { s == p + t + q && Idle(p) && Idle(q) }

  lemma {:induction false} CutsTwice(s: string, t: string, u: string)
    requires CutsIdle(s, t) && CutsIdle(t, u)
    ensures CutsIdle(s, u)
  {
    var p, q :| CutsTo(s, p, t, q);
    var p', q' :| CutsTo(t, p', u, q');
    assert s == (p + p') + u + (q' + q);
    assert CutsTo(s, p + p', u, q' + q);
  }

  lemma {:induction false} LStripCuts(s: string, drop: char -> bool)
    requires forall c | drop(c) :: Idle([c])
    ensures CutsIdle(s, LStrip(s, drop))
  {
    var p := LStripParts(s, drop);
    forall c | c in p ensures Idle([c]) {}
    assert forall c | c in p :: c in [c];
    assert s == p + LStrip(s, drop) + [];
    assert CutsTo(s, p, LStrip(s, drop), []);
  }

  lemma {:induction false} RStripCuts(s: string, drop: char -> bool)
    requires forall c | drop(c) :: Idle([c])
    ensures CutsIdle(s, RStrip(s, drop))
  {
    var q := RStripParts(s, drop);
    assert forall c | c in q :: c in [c];
    assert s == [] + RStrip(s, drop) + q;
    assert CutsTo(s, [], RStrip(s, drop), q);
  }

  lemma {:induction false} StripCuts(s: string)
    ensures CutsIdle(s, Strip(s))
  {
    forall c | IsSpace(c) ensures Idle([c]) {}
    LStripCuts(s, IsSpace);
    RStripCuts(LStrip(s, IsSpace), IsSpace);
    CutsTwice(s, LStrip(s, IsSpace), Strip(s));
  }

  lemma {:induction false} CutFenceCuts(s: string, fence: string)
    requires Idle(fence)
    ensures CutsIdle(s, CutFence(s, fence))
  {
    if fence <= s {
      var a := s[|fence|..];
      var b := LStrip(a, c => c == '\n');
      var d := RStrip(b, c => c == '`');
      assert s == fence + a + [];
      assert CutsTo(s, fence, a, []);
      LStripCuts(a, c => c == '\n');
      RStripCuts(b, c => c == '`');
      StripCuts(d);
      hide CutsIdle, LStrip, RStrip;
      CutsTwice(s, a, b);
      CutsTwice(s, b, d);
      CutsTwice(s, d, Strip(d));
    } else {
      assert s == [] + s + [];
      assert CutsTo(s, [], s, []);
    }
  }

  lemma {:induction false} CleanCuts(text: string)
    ensures CutsIdle(text, Clean(text))
  {
    var t := Strip(text);
    var u := CutFence(t, "```json");
    StripCuts(text);
    CutFenceCuts(t, "```json");
    CutFenceCuts(u, "```");
    hide CutsIdle, Strip, CutFence;
    CutsTwice(text, t, u);
    CutsTwice(text, u, Clean(text));
  }

  lemma {:induction false} IdleTail(s: string, q: string)
    requires Idle(q)
    ensures Depth(s + q) == Depth(s)
  {
    if q == [] {
      assert s + q == s;
    } else {
      var n := |q| - 1;
      assert (s + q)[..|s + q| - 1] == s + q[..n] && (s + q)[|s + q| - 1] == q[n] && q[n] in q;
      assert forall c | c in q[..n] :: c in q;
      IdleTail(s, q[..n]);
    }
  }

  /** Where the depth is back to 0 is not moved by idle text behind. */
  lemma {:induction false} IdleTailPrefix(rest: string, q: string, k: nat)
    requires Idle(q) && k <= |rest + q|
    ensures Depth((rest + q)[..k]) == Depth(rest[..if k < |rest| then k else |rest|])
  {
    if k <= |rest| {
      assert (rest + q)[..k] == rest[..k];
    } else {
      assert (rest + q)[..k] == rest + q[..k - |rest|] && rest[..|rest|] == rest;
      var cut := q[..k - |rest|];
      forall i | 0 <= i < |cut| ensures cut[i] in q { assert cut[i] == q[i]; }
      IdleTail(rest, cut);
    }
  }

  lemma {:induction false} IdleTailBalance(rest: string, q: string, obj: string)
    requires rest != [] && Idle(q)
    ensures FirstBalanced(rest + q, obj) <==> FirstBalanced(rest, obj)
    ensures NeverBalanced(rest + q) <==> NeverBalanced(rest)
  {
    hide Depth, Idle;
    forall k | 0 <= k <= |rest + q|
      ensures Depth((rest + q)[..k]) == Depth(rest[..if k < |rest| then k else |rest|])
    {
      IdleTailPrefix(rest, q, k);
    }
    var n, m := |rest|, |obj|;
    assert obj <= rest + q ==> obj == (rest + q)[..m];
    assert m <= n && obj <= rest + q ==> obj <= rest;
    var _ := Depth((rest + q)[..n]);
    if NeverBalanced(rest + q) {
      forall k | 0 < k <= n ensures Depth(rest[..k]) != 0 { assert Depth((rest + q)[..k]) != 0; }
    }
    if FirstBalanced(rest, obj) {
      assert obj == rest[..m] && obj <= rest + q;
      forall k | 0 < k < m ensures Depth((rest + q)[..k]) != 0 { assert Depth(rest[..k]) != 0; }
    }
    if FirstBalanced(rest + q, obj) {
      forall k | 0 < k < m ensures Depth(rest[..k]) != 0 { assert Depth((rest + q)[..k]) != 0; }
    }
  }

  lemma {:induction false} FindAround(p: string, t: string, q: string)
    requires '{' !in p && '{' !in q
    ensures Find(p + t + q, '{') == if Find(t, '{') == -1 then -1 else |p| + Find(t, '{')
  {
    var i := Find(t, '{');
    var s := p + t + q;
    if i >= 0 {
      assert s[|p| + i] == '{' && s[..|p| + i] == p + t[..i];
      FindAt(s, |p| + i, '{');
    } else {
      assert '{' !in s;
    }
  }

  lemma {:induction false} CutBehind(p: string, t: string, q: string, i: nat)
    requires i < |t|
    ensures (p + t + q)[|p| + i..] == t[i..] + q && t[i..] != []
  {
  }

  lemma {:induction false} FoundAround(p: string, t: string, q: string, r: Option<string>)
    requires '{' !in p && '{' !in q && Idle(q)
    ensures IsFoundIn(p + t + q, r) <==> IsFoundIn(t, r)
  {
    hide FirstBalanced, NeverBalanced, Find, Idle;
    FindAround(p, t, q);
    var i := Find(t, '{');
    if i >= 0 {
      CutBehind(p, t, q, i);
      IdleTailBalance(t[i..], q, if r.Some? then r.value else []);
    }
  }

  /** Stripping white space and code fences never changes the answer: what is found in the cleaned reply is found in
      the reply itself. */
  lemma {:induction false} CleaningChangesNothing(text: string, r: Option<string>)
    ensures IsResult(text, r) <==> IsFoundIn(text, r)
  {
    CleanCuts(text);
    var t := Clean(text);
    var p, q :| CutsTo(text, p, t, q);
    assert '{' !in p && '{' !in q;
    hide Clean, IsFoundIn, Idle;
    FoundAround(p, t, q, r);
  }
}
