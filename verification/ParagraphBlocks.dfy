/** Byte ranges of blank-line-separated paragraphs. */
module ParagraphBlocks {
  import opened Options
  import opened PythonText
  import opened Strings
  import opened Utf8

  /** A half-open byte range. */
  type Span = (nat, nat)

  /** `line.strip() == ""`. */
  predicate IsBlank(line: string) { forall c | c in line :: IsSpace(c) }

  /** Byte offset of line `k`, counting one byte for every newline before it. */
  function LineStart(lines: seq<string>, k: nat): nat
    requires k <= |lines|
  {
    if k == 0 then 0 else LineStart(lines, k - 1) + |EncodeAll(lines[k - 1])| + 1
  }

  function LineEnd(lines: seq<string>, k: nat): nat
    requires k < |lines|
  {
    LineStart(lines, k) + |EncodeAll(lines[k])|
  }

  /** Lines `a` to `b` are not blank, and no neighbour could be added. */
  ghost predicate IsRun(lines: seq<string>, a: nat, b: nat) {
    && a <= b < |lines|
    && (forall k | a <= k <= b :: !IsBlank(lines[k]))
    && (a > 0 ==> IsBlank(lines[a - 1])) && (b + 1 < |lines| ==> IsBlank(lines[b + 1]))
  }

  lemma {:induction false} RunsWithSameEnd(lines: seq<string>, a: nat, a': nat, b: nat)
    requires IsRun(lines, a, b) && IsRun(lines, a', b)
    ensures a == a'
  {
  }

  /** `runs` lists every maximal run of non-blank lines once, in order; `blocks` gives their bytes. */
  ghost predicate ListsRuns(lines: seq<string>, blocks: seq<Span>, runs: seq<(nat, nat)>) {
    && |blocks| == |runs|
    && (forall i | 0 <= i < |runs| ::
          IsRun(lines, runs[i].0, runs[i].1) && blocks[i] == (LineStart(lines, runs[i].0), LineEnd(lines, runs[i].1)))
    && (forall i, j | 0 <= i < j < |runs| :: runs[i].1 + 1 < runs[j].0)
  }

  ghost predicate ListsAllRuns(lines: seq<string>, runs: seq<(nat, nat)>, upTo: nat) {
    forall a: nat, b: nat | IsRun(lines, a, b) && b + 1 < upTo :: (a, b) in runs
  }

  /** The open paragraph at line `n` began at line `a`. */
  ghost predicate OpenSince(lines: seq<string>, a: nat, n: nat) {
    a < n <= |lines| && (forall k | a <= k < n :: !IsBlank(lines[k])) && (a > 0 ==> IsBlank(lines[a - 1]))
  }

  /** Every listed run ends before line `a`, with a line between. */
  ghost predicate EndBefore(runs: seq<(nat, nat)>, a: nat) { forall i | 0 <= i < |runs| :: runs[i].1 + 1 < a }

  /** The open paragraph ends: it is a maximal run, and the only one that ends there. */
  lemma {:induction false} RunCloses(lines: seq<string>, blocks: seq<Span>, runs: seq<(nat, nat)>, a: nat, n: nat)
    requires ListsRuns(lines, blocks, runs) && ListsAllRuns(lines, runs, n) && EndBefore(runs, a)
    requires OpenSince(lines, a, n) && (n < |lines| ==> IsBlank(lines[n]))
    ensures ListsRuns(lines, blocks + [(LineStart(lines, a), LineEnd(lines, n - 1))], runs + [(a, n - 1)])
    ensures ListsAllRuns(lines, runs + [(a, n - 1)], n + 1)
  {
    hide LineStart, LineEnd, IsBlank, IsRun, OpenSince, ListsRuns, ListsAllRuns, EndBefore;
    OpenIsRun(lines, a, n);
    ClosedRunIsTheOnlyOne(lines, runs, a, n);
    RunAppends(lines, blocks, runs, a, n - 1);
  }

  lemma {:induction false} OpenIsRun(lines: seq<string>, a: nat, n: nat)
    requires OpenSince(lines, a, n) && (n < |lines| ==> IsBlank(lines[n]))
    ensures a < n && IsRun(lines, a, n - 1)
  {
    hide IsBlank;
  }

  lemma {:induction false} RunAppends(lines: seq<string>, blocks: seq<Span>, runs: seq<(nat, nat)>, a: nat, b: nat)
    requires ListsRuns(lines, blocks, runs) && EndBefore(runs, a) && IsRun(lines, a, b)
    ensures ListsRuns(lines, blocks + [(LineStart(lines, a), LineEnd(lines, b))], runs + [(a, b)])
  {
    hide LineStart, LineEnd, IsRun;
  }

  lemma {:induction false} ClosedRunIsTheOnlyOne(lines: seq<string>, runs: seq<(nat, nat)>, a: nat, n: nat)
    requires ListsAllRuns(lines, runs, n) && a < n && IsRun(lines, a, n - 1)
    ensures ListsAllRuns(lines, runs + [(a, n - 1)], n + 1)
  {
    forall x: nat, y: nat | IsRun(lines, x, y) && y + 1 < n + 1 ensures (x, y) in runs + [(a, n - 1)] {
      if y == n - 1 { RunsWithSameEnd(lines, x, a, y); }
    }
  }

  /** No run ends just before line `n` if that line continues it or nothing was open. */
  lemma {:induction false} NoRunCloses(lines: seq<string>, runs: seq<(nat, nat)>, n: nat)
    requires n < |lines| && ListsAllRuns(lines, runs, n)
    requires IsBlank(lines[n]) ==> n == 0 || IsBlank(lines[n - 1])
    ensures ListsAllRuns(lines, runs, n + 1)
  {
  }

  /** The byte ranges of exactly the maximal runs of non-blank lines, in order. */
  ghost predicate AreParagraphs(source: string, blocks: seq<Span>) {
    exists runs :: ListsRuns(SplitLines(source), blocks, runs) && IncludesAllRuns(SplitLines(source), runs)
  }

  ghost predicate IncludesAllRuns(lines: seq<string>, runs: seq<(nat, nat)>) {
    forall a: nat, b: nat | IsRun(lines, a, b) :: (a, b) in runs
  }

  method Paragraphs(source: string) returns (blocks: seq<Span>, ghost runs: seq<(nat, nat)>)
    ensures ListsRuns(SplitLines(source), blocks, runs)
    ensures IncludesAllRuns(SplitLines(source), runs) && AreParagraphs(source, blocks)
  {
    var lines := SplitLines(source);
    hide IsRun, IsBlank, ListsRuns, ListsAllRuns, SplitLines, EncodeAll;
    blocks, runs := [], [];
    NothingListed(lines);
    var start: Option<nat>, end, pos := None, 0, 0;
    ghost var a := 0;
    for n := 0 to |lines|
      invariant pos == LineStart(lines, n)
      invariant ListsRuns(lines, blocks, runs) && ListsAllRuns(lines, runs, n)
      invariant start == None ==> (n == 0 || IsBlank(lines[n - 1])) && EndBefore(runs, n)
      invariant start.Some? ==> OpenSince(lines, a, n) && start.value == LineStart(lines, a)
      invariant start.Some? ==> end == LineEnd(lines, n - 1) && EndBefore(runs, a)
    {
      var line := lines[n];
      if IsBlank(line) {
        if start.Some? {
          RunCloses(lines, blocks, runs, a, n);
          blocks, runs := blocks + [(start.value, end)], runs + [(a, n - 1)];
          start := None;
        } else {
          NoRunCloses(lines, runs, n);
        }
      } else {
        NoRunCloses(lines, runs, n);
        if start == None { start, a := Some(pos), n; }
        end := pos + |EncodeAll(line)|;
      }
      pos := pos + |EncodeAll(line)| + 1;
    }
    if start.Some? {
      RunCloses(lines, blocks, runs, a, |lines|);
      blocks, runs := blocks + [(start.value, end)], runs + [(a, |lines| - 1)];
    } else {
      LastLineBlank(lines, runs);
    }
    AllListed(lines, runs);
  }

  lemma {:induction false} NothingListed(lines: seq<string>)
    ensures ListsRuns(lines, [], []) && ListsAllRuns(lines, [], 0)
  {
  }

  lemma {:induction false} LastLineBlank(lines: seq<string>, runs: seq<(nat, nat)>)
    requires ListsAllRuns(lines, runs, |lines|) && (lines == [] || IsBlank(lines[|lines| - 1]))
    ensures ListsAllRuns(lines, runs, |lines| + 1)
  {
  }

  lemma {:induction false} AllListed(lines: seq<string>, runs: seq<(nat, nat)>)
    requires ListsAllRuns(lines, runs, |lines| + 1)
    ensures IncludesAllRuns(lines, runs)
  {
  }

  // ------------------------------------------------------------------ what the blocks are

  lemma {:induction false} LineStartMonotone(lines: seq<string>, a: nat, b: nat)
    requires a < b <= |lines|
    ensures LineEnd(lines, a) < LineStart(lines, b)
  {
    if a + 1 < b { LineStartMonotone(lines, a, b - 1); }
  }

  lemma {:induction false} NonBlankHasBytes(line: string)
    requires !IsBlank(line)
    ensures |EncodeAll(line)| > 0
  {
  }

  /** Sorted, disjoint, nonempty byte intervals with a gap between them. */
  ghost predicate Separated(blocks: seq<Span>) {
    && (forall i | 0 <= i < |blocks| :: blocks[i].0 < blocks[i].1)
    && (forall i, j | 0 <= i < j < |blocks| :: blocks[i].1 < blocks[j].0)
  }

  lemma {:induction false} BlocksAreSeparated(lines: seq<string>, blocks: seq<Span>, runs: seq<(nat, nat)>)
    requires ListsRuns(lines, blocks, runs)
    ensures Separated(blocks)
  {
    forall i | 0 <= i < |blocks| ensures blocks[i].0 < blocks[i].1 {
      var a, b := runs[i].0, runs[i].1;
      assert IsRun(lines, a, b);
      NonBlankHasBytes(lines[a]);
      if a < b { LineStartMonotone(lines, a, b); }
    }
    forall i, j | 0 <= i < j < |blocks| ensures blocks[i].1 < blocks[j].0 {
      assert IsRun(lines, runs[j].0, runs[j].1) && IsRun(lines, runs[i].0, runs[i].1);
      LineStartMonotone(lines, runs[i].1, runs[j].0);
    }
  }

  lemma {:induction false} TerminatedLength(lines: seq<string>, k: nat)
    requires k <= |lines|
    ensures |EncodeAll(Terminated(lines[..k]))| == LineStart(lines, k)
  {
    if k > 0 {
      TerminatedLength(lines, k - 1);
      var init, last := lines[..k - 1], lines[k - 1];
      assert lines[..k] == init + [last];
      TerminatedConcat(init, last);
      EncodeConcat(Terminated(init), last + "\n");
      EncodeConcat(last, "\n");
      assert "\n"[1..] == [];
    }
  }

  lemma {:induction false} TerminatedConcat(lines: seq<string>, last: string)
    ensures Terminated(lines + [last]) == Terminated(lines) + (last + "\n")
  {
    if lines != [] {
      TerminatedConcat(lines[1..], last);
      assert (lines + [last])[1..] == lines[1..] + [last];
    } else {
      assert (lines + [last])[1..] == [] && lines + [last] == [last];
    }
  }

  lemma {:induction false} JoinedLength(lines: seq<string>, a: nat, b: nat)
    requires a <= b < |lines|
    ensures |EncodeAll(JoinLines(lines[a..b + 1]))| == LineEnd(lines, b) - LineStart(lines, a)
    decreases b - a
  {
    var run := lines[a..b + 1];
    if a < b {
      JoinedLength(lines, a + 1, b);
      assert run[1..] == lines[a + 1..b + 1];
      var rest := JoinLines(run[1..]);
      assert JoinLines(run) == run[0] + ("\n" + rest);
      EncodeConcat(run[0], "\n" + rest);
      EncodeConcat("\n", rest);
      assert "\n"[1..] == [];
    }
  }

  /** The bytes of a block are the bytes of its paragraph: its lines, joined. */
  lemma {:induction false} BlockHoldsParagraph(source: string, a: nat, b: nat)
    requires var lines := SplitLines(source); a <= b < |lines|
    ensures var lines := SplitLines(source);
      && LineStart(lines, a) <= LineEnd(lines, b) <= |EncodeAll(source)|
      && EncodeAll(source)[LineStart(lines, a)..LineEnd(lines, b)] == EncodeAll(JoinLines(lines[a..b + 1]))
  {
    hide EncodeAll, JoinLines, Terminated, LineStart, SplitLines;
    var lines := SplitLines(source);
    JoinInvertsSplit(source);
    JoinSplitsAt(lines, a);
    var rest := JoinPrefix(lines[a..], b + 1 - a);
    assert lines[a..][..b + 1 - a] == lines[a..b + 1];
    var head, body := Terminated(lines[..a]), JoinLines(lines[a..b + 1]);
    assert source == head + (body + rest);
    TerminatedLength(lines, a);
    JoinedLength(lines, a, b);
    EncodeConcat(head, body + rest);
    EncodeConcat(body, rest);
    MiddleSlice(EncodeAll(head), EncodeAll(body), EncodeAll(rest));
  }

  lemma {:induction false} MiddleSlice(a: seq<Byte>, b: seq<Byte>, c: seq<Byte>)
    ensures (a + (b + c))[|a|..|a| + |b|] == b
  {
  }
}
