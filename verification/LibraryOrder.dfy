/** The library list: facet filter, month buckets, and the flattened browse order. */
module LibraryOrder {
  import opened Collections
  import opened Lexicographic
  import opened Options
  import opened StableSort
  import opened Strings

  datatype SourceRow = SourceRow(
    sha256: string, status: string, origin: Option<string>, relPath: Option<string>, date: Option<string>,
    tags: seq<string>, tagsInferred: seq<string>, tagsImplied: seq<string>)

  datatype Collection = Clippings | Pinboard | Capture

  datatype LibraryFilter = LibraryFilter(collection: Option<Collection>, month: Option<string>, status: Option<string>,
      tag: Option<string>)

  datatype MonthGroup = MonthGroup(month: string, sources: seq<SourceRow>)

  function CollectionOf(s: SourceRow): Collection {
    if s.origin == Some("pinboard") then Pinboard
    else
      var path := if s.relPath.Some? then s.relPath.value else "";
      if Contains(path, "02-Pinboard") then Pinboard else if Contains(path, "00-Capture") then Capture else Clippings
  }

  /** `date ?? ''`. */
  function DateOf(s: SourceRow): string { if s.date.Some? then s.date.value else "" }

  /** The YYYY-MM facet: `date?.slice(0, 7) ?? ''`. */
  function MonthOf(s: SourceRow): string { if s.date.Some? then Prefix(s.date.value, 7) else "" }

  predicate Passes(f: LibraryFilter, s: SourceRow) {
    && (f.collection == None || CollectionOf(s) == f.collection.value)
    && (f.month == None || MonthOf(s) == f.month.value)
    && (f.status == None || s.status == f.status.value)
    && (f.tag == None || f.tag.value in s.tags || f.tag.value in s.tagsInferred || f.tag.value in s.tagsImplied)
  }

  function Passing(f: LibraryFilter): SourceRow -> bool { s => Passes(f, s) }

  function FilterSources(rows: seq<SourceRow>, f: LibraryFilter): seq<SourceRow> { Filter(rows, Passing(f)) }

  /** Newest date first; undated rows, whose date is empty, last. */
  predicate NewestFirst(a: SourceRow, b: SourceRow) { LexLe(DateOf(b), DateOf(a)) }

  predicate LaterMonthFirst(a: MonthGroup, b: MonthGroup) { LexLe(b.month, a.month) }

  function InMonth(m: string): SourceRow -> bool { s => MonthOf(s) == m }

  ghost predicate HasMonth(groups: seq<MonthGroup>, m: string) { exists g :: g in groups && g.month == m }

  /** One bucket a month, each with that month's rows in order, none empty. */
  ghost predicate Buckets(groups: seq<MonthGroup>, rows: seq<SourceRow>) {
    && (forall i, j | 0 <= i < j < |groups| :: groups[i].month != groups[j].month)
    && (forall g | g in groups :: g.sources == Filter(rows, InMonth(g.month)))
    && forall r | r in rows :: HasMonth(groups, MonthOf(r))
  }

  function FindMonth(groups: seq<MonthGroup>, m: string): (k: nat)
    ensures k <= |groups| && (k < |groups| ==> groups[k].month == m) && forall i | 0 <= i < k :: groups[i].month != m
  {
    if groups == [] || groups[0].month == m then 0 else 1 + FindMonth(groups[1..], m)
  }

  lemma {:induction false} NoneInMonth(rows: seq<SourceRow>, m: string)
    requires forall r | r in rows :: MonthOf(r) != m
    ensures Filter(rows, InMonth(m)) == []
  {
    if rows != [] {
      assert forall r | r in rows[..|rows| - 1] :: r in rows;
      NoneInMonth(rows[..|rows| - 1], m);
      assert rows[|rows| - 1] in rows;
    }
  }

  /** The buckets with one more row. */
  function Bucketed(groups: seq<MonthGroup>, s: SourceRow): seq<MonthGroup> {
    var m := MonthOf(s);
    var k := FindMonth(groups, m);
    if k < |groups| then groups[k := MonthGroup(m, groups[k].sources + [s])] else groups + [MonthGroup(m, [s])]
  }

  lemma {:induction false} BucketsStep(groups: seq<MonthGroup>, rows: seq<SourceRow>, s: SourceRow)
    requires Buckets(groups, rows)
    ensures Buckets(Bucketed(groups, s), rows + [s])
  {
    BucketContents(groups, rows, s);
    BucketMonths(groups, rows, s);
  }

  /** The months stay different, and every row has one. */
  lemma {:induction false} BucketMonths(groups: seq<MonthGroup>, rows: seq<SourceRow>, s: SourceRow)
    requires Buckets(groups, rows)
    ensures var after := Bucketed(groups, s);
      && (forall i, j | 0 <= i < j < |after| :: after[i].month != after[j].month)
      && forall r | r in rows + [s] :: HasMonth(after, MonthOf(r))
  {
    hide MonthOf, Filter, InMonth, HasMonth;
    var after := Bucketed(groups, s);
    MonthsKept(groups, after);
    OwnMonth(after, FindMonth(groups, MonthOf(s)));
    assert forall r | r in rows :: HasMonth(groups, MonthOf(r));
    forall r | r in rows + [s] ensures HasMonth(after, MonthOf(r)) {}
  }

  lemma {:induction false} OwnMonth(groups: seq<MonthGroup>, k: nat)
    requires k < |groups|
    ensures HasMonth(groups, groups[k].month)
  {
    assert groups[k] in groups;
  }

  lemma {:induction false} MonthsKept(groups: seq<MonthGroup>, after: seq<MonthGroup>)
    requires |groups| <= |after| && forall i | 0 <= i < |groups| :: after[i].month == groups[i].month
    ensures forall n :: HasMonth(groups, n) ==> HasMonth(after, n)
  {
    forall n | HasMonth(groups, n) ensures HasMonth(after, n) {
      var g :| g in groups && g.month == n;
      var i :| 0 <= i < |groups| && groups[i] == g;
      assert after[i] in after;
    }
  }

  lemma {:induction false} BucketContents(groups: seq<MonthGroup>, rows: seq<SourceRow>, s: SourceRow)
    requires Buckets(groups, rows)
    ensures forall g | g in Bucketed(groups, s) :: g.sources == Filter(rows + [s], InMonth(g.month))
  {
    var after := Bucketed(groups, s);
    var m := MonthOf(s);
    var k := FindMonth(groups, m);
    if k == |groups| {
      forall r | r in rows ensures MonthOf(r) != m {
        assert HasMonth(groups, MonthOf(r));
        var g :| g in groups && g.month == MonthOf(r);
      }
      NoneInMonth(rows, m);
    }
    forall i | 0 <= i < |after| ensures after[i].sources == Filter(rows + [s], InMonth(after[i].month)) {
      if i < |groups| { assert groups[i] in groups; }
      FilterStep(rows, s, after[i].month);
    }
  }

  lemma {:induction false} FilterStep(rows: seq<SourceRow>, s: SourceRow, m: string)
    ensures Filter(rows + [s], InMonth(m)) ==
      if MonthOf(s) == m then Filter(rows, InMonth(m)) + [s] else Filter(rows, InMonth(m))
  {
    assert (rows + [s])[..|rows|] == rows;
  }

  lemma {:induction false} NoBuckets()
    ensures Buckets([], [])
  {
  }

  method BucketByMonth(rows: seq<SourceRow>) returns (groups: seq<MonthGroup>)
    ensures Buckets(groups, rows)
  {
    hide Buckets, MonthOf, Filter;
    groups := [];
    NoBuckets();
    assert rows[..0] == [];
    for i := 0 to |rows|
      invariant Buckets(groups, rows[..i])
    {
      var s := rows[i];
      BucketsStep(groups, rows[..i], s);
      assert rows[..i + 1] == rows[..i] + [s];
      var k := FindMonth(groups, MonthOf(s));
      if k < |groups| {
        groups := groups[k := MonthGroup(MonthOf(s), groups[k].sources + [s])];
      } else {
        groups := groups + [MonthGroup(MonthOf(s), [s])];
      }
    }
    assert rows[..|rows|] == rows;
  }

  /** Strictly later months first. */
  ghost predicate Descending(groups: seq<MonthGroup>) {
    forall i, j | 0 <= i < j < |groups| :: LexLe(groups[j].month, groups[i].month) && groups[i].month != groups[j].month
  }

  /** Months in strictly descending order, each with its rows sorted, none missing. */
  ghost predicate Grouped(groups: seq<MonthGroup>, rows: seq<SourceRow>) {
    && Descending(groups)
    && (forall g | g in groups :: g.sources == Sort(Filter(rows, InMonth(g.month)), NewestFirst))
    && forall r | r in rows :: HasMonth(groups, MonthOf(r))
  }

  method GroupByMonth(rows: seq<SourceRow>) returns (groups: seq<MonthGroup>)
    ensures Grouped(groups, rows)
  {
    var buckets := BucketByMonth(rows);
    var ordered := Sort(buckets, LaterMonthFirst);
    groups := [];
    for i := 0 to |ordered|
      invariant |groups| == i
      invariant forall j | 0 <= j < i ::
          groups[j] == MonthGroup(ordered[j].month, Sort(ordered[j].sources, NewestFirst))
    {
      groups := groups + [MonthGroup(ordered[i].month, Sort(ordered[i].sources, NewestFirst))];
    }
    SortedBucketsAreGrouped(buckets, rows, ordered, groups);
  }

  lemma {:induction false} SortedBucketsAreGrouped(buckets: seq<MonthGroup>, rows: seq<SourceRow>,
          ordered: seq<MonthGroup>, groups: seq<MonthGroup>)
    requires Buckets(buckets, rows) && ordered == Sort(buckets, LaterMonthFirst) && |groups| == |ordered|
    requires forall j | 0 <= j < |ordered| ::
      groups[j] == MonthGroup(ordered[j].month, Sort(ordered[j].sources, NewestFirst))
    ensures Grouped(groups, rows)
  {
    SortedBuckets(buckets);
    hide LexLe, Sort, MonthOf, Filter, HasMonth, InMonth;
    MonthsFollow(buckets, ordered, groups);
    forall g | g in groups ensures g.sources == Sort(Filter(rows, InMonth(g.month)), NewestFirst) {
      var i :| 0 <= i < |groups| && groups[i] == g;
      assert ordered[i] in ordered;
    }
  }

  lemma {:induction false} SortedBuckets(buckets: seq<MonthGroup>)
    requires forall i, j | 0 <= i < j < |buckets| :: buckets[i].month != buckets[j].month
    ensures Descending(Sort(buckets, LaterMonthFirst))
    ensures forall g :: g in Sort(buckets, LaterMonthFirst) <==> g in buckets
  {
    var ordered := Sort(buckets, LaterMonthFirst);
    LaterMonthIsPreorder();
    SortIsStable(buckets, LaterMonthFirst);
    SortMembers(buckets, LaterMonthFirst);
    hide LexLe, Sort, TotalPreorder, Ties;
    DistinctStays(buckets, ordered);
    forall i, j | 0 <= i < j < |ordered| ensures LexLe(ordered[j].month, ordered[i].month) {
      assert LaterMonthFirst(ordered[i], ordered[j]);
    }
    assert forall g :: g in ordered <==> g in multiset(ordered);
    assert forall g :: g in buckets <==> g in multiset(buckets);
  }

  lemma {:induction false} LaterMonthIsPreorder()
    ensures TotalPreorder(LaterMonthFirst)
  {
    LexIsTotalPreorder();
  }

  lemma {:induction false} MonthsFollow(buckets: seq<MonthGroup>, ordered: seq<MonthGroup>, groups: seq<MonthGroup>)
    requires (forall g :: g in ordered <==> g in buckets) && |groups| == |ordered|
    requires forall j | 0 <= j < |ordered| :: groups[j].month == ordered[j].month
    ensures forall m :: HasMonth(buckets, m) ==> HasMonth(groups, m)
  {
    forall m | HasMonth(buckets, m) ensures HasMonth(groups, m) {
      var b :| b in buckets && b.month == m;
      var i :| 0 <= i < |ordered| && ordered[i] == b;
      assert groups[i] in groups;
    }
  }

  /** A rearrangement of buckets with different months has different months. */
  lemma {:induction false} DistinctStays(a: seq<MonthGroup>, b: seq<MonthGroup>)
    requires multiset(a) == multiset(b) && forall i, j | 0 <= i < j < |a| :: a[i].month != a[j].month
    ensures forall i, j | 0 <= i < j < |b| :: b[i].month != b[j].month
  {
    forall i, j | 0 <= i < j < |b| ensures b[i].month != b[j].month {
      if b[i].month == b[j].month {
        assert b[i] in multiset(b) && b[j] in multiset(b);
        assert b[i] in a && b[j] in a;
        var x :| 0 <= x < |a| && a[x] == b[i];
        var y :| 0 <= y < |a| && a[y] == b[j];
        assert x == y;
        TwiceInSeq(b, i, j);
        OnceInSeq(a, x);
      }
    }
  }

  lemma {:induction false} TwiceInSeq<T>(s: seq<T>, i: nat, j: nat)
    requires i < j < |s| && s[i] == s[j]
    ensures multiset(s)[s[i]] >= 2
  {
    assert s == s[..j] + [s[j]] + s[j + 1..];
    assert s[i] in s[..j] && s[i] in multiset(s[..j]);
  }

  lemma {:induction false} OnceInSeq<T>(s: seq<T>, i: nat)
    requires i < |s| && forall k | 0 <= k < |s| && k != i :: s[k] != s[i]
    ensures multiset(s)[s[i]] == 1
  {
    assert s == s[..i] + [s[i]] + s[i + 1..];
    assert s[i] !in s[..i] && s[i] !in s[i + 1..];
    assert s[i] !in multiset(s[..i]) && s[i] !in multiset(s[i + 1..]);
  }

  // ------------------------------------------------------------------ one sort

  function Flatten(groups: seq<MonthGroup>): seq<SourceRow> {
    if groups == [] then [] else groups[0].sources + Flatten(groups[1..])
  }

  lemma {:induction false} SameDateSameMonth(a: SourceRow, b: SourceRow)
    ensures MonthOf(a) == Prefix(DateOf(a), 7)
    ensures DateOf(a) == DateOf(b) ==> MonthOf(a) == MonthOf(b)
  {
  }

  /** A later month means a later date. */
  lemma {:induction false} LaterMonthLaterDate(a: SourceRow, b: SourceRow)
    requires LexLe(MonthOf(b), MonthOf(a)) && MonthOf(a) != MonthOf(b)
    ensures NewestFirst(a, b)
  {
    SameDateSameMonth(a, b);
    SameDateSameMonth(b, a);
    LexTotal(DateOf(a), DateOf(b));
    if LexLe(DateOf(a), DateOf(b)) {
      PrefixMonotone(DateOf(a), DateOf(b), 7);
      LexTotal(MonthOf(a), MonthOf(b));
    }
  }

  lemma {:induction false} FilterMembers(rows: seq<SourceRow>, keep: SourceRow -> bool)
    ensures forall r :: r in Filter(rows, keep) <==> r in rows && keep(r)
  {
    if rows != [] {
      FilterMembers(rows[..|rows| - 1], keep);
      assert rows == rows[..|rows| - 1] + [rows[|rows| - 1]];
    }
  }

  /** Keeping one month keeps every tie of a row of that month, and no tie of any other. */
  lemma {:induction false} TiesOfMonth(rows: seq<SourceRow>, m: string, x: SourceRow)
    ensures Ties(Filter(rows, InMonth(m)), x, NewestFirst) == if MonthOf(x) == m then Ties(rows, x, NewestFirst) else []
  {
    if rows != [] {
      var init, s := rows[..|rows| - 1], rows[|rows| - 1];
      TiesOfMonth(init, m, x);
      assert rows == init + [s];
      TiesConcat(init, [s], x, NewestFirst);
      TiesConcat(Filter(init, InMonth(m)), [s], x, NewestFirst);
      assert [s][1..] == [];
      LexTotal(DateOf(x), DateOf(s));
      SameDateSameMonth(x, s);
    }
  }

  lemma {:induction false} NewestFirstIsPreorder()
    ensures TotalPreorder(NewestFirst)
  {
    LexIsTotalPreorder();
  }

  /** The rows of a group are rows of its month, sorted, with every tie in its original order. */
  lemma {:induction false} GroupLaws(g: MonthGroup, rows: seq<SourceRow>, x: SourceRow)
    requires g.sources == Sort(Filter(rows, InMonth(g.month)), NewestFirst)
    ensures Ordered(g.sources, NewestFirst) && forall r | r in g.sources :: MonthOf(r) == g.month
    ensures Ties(g.sources, x, NewestFirst) == if MonthOf(x) == g.month then Ties(rows, x, NewestFirst) else []
  {
    var kept := Filter(rows, InMonth(g.month));
    NewestFirstIsPreorder();
    SortIsStable(kept, NewestFirst);
    SortMembers(kept, NewestFirst);
    FilterMembers(rows, InMonth(g.month));
    TiesOfMonth(rows, g.month, x);
    hide Sort, Filter, NewestFirst, MonthOf, Ties;
    forall r | r in g.sources ensures MonthOf(r) == g.month { assert r in multiset(g.sources) && r in kept; }
  }

  /** `groups` are groups of `rows`, in month order. */
  ghost predicate GroupsOf(groups: seq<MonthGroup>, rows: seq<SourceRow>) {
    Descending(groups) && forall g | g in groups :: g.sources == Sort(Filter(rows, InMonth(g.month)), NewestFirst)
  }

  lemma {:induction false} GroupsOfTail(groups: seq<MonthGroup>, rows: seq<SourceRow>)
    requires GroupsOf(groups, rows) && groups != []
    ensures GroupsOf(groups[1..], rows)
    ensures groups[0].sources == Sort(Filter(rows, InMonth(groups[0].month)), NewestFirst)
    ensures forall g | g in groups[1..] :: LexLe(g.month, groups[0].month) && g.month != groups[0].month
  {
    assert groups[0] in groups && forall g | g in groups[1..] :: g in groups;
  }

  /** Every row of the flattened list comes from some group's month. */
  lemma {:induction false} FlattenMonths(groups: seq<MonthGroup>, rows: seq<SourceRow>, r: SourceRow)
    requires GroupsOf(groups, rows) && r in Flatten(groups)
    ensures HasMonth(groups, MonthOf(r))
  {
    GroupsOfTail(groups, rows);
    if r in groups[0].sources {
      GroupLaws(groups[0], rows, r);
      assert groups[0] in groups;
    } else {
      FlattenMonths(groups[1..], rows, r);
      var g :| g in groups[1..] && g.month == MonthOf(r);
      assert g in groups;
    }
  }

  lemma {:induction false} FlattenOrdered(groups: seq<MonthGroup>, rows: seq<SourceRow>)
    requires GroupsOf(groups, rows)
    ensures Ordered(Flatten(groups), NewestFirst)
  {
    if groups != [] {
      GroupsOfTail(groups, rows);
      FlattenOrdered(groups[1..], rows);
      var head, tail := groups[0].sources, Flatten(groups[1..]);
      GroupLaws(groups[0], rows, SourceRow("", "", None, None, None, [], [], []));
      hide NewestFirst, GroupsOf, MonthOf, Sort, Filter;
      forall a, b | a in head && b in tail ensures NewestFirst(a, b) {
        FlattenMonths(groups[1..], rows, b);
        var g :| g in groups[1..] && g.month == MonthOf(b);
        LaterMonthLaterDate(a, b);
      }
      OrderedConcat(head, tail);
    }
  }

  lemma {:induction false} OrderedConcat(a: seq<SourceRow>, b: seq<SourceRow>)
    requires Ordered(a, NewestFirst) && Ordered(b, NewestFirst) && forall x, y | x in a && y in b :: NewestFirst(x, y)
    ensures Ordered(a + b, NewestFirst)
  {
    hide NewestFirst;
  }

  lemma {:induction false} MonthOfHeadOrTail(groups: seq<MonthGroup>, m: string)
    requires groups != [] && forall g | g in groups[1..] :: g.month != groups[0].month
    ensures HasMonth(groups, m) <==> groups[0].month == m || HasMonth(groups[1..], m)
    ensures !(groups[0].month == m && HasMonth(groups[1..], m))
  {
    assert groups == [groups[0]] + groups[1..];
    assert forall g :: g in groups <==> g == groups[0] || g in groups[1..];
  }

  /** Flattening keeps exactly one copy of every class of ties: the one in its month's group. */
  lemma {:induction false} FlattenTies(groups: seq<MonthGroup>, rows: seq<SourceRow>, x: SourceRow)
    requires GroupsOf(groups, rows)
    ensures Ties(Flatten(groups), x, NewestFirst) ==
      if HasMonth(groups, MonthOf(x)) then Ties(rows, x, NewestFirst) else []
  {
    if groups != [] {
      var head, tail := groups[0], groups[1..];
      GroupsOfTail(groups, rows);
      hide NewestFirst, GroupsOf, MonthOf, Sort, Filter, HasMonth, Ties, Ordered;
      assert Ties(head.sources, x, NewestFirst) ==
        if MonthOf(x) == head.month then Ties(rows, x, NewestFirst) else [] by {
        GroupLaws(head, rows, x);
      }
      FlattenTies(tail, rows, x);
      TiesConcat(head.sources, Flatten(tail), x, NewestFirst);
      MonthOfHeadOrTail(groups, MonthOf(x));
    }
  }

  /** Bucketing by month, sorting the months and sorting inside each is one stable sort by date. */
  lemma {:induction false} GroupingIsOneSort(groups: seq<MonthGroup>, rows: seq<SourceRow>)
    requires Grouped(groups, rows)
    ensures Flatten(groups) == Sort(rows, NewestFirst)
  {
    NewestFirstIsPreorder();
    assert GroupsOf(groups, rows);
    FlattenOrdered(groups, rows);
    forall x ensures Ties(Flatten(groups), x, NewestFirst) == Ties(rows, x, NewestFirst) {
      FlattenTies(groups, rows, x);
      TiesNeedGroup(groups, rows, x);
    }
    SortIsTheStableSort(Flatten(groups), rows, NewestFirst);
  }

  /** A row of the list ties with `x` only if the month of `x` has a group. */
  lemma {:induction false} TiesNeedGroup(groups: seq<MonthGroup>, rows: seq<SourceRow>, x: SourceRow)
    requires Grouped(groups, rows)
    ensures Ties(rows, x, NewestFirst) == [] || HasMonth(groups, MonthOf(x))
  {
    var ties := Ties(rows, x, NewestFirst);
    if ties != [] {
      TiesMembers(rows, x, NewestFirst);
      LexTotal(DateOf(x), DateOf(ties[0]));
      SameDateSameMonth(x, ties[0]);
      assert ties[0] in rows;
    }
  }

  /** Undated rows come last. */
  lemma {:induction false} UndatedLast(rows: seq<SourceRow>, i: nat, j: nat)
    requires i < j < |Sort(rows, NewestFirst)| && DateOf(Sort(rows, NewestFirst)[i]) == ""
    ensures DateOf(Sort(rows, NewestFirst)[j]) == ""
  {
    NewestFirstIsPreorder();
    SortIsStable(rows, NewestFirst);
    hide Sort, Ties;
    assert NewestFirst(Sort(rows, NewestFirst)[i], Sort(rows, NewestFirst)[j]);
  }

  function Shas(rows: seq<SourceRow>): seq<string> { seq(|rows|, k requires 0 <= k < |rows| => rows[k].sha256) }

  /** The list's browse order: the filtered sources, newest date first, ties as given, undated last. */
  method LibraryBrowseOrder(sources: seq<SourceRow>, f: LibraryFilter) returns (order: seq<string>)
    ensures order == Shas(Sort(FilterSources(sources, f), NewestFirst))
  {
    hide Sort, FilterSources, Grouped;
    var rows := FilterSources(sources, f);
    var groups := GroupByMonth(rows);
    GroupingIsOneSort(groups, rows);
    order := FlatShas(groups);
  }

  /** `flatMap` over the groups. */
  method FlatShas(groups: seq<MonthGroup>) returns (order: seq<string>)
    ensures order == Shas(Flatten(groups))
  {
    order := [];
    assert groups[0..] == groups;
    for i := 0 to |groups|
      invariant order + Shas(Flatten(groups[i..])) == Shas(Flatten(groups))
    {
      assert groups[i..][0] == groups[i] && groups[i..][1..] == groups[i + 1..];
      order := order + Shas(groups[i].sources);
    }
  }

  // ------------------------------------------------------------------ the facets

  /** The row came from there: by its origin, or else by the folders its path mentions. */
  ghost predicate CameFrom(s: SourceRow, c: Collection) {
    var path := match s.relPath case Some(p) => p case None => "";
    var pinned := s.origin == Some("pinboard") || Mentions(path, "02-Pinboard");
    match c
    case Pinboard => pinned
    case Capture => !pinned && Mentions(path, "00-Capture")
    case Clippings => !pinned && !Mentions(path, "00-Capture")
  }

  ghost predicate Mentions(path: string, folder: string) { exists i: nat :: OccursAt(path, folder, i) }

  /** The row fits every facet that is set; a month is the first seven characters of a date. */
  ghost predicate FitsFacets(f: LibraryFilter, s: SourceRow) {
    && (f.collection.Some? ==> CameFrom(s, f.collection.value))
    && (f.month.Some? ==> f.month.value == match s.date
          case Some(d) => if |d| > 7 then d[..7] else d
          case None => "")
    && (f.status.Some? ==> s.status == f.status.value)
    && (f.tag.Some? ==> f.tag.value in s.tags + s.tagsInferred + s.tagsImplied)
  }

  ghost function Fitting(f: LibraryFilter): SourceRow -> bool { s => FitsFacets(f, s) }

  lemma {:induction false} PassesIff(f: LibraryFilter, s: SourceRow)
    ensures Passes(f, s) <==> FitsFacets(f, s)
  {
    var path := if s.relPath.Some? then s.relPath.value else "";
    ContainsIff(path, "02-Pinboard");
    ContainsIff(path, "00-Capture");
    hide Contains, OccursAt;
  }

  /** The filter keeps, in order, exactly the rows that fit the facets. */
  lemma {:induction false} FilterKeepsFitting(rows: seq<SourceRow>, f: LibraryFilter) returns (at: seq<nat>)
    ensures ListsKept(rows, Fitting(f), at) && NamedAt(rows, Itself, at, FilterSources(rows, f))
  {
    at := FilterPositions(rows, Passing(f));
    forall s ensures Passes(f, s) <==> FitsFacets(f, s) { PassesIff(f, s); }
    hide FitsFacets, Passes;
  }
}
