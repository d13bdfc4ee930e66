/** JavaScript's `Array.prototype.sort` is a library routine that is stable since ES2019.
    This module gives it a body and pins it down: `Sort` is the one and only sequence that
    is ordered and keeps every class of ties in its original order. */
module StableSort {

  /** What a comparator must satisfy for a sort to be meaningful. */
  ghost predicate TotalPreorder<T(!new)>(le: (T, T) -> bool) {
    && (forall x, y :: le(x, y) || le(y, x))
    && (forall x, y, z :: le(x, y) && le(y, z) ==> le(x, z))
  }

  ghost predicate Ordered<T>(s: seq<T>, le: (T, T) -> bool) {
    forall i, j | 0 <= i < j < |s| :: le(s[i], s[j])
  }

  /** The elements of `s` that tie with `x`, in the order in which they occur. */
  ghost function Ties<T>(s: seq<T>, x: T, le: (T, T) -> bool): seq<T> {
    if s == [] then []
    else if le(x, s[0]) && le(s[0], x) then [s[0]] + Ties(s[1..], x, le)
    else Ties(s[1..], x, le)
  }

  /** `r` is the stable sort of `s`. */
  ghost predicate IsStableSort<T(!new)>(r: seq<T>, s: seq<T>, le: (T, T) -> bool) {
    Ordered(r, le) && forall x :: Ties(r, x, le) == Ties(s, x, le)
  }

  function Insert<T>(x: T, s: seq<T>, le: (T, T) -> bool): seq<T> {
    if s == [] || le(x, s[0]) then [x] + s else [s[0]] + Insert(x, s[1..], le)
  }

  function Sort<T>(s: seq<T>, le: (T, T) -> bool): seq<T> {
    if s == [] then [] else Insert(s[0], Sort(s[1..], le), le)
  }

  lemma {:induction false} InsertMembers<T(!new)>(x: T, s: seq<T>, le: (T, T) -> bool)
    ensures multiset(Insert(x, s, le)) == multiset(s) + multiset{x}
  {
    if s == [] || le(x, s[0]) {
    } else {
      InsertMembers(x, s[1..], le);
      assert s == [s[0]] + s[1..];
    }
  }

  lemma {:induction false} InsertOrdered<T(!new)>(x: T, s: seq<T>, le: (T, T) -> bool)
    requires TotalPreorder(le) && Ordered(s, le)
    ensures Ordered(Insert(x, s, le), le)
  {
    if s == [] || le(x, s[0]) {
    } else {
      InsertOrdered(x, s[1..], le);
      InsertMembers(x, s[1..], le);
      var rest := Insert(x, s[1..], le);
      forall k | 0 <= k < |rest| ensures le(s[0], rest[k]) {
        assert rest[k] in multiset(rest);
        assert rest[k] == x || rest[k] in s[1..];
      }
    }
  }

  lemma {:induction false} InsertTies<T(!new)>(x: T, s: seq<T>, y: T, le: (T, T) -> bool)
    requires TotalPreorder(le) && Ordered(s, le)
    ensures Ties(Insert(x, s, le), y, le) == Ties([x] + s, y, le)
  {
    if s == [] || le(x, s[0]) {
    } else {
      InsertTies(x, s[1..], y, le);
      assert ([s[0]] + Insert(x, s[1..], le))[1..] == Insert(x, s[1..], le);
      assert ([x] + s)[1..] == s && ([x] + s[1..])[1..] == s[1..];
    }
  }

  lemma {:induction false} SortMembers<T(!new)>(s: seq<T>, le: (T, T) -> bool)
    ensures multiset(Sort(s, le)) == multiset(s) && |Sort(s, le)| == |s|
  {
    if s != [] {
      SortMembers(s[1..], le);
      InsertMembers(s[0], Sort(s[1..], le), le);
      assert s == [s[0]] + s[1..];
    }
    assert |multiset(Sort(s, le))| == |Sort(s, le)| && |multiset(s)| == |s|;
  }

  lemma {:induction false} SortIsStable<T(!new)>(s: seq<T>, le: (T, T) -> bool)
    requires TotalPreorder(le)
    ensures IsStableSort(Sort(s, le), s, le)
  {
    if s != [] {
      SortIsStable(s[1..], le);
      var rest := Sort(s[1..], le);
      InsertOrdered(s[0], rest, le);
      forall x ensures Ties(Sort(s, le), x, le) == Ties(s, x, le) {
        InsertTies(s[0], rest, x, le);
        assert ([s[0]] + rest)[1..] == rest;
      }
    }
  }

  lemma {:induction false} EndsBound<T(!new)>(r: seq<T>, x: T, le: (T, T) -> bool)
    requires TotalPreorder(le) && Ordered(r, le) && x in r
    ensures le(r[0], x) && le(x, r[|r| - 1])
  {
    var k :| 0 <= k < |r| && r[k] == x;
    assert le(x, x);
  }

  /** The ends of a sorted sequence bound its members. */
  lemma {:induction false} SortEnds<T(!new)>(s: seq<T>, x: T, le: (T, T) -> bool)
    requires TotalPreorder(le) && x in s
    ensures var r := Sort(s, le);
      r != [] && r[0] in s && r[|r| - 1] in s && le(r[0], x) && le(x, r[|r| - 1])
  {
    SortIsStable(s, le);
    SortMembers(s, le);
    hide Sort, Ties;
    var r := Sort(s, le);
    assert x in multiset(s) && x in r;
    assert r[0] in multiset(r) && r[|r| - 1] in multiset(r);
    hide IsStableSort;
    EndsBound(r, x, le);
  }

  lemma {:induction false} TiesMembers<T(!new)>(s: seq<T>, x: T, le: (T, T) -> bool)
    ensures forall y :: y in Ties(s, x, le) <==> y in s && le(x, y) && le(y, x)
  {
    if s != [] {
      TiesMembers(s[1..], x, le);
      assert forall y :: y in s <==> y == s[0] || y in s[1..];
    }
  }

  lemma {:induction false} TiesConcat<T(!new)>(a: seq<T>, b: seq<T>, x: T, le: (T, T) -> bool)
    ensures Ties(a + b, x, le) == Ties(a, x, le) + Ties(b, x, le)
  {
    if a == [] {
      assert a + b == b;
    } else {
      TiesConcat(a[1..], b, x, le);
      assert (a + b)[0] == a[0] && (a + b)[1..] == a[1..] + b;
    }
  }

  /** An ordered sequence is determined by its classes of ties. */
  lemma {:induction false} StableSortUnique<T(!new)>(a: seq<T>, b: seq<T>, le: (T, T) -> bool)
    requires TotalPreorder(le) && Ordered(a, le) && Ordered(b, le)
    requires forall x :: Ties(a, x, le) == Ties(b, x, le)
    ensures a == b
  {
    assert b != [] ==> Ties(b, b[0], le) != [];
    if a == [] {
    } else {
      TiesMembers(a, a[0], le);
      TiesMembers(b, a[0], le);
      assert a[0] in Ties(b, a[0], le);
      TiesMembers(a, b[0], le);
      TiesMembers(b, b[0], le);
      assert b[0] in Ties(a, b[0], le);
      assert le(a[0], b[0]) && le(b[0], a[0]);
      assert Ties(a, a[0], le)[0] == a[0] && Ties(b, a[0], le)[0] == b[0];
      forall x ensures Ties(a[1..], x, le) == Ties(b[1..], x, le) {
        assert Ties(a, x, le) == Ties(b, x, le);
        if le(x, a[0]) && le(a[0], x) {
          assert Ties(a[1..], x, le) == Ties(a, x, le)[1..];
          assert Ties(b[1..], x, le) == Ties(b, x, le)[1..];
        }
      }
      StableSortUnique(a[1..], b[1..], le);
      assert a == [a[0]] + a[1..] && b == [b[0]] + b[1..];
    }
  }

  /** Every stable sorting routine returns what `Sort` returns. */
  lemma {:induction false} SortIsTheStableSort<T(!new)>(r: seq<T>, s: seq<T>, le: (T, T) -> bool)
    requires TotalPreorder(le) && IsStableSort(r, s, le)
    ensures r == Sort(s, le)
  {
    SortIsStable(s, le);
    StableSortUnique(r, Sort(s, le), le);
  }

  lemma {:induction false} OrderedHeadIsLeast<T(!new)>(a: seq<T>, b: seq<T>, le: (T, T) -> bool)
    requires TotalPreorder(le) && Ordered(a, le) && multiset(a) == multiset(b) && a != [] && b != []
    ensures le(a[0], b[0])
  {
    assert b[0] in multiset(b) && b[0] in a;
  }

  lemma {:induction false} SameTails<T>(a: seq<T>, b: seq<T>)
    requires a != [] && b != [] && a[0] == b[0] && multiset(a) == multiset(b)
    ensures multiset(a[1..]) == multiset(b[1..])
  {
    assert a == [a[0]] + a[1..] && b == [b[0]] + b[1..];
    assert multiset(a[1..]) == multiset(a) - multiset{a[0]};
  }

  /** Without ties the members alone decide the order. */
  lemma {:induction false} OrderedUnique<T(!new)>(a: seq<T>, b: seq<T>, le: (T, T) -> bool)
    requires forall x, y :: le(x, y) && le(y, x) ==> x == y
    requires TotalPreorder(le) && Ordered(a, le) && Ordered(b, le) && multiset(a) == multiset(b)
    ensures a == b
  {
    if a == [] {
      assert |multiset(b)| == |b|;
    } else {
      assert a[0] in multiset(b) && b != [];
      OrderedHeadIsLeast(a, b, le);
      OrderedHeadIsLeast(b, a, le);
      assert a[0] == b[0];
      SameTails(a, b);
      OrderedUnique(a[1..], b[1..], le);
      assert a == [a[0]] + a[1..] && b == [b[0]] + b[1..];
    }
  }
}
