/** Filtering a list, joining lists, and sizes of finite sets. */
module Collections {

  function Filter<T>(s: seq<T>, keep: T -> bool): seq<T> {
    if s == [] then []
    else
      var rest := Filter(s[..|s| - 1], keep);
      if keep(s[|s| - 1]) then rest + [s[|s| - 1]] else rest
  }

  lemma {:induction false} InitOfConcat<T>(a: seq<T>, b: seq<T>)
    requires b != []
    ensures (a + b)[..|a + b| - 1] == a + b[..|b| - 1] && (a + b)[|a + b| - 1] == b[|b| - 1]
  {
  }

  lemma {:induction false} CutConcat<T>(a: seq<T>, b: seq<T>, k: nat)
    requires k <= |a|
    ensures (a + b)[k..] == a[k..] + b && (a + b)[..k] == a[..k]
  {
  }

  lemma {:induction false} SubsetSize<T>(a: set<T>, b: set<T>)
    requires a <= b
    ensures |a| <= |b|
  {
    if a != {} {
      var x :| x in a;
      SubsetSize(a - {x}, b - {x});
    }
  }

  lemma {:induction false} SubsetOfSameSize<T>(a: set<T>, b: set<T>)
    requires a <= b && |a| == |b|
    ensures a == b
  {
    if a != {} {
      var x :| x in a;
      SubsetOfSameSize(a - {x}, b - {x});
    }
  }

  /** `at` lists, in order, the positions of the elements of `s` to be kept. */
  ghost predicate ListsKept<T>(s: seq<T>, keep: T -> bool, at: seq<nat>) {
    && (forall r | 0 <= r < |at| :: at[r] < |s| && keep(s[at[r]]))
    && (forall r, q | 0 <= r < q < |at| :: at[r] < at[q])
    && forall k: nat | k < |s| && keep(s[k]) :: k in at
  }

  lemma {:induction false} ListsKeptStep<T>(s: seq<T>, keep: T -> bool, at: seq<nat>)
    requires s != [] && ListsKept(s[..|s| - 1], keep, at)
    ensures ListsKept(s, keep, if keep(s[|s| - 1]) then at + [|s| - 1] else at)
  {
    var n := |s| - 1;
    KeptStill(s, keep, at, n);
    hide ListsKept;
    if keep(s[n]) { LastKept(s, keep, at, n); } else { NoneKept(s, keep, at, n); }
  }

  lemma {:induction false} KeptStill<T>(s: seq<T>, keep: T -> bool, at: seq<nat>, n: nat)
    requires |s| == n + 1 && ListsKept(s[..n], keep, at)
    ensures forall r | 0 <= r < |at| :: at[r] < n && keep(s[at[r]])
    ensures forall r, q | 0 <= r < q < |at| :: at[r] < at[q]
    ensures forall k: nat | k < n && keep(s[k]) :: k in at
  {
    var init := s[..n];
    assert forall r | 0 <= r < |at| :: init[at[r]] == s[at[r]];
    forall k: nat | k < n && keep(s[k]) ensures k in at { assert init[k] == s[k]; }
  }

  lemma {:induction false} NoneKept<T>(s: seq<T>, keep: T -> bool, at: seq<nat>, n: nat)
    requires |s| == n + 1 && !keep(s[n]) && forall r | 0 <= r < |at| :: at[r] < n && keep(s[at[r]])
    requires forall r, q | 0 <= r < q < |at| :: at[r] < at[q]
    requires forall k: nat | k < n && keep(s[k]) :: k in at
    ensures ListsKept(s, keep, at)
  {
  }

  lemma {:induction false} LastKept<T>(s: seq<T>, keep: T -> bool, at: seq<nat>, n: nat)
    requires |s| == n + 1 && keep(s[n]) && forall r | 0 <= r < |at| :: at[r] < n && keep(s[at[r]])
    requires forall r, q | 0 <= r < q < |at| :: at[r] < at[q]
    requires forall k: nat | k < n && keep(s[k]) :: k in at
    ensures ListsKept(s, keep, at + [n])
  {
  }

  /** `names` are the names of the elements at the positions `at`. */
  ghost predicate NamedAt<T, U>(s: seq<T>, name: T -> U, at: seq<nat>, names: seq<U>) {
    |at| == |names| && forall r | 0 <= r < |at| :: at[r] < |s| && names[r] == name(s[at[r]])
  }

  lemma {:induction false} NamedStill<T, U>(s: seq<T>, name: T -> U, at: seq<nat>, names: seq<U>)
    requires s != [] && NamedAt(s[..|s| - 1], name, at, names)
    ensures NamedAt(s, name, at, names)
    ensures NamedAt(s, name, at + [|s| - 1], names + [name(s[|s| - 1])])
  {
    var n := |s| - 1;
    assert forall r | 0 <= r < |at| :: at[r] < n && names[r] == name(s[..n][at[r]]) == name(s[at[r]]);
  }

  function Itself<T>(x: T): T { x }

  /** Filtering keeps the elements to be kept, in order. */
  lemma {:induction false} FilterPositions<T>(s: seq<T>, keep: T -> bool) returns (at: seq<nat>)
    ensures ListsKept(s, keep, at) && NamedAt(s, Itself, at, Filter(s, keep))
  {
    at := [];
    if s != [] {
      var n := |s| - 1;
      at := FilterPositions(s[..n], keep);
      hide ListsKept, NamedAt;
      ListsKeptStep(s, keep, at);
      NamedStill(s, Itself, at, Filter(s[..n], keep));
      if keep(s[n]) { at := at + [n]; }
    }
  }

  /** The positions of the elements with `p`. */
  function Positions<T>(s: seq<T>, p: T -> bool): set<nat> { set k: nat | k < |s| && p(s[k]) }

  lemma {:induction false} PositionsStep<T>(s: seq<T>, p: T -> bool)
    requires s != []
    ensures |Positions(s, p)| == |Positions(s[..|s| - 1], p)| + (if p(s[|s| - 1]) then 1 else 0)
  {
    var n := |s| - 1;
    var before := Positions(s[..n], p);
    assert Positions(s, p) == if p(s[n]) then before + {n} else before;
  }
}
