/** The order in which JavaScript and Python compare strings, character by character.
    Characters stand for code units. */
module Lexicographic {

  predicate LexLe(a: string, b: string) {
    a == [] || (b != [] && (a[0] < b[0] || (a[0] == b[0] && LexLe(a[1..], b[1..]))))
  }

  lemma {:induction false} LexTotal(a: string, b: string)
    ensures LexLe(a, b) || LexLe(b, a)
    ensures LexLe(a, b) && LexLe(b, a) ==> a == b
  {
    if a != [] && b != [] {
      LexTotal(a[1..], b[1..]);
      assert a == [a[0]] + a[1..] && b == [b[0]] + b[1..];
    }
  }

  lemma {:induction false} LexTransitive(a: string, b: string, c: string)
    requires LexLe(a, b) && LexLe(b, c)
    ensures LexLe(a, c)
  {
    if a != [] && a[0] == b[0] && b[0] == c[0] {
      LexTransitive(a[1..], b[1..], c[1..]);
    }
  }

  /** `a` is `b` cut short, or has the smaller character where they first differ. */
  lemma {:induction false} LexLeIff(a: string, b: string) returns (k: nat)
    ensures k <= |a| && k <= |b| && a[..k] == b[..k] && (k < |a| && k < |b| ==> a[k] != b[k])
    ensures LexLe(a, b) <==> k == |a| || (k < |b| && a[k] < b[k])
  {
    if a == [] || b == [] || a[0] != b[0] {
      k := 0;
    } else {
      k := LexLeIff(a[1..], b[1..]);
      assert a[..k + 1] == [a[0]] + a[1..][..k] && b[..k + 1] == [b[0]] + b[1..][..k];
      k := k + 1;
    }
  }

  lemma {:induction false} LexIsTotalPreorder()
    ensures forall a, b :: LexLe(a, b) || LexLe(b, a)
    ensures forall a, b, c :: LexLe(a, b) && LexLe(b, c) ==> LexLe(a, c)
    ensures forall a, b :: LexLe(a, b) && LexLe(b, a) ==> a == b
  {
    forall a, b ensures LexLe(a, b) || LexLe(b, a) { LexTotal(a, b); }
    forall a, b | LexLe(a, b) && LexLe(b, a) ensures a == b { LexTotal(a, b); }
    forall a, b, c | LexLe(a, b) && LexLe(b, c) ensures LexLe(a, c) { LexTransitive(a, b, c); }
  }

  function Prefix(s: string, n: nat): string {
    if |s| <= n then s else s[..n]
  }

  /** Cutting both strings to the same length never reverses their order. */
  lemma {:induction false} PrefixMonotone(a: string, b: string, n: nat)
    requires LexLe(a, b)
    ensures LexLe(Prefix(a, n), Prefix(b, n))
  {
    if a != [] && n > 0 && a[0] == b[0] {
      PrefixMonotone(a[1..], b[1..], n - 1);
      assert Prefix(a, n)[1..] == Prefix(a[1..], n - 1);
      assert Prefix(b, n)[1..] == Prefix(b[1..], n - 1);
    }
  }
}
