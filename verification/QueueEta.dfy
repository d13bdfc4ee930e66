/** Throughput and time-to-drain estimates for the source-work queue. */
module QueueEta {
  import opened Collections
  import opened Options
  import opened Reals
  import opened StableSort

  datatype Status = Queued | Running | Done | Failed | Cancelled

  /** Times are unix seconds. */
  datatype Item = Item(status: Status, createdAt: real, startedAt: Option<real>, finishedAt: Option<real>)

  datatype Sample = Sample(finishedAt: real, durationSec: real)

  datatype Eta = Eta(
    sampleCount: nat, avgSec: real, lastFinished: Option<Item>, remainingUnits: real,
    etaSec: Option<real>, etaAt: Option<real>, runningElapsedSec: Option<real>, reliable: bool)

  const MIN_SAMPLE_SEC := 8.0
  const MAX_SAMPLE_SEC := 10800.0
  const SAMPLE_CAP: nat := 24
  const WEIGHT_HALF_LIFE_SEC := 2700.0

  /** What is used of `x => Math.pow(0.5, x)`. */
  ghost predicate HalvingPower(pow: real -> real) {
    && (forall x :: pow(x) > 0.0)
    && (forall x, y :: pow(x + y) == pow(x) * pow(y))
    && forall x, y :: x < y ==> pow(y) < pow(x)
  }

  lemma {:induction false} PowPositive(pow: real -> real, x: real)
    requires HalvingPower(pow)
    ensures pow(x) > 0.0
  {
  }

  lemma {:induction false} PowOfSum(pow: real -> real, x: real, y: real)
    requires HalvingPower(pow)
    ensures pow(x + y) == pow(x) * pow(y)
  {
  }

  // ------------------------------------------------------------------ samples

  function SampleFromItem(item: Item): Option<Sample> {
    if item.status != Done && item.status != Failed then None
    else if item.finishedAt == None || item.startedAt == None then None
    else
      var dur := item.finishedAt.value - item.startedAt.value;
      if dur < MIN_SAMPLE_SEC || dur > MAX_SAMPLE_SEC then None else Some(Sample(item.finishedAt.value, dur))
  }

  function Samples(items: seq<Item>): seq<Sample> {
    if items == [] then []
    else
      var rest := Samples(items[..|items| - 1]);
      match SampleFromItem(items[|items| - 1])
      case None => rest
      case Some(s) => rest + [s]
  }

  predicate NewestFirst(a: Sample, b: Sample) { a.finishedAt >= b.finishedAt }

  /** The newest samples, at most `SAMPLE_CAP` of them. */
  function Recent(items: seq<Item>): seq<Sample> {
    var sorted := Sort(Samples(items), NewestFirst);
    if |sorted| <= SAMPLE_CAP then sorted else sorted[..SAMPLE_CAP]
  }

  predicate Usable(s: Sample) { MIN_SAMPLE_SEC <= s.durationSec <= MAX_SAMPLE_SEC }

  lemma {:induction false} SamplesAreUsable(items: seq<Item>)
    ensures forall s | s in Samples(items) :: Usable(s)
  {
    if items != [] { SamplesAreUsable(items[..|items| - 1]); }
  }

  /** Newest first, all usable, and no sample left out is newer than one that is used. */
  lemma {:induction false} RecentAreNewest(items: seq<Item>) returns (unused: seq<Sample>)
    ensures var used := Recent(items);
      && multiset(used + unused) == multiset(Samples(items)) && Ordered(used + unused, NewestFirst)
      && (if |Samples(items)| <= 24 then unused == [] else |used| == 24)
      && forall s | s in used :: Usable(s)
  {
    var all := Samples(items);
    assert TotalPreorder(NewestFirst);
    SortIsStable(all, NewestFirst);
    SortMembers(all, NewestFirst);
    SamplesAreUsable(items);
    hide Sort, Ties, TotalPreorder, Usable;
    var sorted := Sort(all, NewestFirst);
    unused := if |sorted| <= SAMPLE_CAP then [] else sorted[SAMPLE_CAP..];
    assert sorted == Recent(items) + unused;
    forall s | s in Recent(items) ensures Usable(s) {
      assert s in sorted && s in multiset(sorted) && s in multiset(all);
    }
  }

  // ------------------------------------------------------------------ the weighted average

  function Weight(pow: real -> real, s: Sample, now: real): real {
    pow(Max(0.0, now - s.finishedAt) / WEIGHT_HALF_LIFE_SEC)
  }

  function TotalWeight(pow: real -> real, samples: seq<Sample>, now: real): real {
    if samples == [] then 0.0
    else TotalWeight(pow, samples[..|samples| - 1], now) + Weight(pow, samples[|samples| - 1], now)
  }

  function WeightedTerm(pow: real -> real, s: Sample, now: real): real { s.durationSec * Weight(pow, s, now) }

  function WeightedTotal(pow: real -> real, samples: seq<Sample>, now: real): real {
    if samples == [] then 0.0
    else
      var s := samples[|samples| - 1];
      WeightedTotal(pow, samples[..|samples| - 1], now) + WeightedTerm(pow, s, now)
  }

  function Average(pow: real -> real, samples: seq<Sample>, now: real): real {
    var den := TotalWeight(pow, samples, now);
    if den > 0.0 then WeightedTotal(pow, samples, now) / den else 0.0
  }

  method WeightedAverageSec(pow: real -> real, samples: seq<Sample>, now: real) returns (avg: real)
    ensures avg == Average(pow, samples, now)
  {
    if |samples| == 0 { return 0.0; }
    var num, den := 0.0, 0.0;
    for i := 0 to |samples|
      invariant num == WeightedTotal(pow, samples[..i], now) && den == TotalWeight(pow, samples[..i], now)
    {
      var s := samples[i];
      assert samples[..i + 1][..i] == samples[..i];
      var age := Max(0.0, now - s.finishedAt);
      var w := pow(age / WEIGHT_HALF_LIFE_SEC);
      num := num + s.durationSec * w;
      den := den + w;
    }
    assert samples[..|samples|] == samples;
    return if den > 0.0 then num / den else 0.0;
  }

  lemma {:induction false} WeightPositive(pow: real -> real, s: Sample, now: real)
    requires HalvingPower(pow)
    ensures Weight(pow, s, now) > 0.0
  {
    hide HalvingPower;
    PowPositive(pow, Max(0.0, now - s.finishedAt) / WEIGHT_HALF_LIFE_SEC);
  }

  predicate Bracketed(num: real, den: real, lo: real, hi: real) { lo * den <= num <= hi * den }

  lemma {:induction false} TermWithin(num: real, den: real, d: real, w: real, term: real, lo: real, hi: real)
    requires Bracketed(num, den, lo, hi) && lo <= d <= hi && w > 0.0 && term == d * w
    ensures Bracketed(num + term, den + w, lo, hi)
  {
    ProductNonnegative(d - lo, w);
    ProductNonnegative(hi - d, w);
  }

  lemma {:induction false} WeightsArePositive(pow: real -> real, samples: seq<Sample>, now: real)
    requires HalvingPower(pow) && samples != []
    ensures TotalWeight(pow, samples, now) > 0.0
  {
    hide HalvingPower;
    var init := samples[..|samples| - 1];
    WeightPositive(pow, samples[|samples| - 1], now);
    if init != [] { WeightsArePositive(pow, init, now); }
  }

  predicate Within(samples: seq<Sample>, lo: real, hi: real) { forall s | s in samples :: lo <= s.durationSec <= hi }

  lemma {:induction false} TotalsWithin(pow: real -> real, samples: seq<Sample>, now: real, lo: real, hi: real)
    requires HalvingPower(pow) && Within(samples, lo, hi)
    ensures Bracketed(WeightedTotal(pow, samples, now), TotalWeight(pow, samples, now), lo, hi)
  {
    hide HalvingPower, Weight;
    if samples != [] {
      var init, s := samples[..|samples| - 1], samples[|samples| - 1];
      assert s in samples && forall t | t in init :: t in samples;
      TotalsWithin(pow, init, now, lo, hi);
      WeightPositive(pow, s, now);
      hide Bracketed;
      TermWithin(WeightedTotal(pow, init, now), TotalWeight(pow, init, now), s.durationSec, Weight(pow, s, now),
          WeightedTerm(pow, s, now), lo, hi);
    }
  }

  lemma {:induction false} QuotientWithin(num: real, den: real, lo: real, hi: real)
    requires den > 0.0 && Bracketed(num, den, lo, hi)
    ensures lo <= num / den <= hi
  {
    var q := num / den;
    assert q * den == num;
    assert (q - lo) * den >= 0.0 && (hi - q) * den >= 0.0;
  }

  /** The average lies between the shortest and the longest sample. */
  lemma {:induction false} AverageWithinSamples(pow: real -> real, samples: seq<Sample>, now: real, lo: real, hi: real)
    requires HalvingPower(pow) && samples != [] && Within(samples, lo, hi)
    ensures lo <= Average(pow, samples, now) <= hi
  {
    WeightsArePositive(pow, samples, now);
    TotalsWithin(pow, samples, now, lo, hi);
    QuotientWithin(WeightedTotal(pow, samples, now), TotalWeight(pow, samples, now), lo, hi);
  }

  predicate NoneInFuture(samples: seq<Sample>, now: real) { forall s | s in samples :: s.finishedAt <= now }

  /** As the clock advances every weight shrinks by the same factor. */
  lemma {:induction false} WeightScales(pow: real -> real, s: Sample, now: real, later: real)
    requires HalvingPower(pow) && s.finishedAt <= now <= later
    ensures Weight(pow, s, later) == pow((later - now) / WEIGHT_HALF_LIFE_SEC) * Weight(pow, s, now)
  {
    hide HalvingPower;
    var a, b := (later - now) / WEIGHT_HALF_LIFE_SEC, (now - s.finishedAt) / WEIGHT_HALF_LIFE_SEC;
    assert (later - s.finishedAt) / WEIGHT_HALF_LIFE_SEC == a + b;
    PowOfSum(pow, a, b);
  }

  lemma {:induction false} ScaleTerm(den: real, num: real, d: real, w: real, c: real, den': real, num': real, w': real)
    requires w' == c * w && den' == c * den && num' == c * num
    ensures den' + w' == c * (den + w) && num' + d * w' == c * (num + d * w)
  {
    assert d * (c * w) == c * (d * w);
  }

  lemma {:induction false} TotalsScale(pow: real -> real, samples: seq<Sample>, now: real, later: real, c: real)
    requires HalvingPower(pow) && NoneInFuture(samples, now) && now <= later
        && c == pow((later - now) / WEIGHT_HALF_LIFE_SEC)
    ensures TotalWeight(pow, samples, later) == c * TotalWeight(pow, samples, now)
    ensures WeightedTotal(pow, samples, later) == c * WeightedTotal(pow, samples, now)
  {
    hide HalvingPower, Weight;
    if samples != [] {
      var init, s := samples[..|samples| - 1], samples[|samples| - 1];
      assert s in samples && forall t | t in init :: t in samples;
      TotalsScale(pow, init, now, later, c);
      WeightScales(pow, s, now, later);
      ScaleTerm(TotalWeight(pow, init, now), WeightedTotal(pow, init, now), s.durationSec, Weight(pow, s, now), c,
        TotalWeight(pow, init, later), WeightedTotal(pow, init, later), Weight(pow, s, later));
    }
  }

  lemma {:induction false} QuotientUnscaled(num: real, den: real, c: real)
    requires den > 0.0 && c > 0.0
    ensures c * den > 0.0 && (c * num) / (c * den) == num / den
  {
    var q := num / den;
    assert q * den == num;
    assert q * (c * den) == c * (q * den);
  }

  lemma {:induction false} EmptyTotals(pow: real -> real, now: real)
    ensures Average(pow, [], now) == 0.0
  {
  }

  /** The average does not depend on the clock, as long as no sample is ahead of it. */
  lemma {:induction false} AverageIgnoresClock(pow: real -> real, samples: seq<Sample>, now: real, later: real)
    requires HalvingPower(pow) && NoneInFuture(samples, now) && now <= later
    ensures Average(pow, samples, later) == Average(pow, samples, now)
  {
    hide HalvingPower, TotalWeight, WeightedTotal;
    if samples == [] {
      EmptyTotals(pow, now);
      EmptyTotals(pow, later);
    } else {
      var c := pow((later - now) / WEIGHT_HALF_LIFE_SEC);
      TotalsScale(pow, samples, now, later, c);
      PowPositive(pow, (later - now) / WEIGHT_HALF_LIFE_SEC);
      WeightsArePositive(pow, samples, now);
      QuotientUnscaled(WeightedTotal(pow, samples, now), TotalWeight(pow, samples, now), c);
    }
  }

  // ------------------------------------------------------------------ samples ahead of the clock

  function Past(samples: seq<Sample>, now: real): seq<Sample> { Filter(samples, (s: Sample) => s.finishedAt <= now) }

  function Ahead(samples: seq<Sample>, now: real): seq<Sample> { Filter(samples, (s: Sample) => s.finishedAt > now) }

  lemma {:induction false} TotalsAppend(pow: real -> real, samples: seq<Sample>, s: Sample, at: real)
    ensures TotalWeight(pow, samples + [s], at) == TotalWeight(pow, samples, at) + Weight(pow, s, at)
    ensures WeightedTotal(pow, samples + [s], at) == WeightedTotal(pow, samples, at) + WeightedTerm(pow, s, at)
  {
    assert (samples + [s])[..|samples|] == samples;
  }

  lemma {:induction false} TotalsSplit(pow: real -> real, samples: seq<Sample>, now: real, at: real)
    ensures TotalWeight(pow, samples, at) == TotalWeight(pow, Past(samples, now), at)
         + TotalWeight(pow, Ahead(samples, now), at)
    ensures WeightedTotal(pow, samples, at)
         == WeightedTotal(pow, Past(samples, now), at) + WeightedTotal(pow, Ahead(samples, now), at)
  {
    hide Weight, WeightedTerm;
    if samples != [] {
      var init, s := samples[..|samples| - 1], samples[|samples| - 1];
      TotalsSplit(pow, init, now, at);
      TotalsAppend(pow, Past(init, now), s, at);
      TotalsAppend(pow, Ahead(init, now), s, at);
    }
  }

  predicate NoneBefore(samples: seq<Sample>, later: real) { forall s | s in samples :: s.finishedAt >= later }

  /** Ahead of the clock every age counts as 0. */
  lemma {:induction false} TotalsAhead(pow: real -> real, samples: seq<Sample>, now: real, later: real)
    requires NoneBefore(samples, later) && now <= later
    ensures TotalWeight(pow, samples, later) == TotalWeight(pow, samples, now)
    ensures WeightedTotal(pow, samples, later) == WeightedTotal(pow, samples, now)
  {
    if samples != [] {
      assert samples[|samples| - 1] in samples && forall s | s in samples[..|samples| - 1] :: s in samples;
      TotalsAhead(pow, samples[..|samples| - 1], now, later);
      WeightAhead(pow, samples[|samples| - 1], now, later);
    }
  }

  lemma {:induction false} WeightAhead(pow: real -> real, s: Sample, now: real, later: real)
    requires now <= later <= s.finishedAt
    ensures Weight(pow, s, later) == Weight(pow, s, now)
  {
  }

  lemma {:induction false} PartMembers(samples: seq<Sample>, now: real)
    ensures NoneInFuture(Past(samples, now), now)
    ensures forall s | s in Ahead(samples, now) :: s in samples && s.finishedAt > now
    ensures forall s | s in samples :: s in Past(samples, now) || s in Ahead(samples, now)
  {
    if samples != [] { PartMembers(samples[..|samples| - 1], now); }
  }

  lemma {:induction false} PowBelowOne(pow: real -> real, x: real)
    requires HalvingPower(pow) && x > 0.0
    ensures 0.0 < pow(x) < 1.0
  {
    assert pow(0.0 + 0.0) == pow(0.0) * pow(0.0) && pow(0.0) > 0.0;
    CancelSquare(pow(0.0));
  }

  lemma {:induction false} CancelSquare(x: real)
    requires x > 0.0 && x == x * x
    ensures x == 1.0
  {
  }

  lemma {:induction false} QuotientOrder(n: real, d: real, m: real, e: real)
    requires d > 0.0 && e > 0.0
    ensures n / d <= m / e <==> Times(n, e) <= Times(m, d)
  {
    var p, q := n / d, m / e;
    assert p * d == n && q * e == m;
    ProductPositive(d, e);
    assert (p * d) * e == p * (d * e) && (q * e) * d == q * (d * e);
    Distribute(p, q, d * e);
    if p <= q { ProductNonnegative(q - p, d * e); } else { ProductPositive(p - q, d * e); Distribute(q, p, d * e); }
  }

  /** Scaling one part of a mixture down moves its mean towards the other part. */
  lemma {:induction false} MixtureMoves(pn: real, pd: real, an: real, ad: real, c: real)
    requires 0.0 < c < 1.0 && pd > 0.0 && ad > 0.0
    ensures c * pd + ad > 0.0 && pd + ad > 0.0
    ensures (c * pn + an) / (c * pd + ad) <= (pn + an) / (pd + ad) <==> an / ad <= pn / pd
    ensures (pn + an) / (pd + ad) <= (c * pn + an) / (c * pd + ad) <==> pn / pd <= an / ad
  {
    ProductPositive(c, pd);
    QuotientOrder(c * pn + an, c * pd + ad, pn + an, pd + ad);
    QuotientOrder(an, ad, pn, pd);
    QuotientOrder(pn + an, pd + ad, c * pn + an, c * pd + ad);
    QuotientOrder(pn, pd, an, ad);
    MixtureIdentity(pn, pd, an, ad, c);
    hide Times;
    var gap := Times(pn, ad) - Times(an, pd);
    ShrunkSign(c, gap);
  }

  lemma {:induction false} ShrunkSign(c: real, gap: real)
    requires c < 1.0
    ensures Times(1.0 - c, gap) >= 0.0 <==> gap >= 0.0
    ensures Times(1.0 - c, gap) <= 0.0 <==> gap <= 0.0
  {
    assert (1.0 - c) * gap == gap * (1.0 - c) && (-gap) * (1.0 - c) == -(gap * (1.0 - c));
    SameSign(gap, 1.0 - c);
    SameSign(-gap, 1.0 - c);
  }

  lemma {:induction false} MixtureIdentity(pn: real, pd: real, an: real, ad: real, c: real)
    ensures Times(pn + an, c * pd + ad) - Times(c * pn + an, pd + ad) == Times(1.0 - c, Times(pn, ad) - Times(an, pd))
  {
    assert (pn + an) * (c * pd + ad) == c * (pn * pd) + pn * ad + c * (an * pd) + an * ad;
    assert (c * pn + an) * (pd + ad) == c * (pn * pd) + c * (pn * ad) + an * pd + an * ad;
    assert (1.0 - c) * (pn * ad - an * pd) == pn * ad - an * pd - c * (pn * ad) + c * (an * pd);
  }

  /** The clock steps from `now` to `later` over no sample's stamp. */
  predicate BetweenStamps(samples: seq<Sample>, now: real, later: real) {
    now < later && forall s | s in samples :: s.finishedAt <= now || s.finishedAt >= later
  }

  /** Between two stamps the average falls, or stays, exactly when all samples lie on one side of the clock or
      those ahead average no more than the past ones: the past weighs less as the clock advances. */
  lemma {:induction false} AverageFallsIff(pow: real -> real, samples: seq<Sample>, now: real, later: real)
    requires HalvingPower(pow) && BetweenStamps(samples, now, later)
    ensures var past, ahead := Past(samples, now), Ahead(samples, now);
      Average(pow, samples, later) <= Average(pow, samples, now)
      <==> past == [] || ahead == [] || Average(pow, ahead, now) <= Average(pow, past, now)
  {
    AverageMoves(pow, samples, now, later);
  }

  /** It stays exactly when all samples lie on one side of the clock or both sides average the same. */
  lemma {:induction false} AverageStaysIff(pow: real -> real, samples: seq<Sample>, now: real, later: real)
    requires HalvingPower(pow) && BetweenStamps(samples, now, later)
    ensures var past, ahead := Past(samples, now), Ahead(samples, now);
      Average(pow, samples, later) == Average(pow, samples, now)
      <==> past == [] || ahead == [] || Average(pow, ahead, now) == Average(pow, past, now)
  {
    AverageMoves(pow, samples, now, later);
  }

  /** `after` lies on the side of `before` on which `ahead` lies of `past`. */
  predicate MovesTowards(before: real, after: real, past: real, ahead: real) {
    (after <= before <==> ahead <= past) && (before <= after <==> past <= ahead)
  }

  lemma {:induction false} AverageMoves(pow: real -> real, samples: seq<Sample>, now: real, later: real)
    requires HalvingPower(pow) && BetweenStamps(samples, now, later)
    ensures Past(samples, now) == [] || Ahead(samples, now) == [] ==>
      Average(pow, samples, later) == Average(pow, samples, now)
    ensures Past(samples, now) != [] && Ahead(samples, now) != [] ==>
      MovesTowards(Average(pow, samples, now), Average(pow, samples, later), Average(pow, Past(samples, now), now),
        Average(pow, Ahead(samples, now), now))
  {
    PartMembers(samples, now);
    hide HalvingPower, TotalWeight, WeightedTotal, Past, Ahead;
    if Ahead(samples, now) == [] {
      AverageIgnoresClock(pow, samples, now, later);
    } else if Past(samples, now) == [] {
      TotalsAhead(pow, samples, now, later);
    } else {
      AverageOfParts(pow, samples, now, later);
    }
  }

  lemma {:induction false} AverageOfParts(pow: real -> real, samples: seq<Sample>, now: real, later: real)
    requires HalvingPower(pow) && BetweenStamps(samples, now, later)
    requires Past(samples, now) != [] && Ahead(samples, now) != []
    ensures MovesTowards(Average(pow, samples, now), Average(pow, samples, later),
              Average(pow, Past(samples, now), now), Average(pow, Ahead(samples, now), now))
  {
    var past, ahead := Past(samples, now), Ahead(samples, now);
    var c := pow((later - now) / WEIGHT_HALF_LIFE_SEC);
    PowBelowOne(pow, (later - now) / WEIGHT_HALF_LIFE_SEC);
    PartMembers(samples, now);
    hide HalvingPower, TotalWeight, WeightedTotal, Past, Ahead, Average, Mixed, Quotient;
    WeightsArePositive(pow, past, now);
    WeightsArePositive(pow, ahead, now);
    TotalsAtBoth(pow, samples, now, later, c);
    MixtureTotals(WeightedTotal(pow, past, now), TotalWeight(pow, past, now), WeightedTotal(pow, ahead, now),
      TotalWeight(pow, ahead, now), c, WeightedTotal(pow, samples, now), TotalWeight(pow, samples, now),
      WeightedTotal(pow, samples, later), TotalWeight(pow, samples, later));
    AverageQuotient(pow, past, now);
    AverageQuotient(pow, ahead, now);
    AverageQuotient(pow, samples, now);
    AverageQuotient(pow, samples, later);
  }

  function Mixed(c: real, part: real, rest: real): real { c * part + rest }

  function Quotient(n: real, d: real): real { if d > 0.0 then n / d else 0.0 }

  /** The totals now and later, from the totals of the two parts now. */
  lemma {:induction false} TotalsAtBoth(pow: real -> real, samples: seq<Sample>, now: real, later: real, c: real)
    requires HalvingPower(pow) && now <= later && c == pow((later - now) / WEIGHT_HALF_LIFE_SEC)
    requires NoneInFuture(Past(samples, now), now) && NoneBefore(Ahead(samples, now), later)
    ensures var past, ahead := Past(samples, now), Ahead(samples, now);
      && TotalWeight(pow, samples, now) == TotalWeight(pow, past, now) + TotalWeight(pow, ahead, now)
      && WeightedTotal(pow, samples, now) == WeightedTotal(pow, past, now) + WeightedTotal(pow, ahead, now)
      && TotalWeight(pow, samples, later) == Mixed(c, TotalWeight(pow, past, now), TotalWeight(pow, ahead, now))
      && WeightedTotal(pow, samples, later) == Mixed(c, WeightedTotal(pow, past, now), WeightedTotal(pow, ahead, now))
  {
    hide HalvingPower, TotalWeight, WeightedTotal, Past, Ahead;
    TotalsSplit(pow, samples, now, now);
    TotalsSplit(pow, samples, now, later);
    TotalsScale(pow, Past(samples, now), now, later, c);
    TotalsAhead(pow, Ahead(samples, now), now, later);
  }

  lemma {:induction false} MixtureTotals(pn: real, pd: real, an: real, ad: real, c: real, n: real, d: real, m: real,
          e: real)
    requires 0.0 < c < 1.0 && pd > 0.0 && ad > 0.0
    requires n == pn + an && d == pd + ad && m == Mixed(c, pn, an) && e == Mixed(c, pd, ad)
    ensures d > 0.0 && e > 0.0
    ensures Quotient(m, e) <= Quotient(n, d) <==> Quotient(an, ad) <= Quotient(pn, pd)
    ensures Quotient(n, d) <= Quotient(m, e) <==> Quotient(pn, pd) <= Quotient(an, ad)
  {
    MixtureMoves(pn, pd, an, ad, c);
  }

  lemma {:induction false} AverageQuotient(pow: real -> real, samples: seq<Sample>, now: real)
    ensures Average(pow, samples, now) == Quotient(WeightedTotal(pow, samples, now), TotalWeight(pow, samples, now))
  {
  }

  // ------------------------------------------------------------------ what the weights are for

  function PlainTotal(samples: seq<Sample>): real {
    if samples == [] then 0.0 else PlainTotal(samples[..|samples| - 1]) + samples[|samples| - 1].durationSec
  }

  /** The older a sample, the longer it took. */
  ghost predicate GettingFaster(samples: seq<Sample>) {
    forall i, j | 0 <= i < j < |samples| :: samples[i].finishedAt >= samples[j].finishedAt
        && samples[i].durationSec <= samples[j].durationSec
  }

  lemma {:induction false} DivideMonotone(a: real, b: real, t: real)
    requires a <= b && t > 0.0
    ensures a / t <= b / t
  {
    OrderWithoutFactor(a / t, b / t, t);
  }

  lemma {:induction false} OlderWeighsLess(pow: real -> real, newer: Sample, older: Sample, now: real)
    requires HalvingPower(pow) && newer.finishedAt >= older.finishedAt
    ensures Weight(pow, older, now) <= Weight(pow, newer, now)
  {
    var a, b := Max(0.0, now - newer.finishedAt), Max(0.0, now - older.finishedAt);
    DivideMonotone(a, b, WEIGHT_HALF_LIFE_SEC);
  }

  /** `n * num <= den * plain` and `num + n * w * d <= den * d + w * plain`, as one name each. */
  predicate MeanBelow(n: real, num: real, den: real, plain: real) { n * num <= den * plain }

  predicate CrossBelow(n: real, num: real, den: real, plain: real, w: real, d: real) {
    num + n * (w * d) <= den * d + w * plain
  }

  lemma {:induction false} CrossStep(n: real, num: real, den: real, plain: real, w: real, d: real, wi: real,
          di: real, term: real)
    requires CrossBelow(n, num, den, plain, w, d) && w <= wi && di <= d && term == di * wi
    ensures CrossBelow(n + 1.0, num + term, den + wi, plain + di, w, d)
  {
    ProductNonnegative(wi - w, d - di);
    assert (wi - w) * (d - di) == wi * d - di * wi - w * d + w * di;
  }

  lemma {:induction false} MeanStep(n: real, num: real, den: real, plain: real, w: real, d: real, term: real)
    requires MeanBelow(n, num, den, plain) && CrossBelow(n, num, den, plain, w, d) && term == d * w
    ensures MeanBelow(n + 1.0, num + term, den + w, plain + d)
  {
    assert (n + 1.0) * (num + w * d) == n * num + num + n * (w * d) + w * d;
    assert (den + w) * (plain + d) == den * plain + den * d + w * plain + w * d;
  }

  lemma {:induction false} CrossTotals(pow: real -> real, samples: seq<Sample>, now: real, last: Sample)
    requires HalvingPower(pow) && forall s | s in samples ::
        s.finishedAt >= last.finishedAt && s.durationSec <= last.durationSec
    ensures CrossBelow(|samples| as real, WeightedTotal(pow, samples, now), TotalWeight(pow, samples, now),
        PlainTotal(samples),
              Weight(pow, last, now), last.durationSec)
  {
    hide HalvingPower, Weight;
    if samples != [] {
      var init, s := samples[..|samples| - 1], samples[|samples| - 1];
      assert s in samples && forall t | t in init :: t in samples;
      CrossTotals(pow, init, now, last);
      OlderWeighsLess(pow, s, last, now);
      hide CrossBelow;
      CrossStep(|init| as real, WeightedTotal(pow, init, now), TotalWeight(pow, init, now), PlainTotal(init),
        Weight(pow, last, now), last.durationSec, Weight(pow, s, now), s.durationSec, WeightedTerm(pow, s, now));
      assert |samples| as real == |init| as real + 1.0;
    }
  }

  lemma {:induction false} MeanOfNone(pow: real -> real, now: real)
    ensures MeanBelow(0.0, WeightedTotal(pow, [], now), TotalWeight(pow, [], now), PlainTotal([]))
  {
  }

  lemma {:induction false} MeanTotals(pow: real -> real, samples: seq<Sample>, now: real)
    requires HalvingPower(pow) && GettingFaster(samples)
    ensures MeanBelow(|samples| as real, WeightedTotal(pow, samples, now), TotalWeight(pow, samples, now),
        PlainTotal(samples))
  {
    hide HalvingPower, Weight, WeightedTotal, TotalWeight, PlainTotal, MeanBelow, CrossBelow;
    if samples == [] {
      MeanOfNone(pow, now);
    } else {
      var init, s := samples[..|samples| - 1], samples[|samples| - 1];
      assert forall t | t in init :: t.finishedAt >= s.finishedAt && t.durationSec <= s.durationSec;
      assert GettingFaster(init);
      MeanTotals(pow, init, now);
      CrossTotals(pow, init, now, s);
      MeanTotalsStep(pow, samples, now);
    }
  }

  lemma {:induction false} MeanTotalsStep(pow: real -> real, samples: seq<Sample>, now: real)
    requires samples != []
    requires var init, s := samples[..|samples| - 1], samples[|samples| - 1];
      && MeanBelow(|init| as real, WeightedTotal(pow, init, now), TotalWeight(pow, init, now), PlainTotal(init))
      && CrossBelow(|init| as real, WeightedTotal(pow, init, now), TotalWeight(pow, init, now), PlainTotal(init),
           Weight(pow, s, now), s.durationSec)
    ensures MeanBelow(|samples| as real, WeightedTotal(pow, samples, now), TotalWeight(pow, samples, now),
        PlainTotal(samples))
  {
    hide MeanBelow, CrossBelow, Weight;
    var init, s := samples[..|samples| - 1], samples[|samples| - 1];
    MeanStep(|init| as real, WeightedTotal(pow, init, now), TotalWeight(pow, init, now), PlainTotal(init),
        Weight(pow, s, now), s.durationSec,
      WeightedTerm(pow, s, now));
    assert |samples| as real == |init| as real + 1.0;
  }

  lemma {:induction false} MeanQuotient(n: real, num: real, den: real, plain: real)
    requires MeanBelow(n, num, den, plain) && n > 0.0 && den > 0.0
    ensures num / den <= plain / n
  {
    var q, m := num / den, plain / n;
    assert q * den == num && m * n == plain;
    Rotate(n, q, den);
    Rotate(den, m, n);
    assert q * (n * den) <= m * (n * den);
    OrderWithoutFactor(q, m, n * den);
  }

  lemma {:induction false} Rotate(x: real, y: real, z: real)
    ensures x * (y * z) == y * (x * z) == y * (z * x)
  {
  }

  /** Recent articles pull the average: when articles have been getting faster it is at most the plain mean. */
  lemma {:induction false} RecentSamplesPull(pow: real -> real, samples: seq<Sample>, now: real)
    requires HalvingPower(pow) && samples != [] && GettingFaster(samples)
    ensures Average(pow, samples, now) <= PlainTotal(samples) / |samples| as real
  {
    MeanTotals(pow, samples, now);
    WeightsArePositive(pow, samples, now);
    MeanQuotient(|samples| as real, WeightedTotal(pow, samples, now), TotalWeight(pow, samples, now),
        PlainTotal(samples));
  }

  // ------------------------------------------------------------------ the estimate

  function CountQueued(items: seq<Item>): nat {
    if items == [] then 0
    else CountQueued(items[..|items| - 1]) + if items[|items| - 1].status == Queued then 1 else 0
  }

  /** `items.find(i => i.status === 'running')`. */
  function FirstRunning(items: seq<Item>): Option<Item> {
    if items == [] then None else if items[0].status == Running then Some(items[0]) else FirstRunning(items[1..])
  }

  predicate IsFinished(i: Item) {
    (i.status == Done || i.status == Failed || i.status == Cancelled) && i.finishedAt.Some?
  }

  /** Among the finished items the first one with the latest finish, whatever its status. */
  ghost predicate IsLastFinished(items: seq<Item>, last: Option<Item>) {
    match last
    case None => forall i | i in items :: !IsFinished(i)
    case Some(l) => exists k: nat :: IsLatest(items, k, l)
  }

  ghost predicate IsLatest(items: seq<Item>, k: nat, l: Item) {
    && k < |items| && items[k] == l && IsFinished(l)
    && (forall j | 0 <= j < k && IsFinished(items[j]) :: items[j].finishedAt.value < l.finishedAt.value)
    && forall j | k < j < |items| && IsFinished(items[j]) :: items[j].finishedAt.value <= l.finishedAt.value
  }

  method LastFinished(items: seq<Item>) returns (last: Option<Item>)
    ensures IsLastFinished(items, last)
  {
    last := None;
    ghost var at: nat := 0;
    for i := 0 to |items|
      invariant last == None ==> forall j | 0 <= j < i :: !IsFinished(items[j])
      invariant last.Some? ==> at < i && IsLatest(items[..i], at, last.value)
    {
      if IsFinished(items[i]) && (last == None || items[i].finishedAt.value > last.value.finishedAt.value) {
        last := Some(items[i]);
        at := i;
      }
    }
    assert items[..|items|] == items;
  }

  function StartOf(running: Item): real {
    if running.startedAt.Some? then running.startedAt.value else running.createdAt
  }

  /** The seconds the running article has been at it. */
  function Elapsed(running: Item, now: real): real {
    Max(0.0, now - StartOf(running))
  }

  /** The share of an article that is still to be done. */
  function RunningUnits(avg: real, elapsed: real): real {
    if avg > 0.0 then Max(0.12 * avg, avg - elapsed) / avg else 1.0
  }

  function RemainingUnits(items: seq<Item>, avg: real, now: real): real {
    CountQueued(items) as real +
    match FirstRunning(items)
    case None => 0.0
    case Some(r) => RunningUnits(avg, Elapsed(r, now))
  }

  /** `Math.round`. */
  function Round(x: real): int { (x + 0.5).Floor }

  function Times(avg: real, units: real): real { avg * units }

  /** The seconds until the queue drains, if the estimate is to be trusted. */
  function EtaSec(reliable: bool, avg: real, units: real): Option<real> {
    if !reliable then None else if units > 0.0 then Some(Times(avg, units)) else Some(0.0)
  }

  function AverageOf(pow: real -> real, items: seq<Item>, now: real): real { Average(pow, Recent(items), now) }

  predicate Reliable(pow: real -> real, items: seq<Item>, now: real) {
    |Recent(items)| >= 2 && AverageOf(pow, items, now) >= MIN_SAMPLE_SEC
  }

  /** The estimate the queue page shows. */
  function Remaining(pow: real -> real, items: seq<Item>, now: real): Option<real> {
    EtaSec(Reliable(pow, items, now), AverageOf(pow, items, now),
        RemainingUnits(items, AverageOf(pow, items, now), now))
  }

  method ComputeWorkQueueEta(pow: real -> real, items: seq<Item>, now: real) returns (eta: Eta)
    ensures eta.sampleCount == |Recent(items)| && eta.avgSec == AverageOf(pow, items, now)
    ensures IsLastFinished(items, eta.lastFinished)
    ensures eta.remainingUnits == RemainingUnits(items, eta.avgSec, now)
    ensures eta.runningElapsedSec == match FirstRunning(items) case None => None case Some(r) => Some(Elapsed(r, now))
    ensures eta.reliable == Reliable(pow, items, now) && eta.etaSec == Remaining(pow, items, now)
    ensures eta.etaAt == if eta.etaSec == None then None else Some(now + Round(eta.etaSec.value) as real)
  {
    var samples: seq<Sample> := [];
    var queued := 0;
    for i := 0 to |items|
      invariant samples == Samples(items[..i]) && queued == CountQueued(items[..i])
    {
      assert items[..i + 1][..i] == items[..i];
      var s := SampleFromItem(items[i]);
      if s.Some? { samples := samples + [s.value]; }
      if items[i].status == Queued { queued := queued + 1; }
    }
    assert items[..|items|] == items;
    hide Samples, CountQueued, Sort, Average, FirstRunning, IsLastFinished, RunningUnits;
    samples := Sort(samples, NewestFirst);
    var capped := if |samples| <= SAMPLE_CAP then samples else samples[..SAMPLE_CAP];
    var avg := WeightedAverageSec(pow, capped, now);
    var last := LastFinished(items);
    var running := FirstRunning(items);
    var runningElapsed := None;
    var remainingUnits := queued as real;
    if running.Some? {
      var elapsed := Elapsed(running.value, now);
      runningElapsed := Some(elapsed);
      remainingUnits := remainingUnits + RunningUnits(avg, elapsed);
    }
    assert remainingUnits == RemainingUnits(items, avg, now) && capped == Recent(items);
    var reliable := |capped| >= 2 && avg >= MIN_SAMPLE_SEC;
    var etaSec, etaAt := None, None;
    if reliable && remainingUnits > 0.0 {
      etaSec := Some(Times(avg, remainingUnits));
      etaAt := Some(now + Round(etaSec.value) as real);
    } else if reliable {
      etaSec := Some(0.0);
      etaAt := Some(now);
    }
    assert etaSec == EtaSec(reliable, avg, remainingUnits);
    eta := Eta(|capped|, avg, last, remainingUnits, etaSec, etaAt, runningElapsed, reliable);
  }

  /** The test on the average never fails: two samples are enough. */
  lemma {:induction false} TwoSamplesAreReliable(pow: real -> real, items: seq<Item>, now: real)
    requires HalvingPower(pow)
    ensures Reliable(pow, items, now) <==> |Recent(items)| >= 2
    ensures Recent(items) != [] ==> MIN_SAMPLE_SEC <= AverageOf(pow, items, now) <= MAX_SAMPLE_SEC
    ensures Recent(items) == [] ==> AverageOf(pow, items, now) == 0.0
  {
    hide HalvingPower;
    var unused := RecentAreNewest(items);
    hide Recent, Average;
    if Recent(items) != [] {
      AverageWithinSamples(pow, Recent(items), now, MIN_SAMPLE_SEC, MAX_SAMPLE_SEC);
    } else {
      EmptyTotals(pow, now);
    }
  }

  /** A running article counts for at least 0.12 and at most one unit. */
  lemma {:induction false} RunningUnitsRange(avg: real, elapsed: real)
    requires elapsed >= 0.0
    ensures 0.12 <= RunningUnits(avg, elapsed) <= 1.0
    ensures avg > 0.0 ==> avg * RunningUnits(avg, elapsed) == Max(0.12 * avg, avg - elapsed)
  {
    if avg > 0.0 { QuotientWithin(Max(0.12 * avg, avg - elapsed), avg, 0.12, 1.0); }
  }

  /** What is left of the running article, in seconds. */
  function RunningSec(items: seq<Item>, avg: real, now: real): real {
    match FirstRunning(items)
    case None => 0.0
    case Some(r) => Max(0.12 * avg, avg - Elapsed(r, now))
  }

  function DrainSec(items: seq<Item>, avg: real, now: real): real {
    Times(avg, CountQueued(items) as real) + RunningSec(items, avg, now)
  }

  /** The estimate: a full average for each queued article and the rest of the running one. */
  lemma {:induction false} RemainingIs(pow: real -> real, items: seq<Item>, now: real)
    requires HalvingPower(pow)
    ensures Remaining(pow, items, now).Some? <==> |Recent(items)| >= 2
    ensures var avg := AverageOf(pow, items, now);
      |Recent(items)| >= 2 ==> avg >= MIN_SAMPLE_SEC && Remaining(pow, items, now) == Some(DrainSec(items, avg, now))
  {
    TwoSamplesAreReliable(pow, items, now);
    hide HalvingPower, Recent, AverageOf, RemainingUnits, DrainSec;
    if |Recent(items)| >= 2 {
      var avg := AverageOf(pow, items, now);
      SecondsOfUnits(items, avg, now);
      hide Times;
      if RemainingUnits(items, avg, now) == 0.0 { OneMore(avg, 0.0); }
      assert EtaSec(true, avg, RemainingUnits(items, avg, now)) == Some(DrainSec(items, avg, now));
    }
  }

  lemma {:induction false} SecondsOfUnits(items: seq<Item>, avg: real, now: real)
    requires avg > 0.0
    ensures var units := RemainingUnits(items, avg, now);
      units >= 0.0 && Times(avg, units) == DrainSec(items, avg, now)
  {
    hide CountQueued, RunningUnits;
    var running := FirstRunning(items);
    if running.Some? {
      RunningUnitsRange(avg, Elapsed(running.value, now));
      var u := RunningUnits(avg, Elapsed(running.value, now));
      assert avg * (CountQueued(items) as real + u) == avg * CountQueued(items) as real + avg * u;
    }
  }

  /** While nothing in the queue changes and the average stays, the estimate never rises, and never falls faster
      than the clock runs. */
  lemma {:induction false} EstimateFallsWithTheClock(pow: real -> real, items: seq<Item>, now: real, later: real)
    requires HalvingPower(pow) && now <= later && AverageOf(pow, items, later) == AverageOf(pow, items, now)
    ensures Remaining(pow, items, later).Some? == Remaining(pow, items, now).Some?
    ensures Remaining(pow, items, now).Some? ==>
      Remaining(pow, items, now).value - (later - now) <= Remaining(pow, items, later).value
      && Remaining(pow, items, later).value <= Remaining(pow, items, now).value
  {
    RemainingIs(pow, items, now);
    RemainingIs(pow, items, later);
    DrainDiffers(items, AverageOf(pow, items, now), now, later);
    hide HalvingPower, Recent, Remaining, DrainSec, AverageOf;
  }

  /** Samples ahead of the clock can raise the estimate only by raising the average. */
  lemma {:induction false} EstimateFollowsAverage(pow: real -> real, items: seq<Item>, now: real, later: real)
    requires HalvingPower(pow) && now <= later && AverageOf(pow, items, later) <= AverageOf(pow, items, now)
    ensures Remaining(pow, items, later).Some? == Remaining(pow, items, now).Some?
    ensures Remaining(pow, items, now).Some? ==> Remaining(pow, items, later).value <= Remaining(pow, items, now).value
  {
    RemainingIs(pow, items, now);
    RemainingIs(pow, items, later);
    hide HalvingPower, Recent, Remaining, AverageOf, CountQueued, Times;
    TimesOrder(AverageOf(pow, items, later), AverageOf(pow, items, now), CountQueued(items) as real);
  }

  lemma {:induction false} TimesOrder(a: real, b: real, n: real)
    requires a <= b && n >= 0.0
    ensures Times(a, n) <= Times(b, n)
  {
    ProductNonnegative(b - a, n);
    Distribute(a, b, n);
  }

  /** Only the running article's part moves. */
  lemma {:induction false} DrainDiffers(items: seq<Item>, avg: real, now: real, later: real)
    requires now <= later
    ensures DrainSec(items, avg, now) - DrainSec(items, avg, later)
         == RunningSec(items, avg, now) - RunningSec(items, avg, later)
    ensures 0.0 <= RunningSec(items, avg, now) - RunningSec(items, avg, later) <= later - now
  {
  }

  /** While the average stays, the predicted clock time stands still exactly while the running article has begun
      and is within the first 88 % of an average article, and moves with the clock exactly when nothing runs, when
      the article is past that, or when its start is still ahead. */
  lemma {:induction false} PredictionStandsStillThenDrifts(pow: real -> real, items: seq<Item>, now: real, later: real)
    requires HalvingPower(pow) && now < later && AverageOf(pow, items, later) == AverageOf(pow, items, now)
    requires Remaining(pow, items, now).Some?
    ensures Remaining(pow, items, later).Some?
    ensures var avg, running := AverageOf(pow, items, now), FirstRunning(items);
      later + Remaining(pow, items, later).value == now + Remaining(pow, items, now).value
      <==> running.Some? && StartOf(running.value) <= now && later - StartOf(running.value) <= 0.88 * avg
    ensures var avg, running := AverageOf(pow, items, now), FirstRunning(items);
      Remaining(pow, items, later) == Remaining(pow, items, now)
      <==> running == None || now - StartOf(running.value) >= 0.88 * avg || StartOf(running.value) >= later
  {
    RemainingIs(pow, items, now);
    RemainingIs(pow, items, later);
    DrainDiffers(items, AverageOf(pow, items, now), now, later);
    hide HalvingPower, Recent, Remaining, DrainSec, AverageOf;
  }

  lemma {:induction false} OneMore(avg: real, n: real)
    ensures Times(avg, n + 1.0) == Times(avg, n) + avg && Times(avg, 0.0) == 0.0
  {
  }

  /** Queueing one more article, anywhere, adds exactly one average article. */
  lemma {:induction false} LongerQueueTakesLonger(pow: real -> real, before: seq<Item>, item: Item, after: seq<Item>,
          now: real)
    requires HalvingPower(pow) && item.status == Queued
    ensures var short, long := Remaining(pow, before + after, now), Remaining(pow, before + [item] + after, now);
      long == if short == None then None else Some(short.value + AverageOf(pow, before + after, now))
  {
    var short, long := before + after, before + [item] + after;
    QueuedChangesOnlyTheCount(before, item, after);
    RemainingIs(pow, short, now);
    RemainingIs(pow, long, now);
    hide HalvingPower, Remaining, CountQueued, FirstRunning, Average, Samples, Sort;
    var avg := AverageOf(pow, short, now);
    var n := CountQueued(short) as real;
    assert CountQueued(long) as real == n + 1.0;
    OneMore(avg, n);
    hide Times, RunningSec, AverageOf, Recent;
    assert DrainSec(long, avg, now) == DrainSec(short, avg, now) + avg;
  }

  lemma {:induction false} QueuedChangesOnlyTheCount(before: seq<Item>, item: Item, after: seq<Item>)
    requires item.status == Queued
    ensures var short, long := before + after, before + [item] + after;
      CountQueued(long) == CountQueued(short) + 1 && Samples(long) == Samples(short)
          && FirstRunning(long) == FirstRunning(short)
  {
    CountWithQueued(before, item, after);
    SamplesWithQueued(before, item, after);
    hide CountQueued, Samples;
    RunningConcat(before, [item] + after);
    RunningConcat(before, after);
    assert ([item] + after)[1..] == after && before + ([item] + after) == before + [item] + after;
  }

  lemma {:induction false} CountWithQueued(before: seq<Item>, item: Item, after: seq<Item>)
    requires item.status == Queued
    ensures CountQueued(before + [item] + after) == CountQueued(before + after) + 1
  {
    if after == [] {
      assert before + after == before && before + [item] + after == before + [item];
      InitOfConcat(before, [item]);
      assert before + [item][..0] == before;
    } else {
      InitOfConcat(before, after);
      InitOfConcat(before + [item], after);
      CountWithQueued(before, item, after[..|after| - 1]);
    }
  }

  lemma {:induction false} SamplesWithQueued(before: seq<Item>, item: Item, after: seq<Item>)
    requires item.status == Queued
    ensures Samples(before + [item] + after) == Samples(before + after)
  {
    if after == [] {
      assert before + after == before && before + [item] + after == before + [item];
      InitOfConcat(before, [item]);
      assert before + [item][..0] == before;
    } else {
      InitOfConcat(before, after);
      InitOfConcat(before + [item], after);
      SamplesWithQueued(before, item, after[..|after| - 1]);
    }
  }

  lemma {:induction false} RunningConcat(a: seq<Item>, b: seq<Item>)
    ensures FirstRunning(a + b) == if FirstRunning(a).Some? then FirstRunning(a) else FirstRunning(b)
  {
    if a == [] {
      assert a + b == b;
    } else {
      RunningConcat(a[1..], b);
      assert (a + b)[1..] == a[1..] + b;
    }
  }

  /** The contract of the search leaves one answer. */
  lemma {:induction false} LastFinishedUnique(items: seq<Item>, a: Option<Item>, b: Option<Item>)
    requires IsLastFinished(items, a) && IsLastFinished(items, b)
    ensures a == b
  {
    if a.Some? {
      var j: nat :| IsLatest(items, j, a.value);
      assert items[j] in items;
    }
    if b.Some? {
      var k: nat :| IsLatest(items, k, b.value);
      assert items[k] in items;
    }
  }

  /** Item `d` is done, finished last, and the first such item. */
  ghost predicate IsFirstLatestDone(items: seq<Item>, d: nat) {
    && d < |items| && items[d].status == Done && IsFinished(items[d])
    && (forall k | 0 <= k < |items| && IsFinished(items[k]) :: items[k].finishedAt.value <= items[d].finishedAt.value)
    && forall k | 0 <= k < d && IsFinished(items[k]) && items[k].status == Done ::
         items[k].finishedAt != items[d].finishedAt
  }

  /** Of the items that finished last a done one is preferred exactly when no other is listed before it. */
  lemma {:induction false} DoneIsPreferredIff(items: seq<Item>, last: Option<Item>, d: nat)
    requires IsLastFinished(items, last) && IsFirstLatestDone(items, d)
    ensures last.Some? && (last.value.status == Done
      <==> forall k | 0 <= k < d && IsFinished(items[k]) :: items[k].finishedAt != items[d].finishedAt)
  {
    assert items[d] in items;
    var j: nat :| IsLatest(items, j, last.value);
  }

  /** For every list: the last finished item is done exactly when the first item with the latest finish is. */
  lemma {:induction false} LastIsDoneIff(items: seq<Item>, last: Option<Item>)
    requires IsLastFinished(items, last)
    ensures last.Some? && last.value.status == Done <==> exists k: nat ::
        k < |items| && IsLatest(items, k, items[k]) && items[k].status == Done
  {
    if last.Some? {
      var j: nat :| IsLatest(items, j, last.value);
    }
    forall k: nat | k < |items| && IsLatest(items, k, items[k]) ensures last == Some(items[k]) {
      LastFinishedUnique(items, last, Some(items[k]));
    }
  }

  /** The latest finish wins even if it failed and an equally late article is done. */
  lemma {:induction false} FailureCanHideSuccess(failed: Item, done: Item, last: Option<Item>)
    requires failed.status == Failed && done.status == Done && failed.finishedAt.Some?
        && done.finishedAt == failed.finishedAt
    requires IsLastFinished([failed, done], last)
    ensures last == Some(failed)
  {
    assert failed in [failed, done];
    var k: nat :| IsLatest([failed, done], k, last.value);
    assert [failed, done][0] == failed;
  }

  // ------------------------------------------------------------------ the estimate, in terms of the queue

  /** A finished or failed article with both stamps that took between 8 seconds and 3 hours. */
  predicate IsUsable(i: Item) {
    && (i.status == Done || i.status == Failed) && i.startedAt.Some? && i.finishedAt.Some?
    && 8.0 <= i.finishedAt.value - i.startedAt.value <= 3.0 * 3600.0
  }

  ghost predicate SampledAt(items: seq<Item>, at: seq<nat>, samples: seq<Sample>) {
    |at| == |samples| && forall r | 0 <= r < |at| ::
      at[r] < |items| && IsUsable(items[at[r]])
      && samples[r].finishedAt == items[at[r]].finishedAt.value
      && samples[r].durationSec == items[at[r]].finishedAt.value - items[at[r]].startedAt.value
  }

  lemma {:induction false} SampledStill(items: seq<Item>, at: seq<nat>, samples: seq<Sample>)
    requires items != [] && SampledAt(items[..|items| - 1], at, samples)
    ensures SampledAt(items, at, samples)
    ensures var n := |items| - 1; SampleFromItem(items[n]).Some? ==>
      SampledAt(items, at + [n], samples + [SampleFromItem(items[n]).value])
    ensures SampleFromItem(items[|items| - 1]).Some? <==> IsUsable(items[|items| - 1])
  {
    var n := |items| - 1;
    assert forall r | 0 <= r < |at| :: at[r] < n && items[..n][at[r]] == items[at[r]];
  }

  /** The samples are, in order, the finish times and durations of exactly the usable articles. */
  lemma {:induction false} SamplesAre(items: seq<Item>) returns (at: seq<nat>)
    ensures ListsKept(items, IsUsable, at) && SampledAt(items, at, Samples(items))
  {
    at := [];
    if items != [] {
      var n := |items| - 1;
      at := SamplesAre(items[..n]);
      SampledStill(items, at, Samples(items[..n]));
      ListsKeptStep(items, IsUsable, at);
      hide ListsKept, SampledAt, SampleFromItem, IsUsable;
      if IsUsable(items[n]) { at := at + [n]; }
    }
  }

  /** The average times the total of the weights is the total of the weighted durations; a weight is the power of one
      half to the age in units of 45 minutes, and of 0 for samples ahead of the clock. */
  lemma {:induction false} AverageIsWeightedMean(pow: real -> real, samples: seq<Sample>, now: real,
          weights: int -> real, terms: int -> real)
    requires HalvingPower(pow) && samples != []
    requires forall k | 0 <= k < |samples| :: var age := now - samples[k].finishedAt;
      weights(k) == pow((if age > 0.0 then age else 0.0) / (45.0 * 60.0))
    requires forall k | 0 <= k < |samples| :: terms(k) == samples[k].durationSec * weights(k)
    ensures Sum(weights, 0, |samples|) > 0.0
    ensures Average(pow, samples, now) * Sum(weights, 0, |samples|) == Sum(terms, 0, |samples|)
  {
    hide HalvingPower, TotalWeight, WeightedTotal;
    WeightsArePositive(pow, samples, now);
    forall k | 0 <= k < |samples|
      ensures weights(k) == Weight(pow, samples[k], now) && terms(k) == WeightedTerm(pow, samples[k], now)
    {
      assert 45.0 * 60.0 == WEIGHT_HALF_LIFE_SEC;
    }
    hide Weight, WeightedTerm;
    TotalsAreSums(pow, samples, now, weights, terms);
    QuotientTimes(WeightedTotal(pow, samples, now), TotalWeight(pow, samples, now));
  }

  lemma {:induction false} QuotientTimes(num: real, den: real)
    requires den > 0.0
    ensures num / den * den == num
  {
  }

  lemma {:induction false} TotalsAreSums(pow: real -> real, samples: seq<Sample>, now: real, weights: int -> real,
          terms: int -> real)
    requires forall k | 0 <= k < |samples| :: weights(k) == Weight(pow, samples[k], now)
    requires forall k | 0 <= k < |samples| :: terms(k) == WeightedTerm(pow, samples[k], now)
    ensures TotalWeight(pow, samples, now) == Sum(weights, 0, |samples|)
    ensures WeightedTotal(pow, samples, now) == Sum(terms, 0, |samples|)
  {
    hide Weight, WeightedTerm;
    if samples != [] {
      var n := |samples| - 1;
      assert forall k | 0 <= k < n :: samples[..n][k] == samples[k];
      TotalsAreSums(pow, samples[..n], now, weights, terms);
    }
  }

  /** A sample 45 minutes older weighs half as much. */
  lemma {:induction false} WeightHalves(pow: real -> real, newer: Sample, older: Sample, now: real)
    requires HalvingPower(pow) && pow(1.0) == 0.5
    requires newer.finishedAt <= now && older.finishedAt == newer.finishedAt - 45.0 * 60.0
    ensures Weight(pow, older, now) == Weight(pow, newer, now) / 2.0
  {
    hide HalvingPower;
    var age := now - newer.finishedAt;
    assert (age + 2700.0) / 2700.0 == age / 2700.0 + 1.0;
    PowOfSum(pow, age / 2700.0, 1.0);
  }

  predicate IsQueued(i: Item) { i.status == Queued }

  lemma {:induction false} QueuedAre(items: seq<Item>)
    ensures CountQueued(items) == |Positions(items, IsQueued)|
  {
    if items != [] {
      QueuedAre(items[..|items| - 1]);
      PositionsStep(items, IsQueued);
      hide Positions;
    }
  }

  lemma {:induction false} RunningIs(items: seq<Item>, k: nat)
    requires k <= |items| && (forall j | 0 <= j < k :: items[j].status != Running)
    requires k < |items| ==> items[k].status == Running
    ensures FirstRunning(items) == if k < |items| then Some(items[k]) else None
  {
    if k > 0 { RunningIs(items[1..], k - 1); }
  }

  /** With two usable articles or more the estimate is an average for each queued article, and for the first running one
      the average less the time since its start, or since its creation if it has no start, but at least 12 % of the
      average. With fewer there is none. */
  lemma {:induction false} EstimateInSeconds(pow: real -> real, items: seq<Item>, now: real, k: nat, since: real,
          rest: real)
    requires HalvingPower(pow) && k <= |items| && (forall j | 0 <= j < k :: items[j].status != Running)
    requires k < |items| ==> items[k].status == Running
    requires k < |items| ==> since == (match items[k].startedAt case Some(t) => t case None => items[k].createdAt)
    requires var avg := AverageOf(pow, items, now);
      var left := if now > since then avg - (now - since) else avg;
      rest == if k == |items| then 0.0 else if left > 0.12 * avg then left else 0.12 * avg
    ensures |Positions(items, IsUsable)| < 2 ==> Remaining(pow, items, now) == None
    ensures |Positions(items, IsUsable)| >= 2 ==>
      var avg, queued := AverageOf(pow, items, now), |Positions(items, IsQueued)|;
      Remaining(pow, items, now).Some? && Remaining(pow, items, now).value == avg * queued as real + rest
  {
    var avg, queued := AverageOf(pow, items, now), |Positions(items, IsQueued)|;
    RemainingIs(pow, items, now);
    UsableCount(items);
    hide HalvingPower, Recent, AverageOf, Remaining, Positions, IsUsable, RunningSec, Times;
    RunningSecIs(items, avg, now, k, since, rest);
    QueuedAre(items);
    assert DrainSec(items, avg, now) == Times(avg, queued as real) + rest;
    hide DrainSec;
    TimesIs(avg, queued as real);
  }

  lemma {:induction false} TimesIs(a: real, b: real)
    ensures Times(a, b) == a * b
  {
  }

  lemma {:induction false} RunningSecIs(items: seq<Item>, avg: real, now: real, k: nat, since: real, rest: real)
    requires k <= |items| && forall j | 0 <= j < k :: items[j].status != Running
    requires k < |items| ==> items[k].status == Running
    requires k < |items| ==> since == (match items[k].startedAt case Some(t) => t case None => items[k].createdAt)
    requires var left := if now > since then avg - (now - since) else avg;
      rest == if k == |items| then 0.0 else if left > 0.12 * avg then left else 0.12 * avg
    ensures RunningSec(items, avg, now) == rest
  {
    RunningIs(items, k);
  }

  lemma {:induction false} UsableCount(items: seq<Item>)
    ensures |Recent(items)| >= 2 <==> |Positions(items, IsUsable)| >= 2
  {
    SortMembers(Samples(items), NewestFirst);
    assert |Sort(Samples(items), NewestFirst)| == |multiset(Sort(Samples(items), NewestFirst))| == |Samples(items)|;
    SampleCount(items);
  }

  lemma {:induction false} SampleCount(items: seq<Item>)
    ensures |Samples(items)| == |Positions(items, IsUsable)|
  {
    if items != [] {
      SampleCount(items[..|items| - 1]);
      PositionsStep(items, IsUsable);
      hide Positions;
    }
  }

  /** The clock time is rounded to the nearest second, halves up. */
  lemma {:induction false} RoundIsNearest(x: real)
    ensures x - 0.5 < Round(x) as real <= x + 0.5
  {
  }
}
