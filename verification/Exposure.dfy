/**
 The exposure score of `systemd-analyze security` (the accumulation in `assess()`,
 src/analyze/analyze-security.c), in 64-bit arithmetic.
 */
module Exposure {
  import opened Wrappers

  const U64: nat := 0x1_0000_0000_0000_0000

  /** An assessor; `badness` is what its `assess()` reports, absent for UINT64_MAX. */
  datatype Assessor = Assessor(badness: Option<nat>, weight: nat, range: nat, defaultDependenciesOnly: bool)

  /** One assessor's verdict; `badness` is absent (UINT64_MAX) where the option does not apply. */
  datatype Verdict = Verdict(badness: Option<nat>, weight: nat, range: nat)

  /** The exposures at which the named levels start, from DANGEROUS down to PERFECT. */
  const LEVELS: seq<nat> := [100, 90, 75, 50, 10, 1, 0]

  function DivRoundUp(x: nat, y: nat): nat
    requires y > 0
  {
    x / y + if x % y != 0 then 1 else 0
  }

  function Wrap(x: nat): nat { x % U64 }

  /** What the assertions of the loop demand of each assessor. */
  predicate Sound(v: Verdict)
  {
    v.range > 0 && (v.badness.Some? ==> v.badness.value <= v.range && v.weight > 0)
  }

  predicate AllSound(vs: seq<Verdict>)
  {
    forall i | 0 <= i < |vs| :: Sound(vs[i])
  }

  /** An option that is not appropriate for the unit, or excluded by policy, does not count. */
  function Judge(a: Assessor, defaultDependencies: bool): Verdict
  {
    if (a.defaultDependenciesOnly && !defaultDependencies) || a.weight == 0 then Verdict(None, a.weight, a.range)
    else Verdict(a.badness, a.weight, a.range)
  }

  function Verdicts(assessors: seq<Assessor>, defaultDependencies: bool): seq<Verdict>
  {
    seq(|assessors|, i requires 0 <= i < |assessors| => Judge(assessors[i], defaultDependencies))
  }

  // ---------- without wrap-around ----------

  function Share(v: Verdict): nat
    requires v.range > 0
  {
    if v.badness.None? then 0 else DivRoundUp(v.badness.value * v.weight, v.range)
  }

  function Weight(v: Verdict): nat { if v.badness.None? then 0 else v.weight }

  function BadnessSum(vs: seq<Verdict>): nat
    requires AllSound(vs)
  {
    if vs == [] then 0 else BadnessSum(vs[..|vs| - 1]) + Share(vs[|vs| - 1])
  }

  function WeightSum(vs: seq<Verdict>): nat
  {
    if vs == [] then 0 else WeightSum(vs[..|vs| - 1]) + Weight(vs[|vs| - 1])
  }

  function Score(vs: seq<Verdict>): nat
    requires AllSound(vs) && WeightSum(vs) > 0
  {
    DivRoundUp(BadnessSum(vs) * 100, WeightSum(vs))
  }

  /** Nothing the loop computes exceeds 64 bits; the sum of badnesses is bounded by the sum of weights. */
  predicate Fits(vs: seq<Verdict>)
  {
    && WeightSum(vs) * 100 < U64
    && forall i | 0 <= i < |vs| :: vs[i].badness.Some? ==> vs[i].badness.value * vs[i].weight < U64
  }

  lemma DivRoundUpIs(x: nat, y: nat)
    requires y > 0
    ensures var r := DivRoundUp(x, y); x <= r * y < x + y
  {
    assert x == x / y * y + x % y;
    if x % y != 0 {
      assert (x / y + 1) * y == x / y * y + y;
    }
  }

  lemma DivRoundUpMonotone(x: nat, x': nat, y: nat)
    requires y > 0 && x <= x'
    ensures DivRoundUp(x, y) <= DivRoundUp(x', y)
  {
    DivRoundUpIs(x, y);
    DivRoundUpIs(x', y);
    var r, r' := DivRoundUp(x, y), DivRoundUp(x', y);
    assert (r' + 1) * y == r' * y + y;
    if r >= r' + 1 {
      MulMonotone(r' + 1, r, y);
    }
  }

  lemma MulMonotone(a: nat, b: nat, y: nat)
    requires a <= b
    ensures a * y <= b * y
  {
  }

  lemma DivRoundUpBelow(x: nat, y: nat, n: nat)
    requires y > 0 && x <= n * y
    ensures DivRoundUp(x, y) <= n
    ensures DivRoundUp(x, y) == 0 <==> x == 0
  {
    DivRoundUpIs(x, y);
    var r := DivRoundUp(x, y);
    assert (n + 1) * y == n * y + y;
    if r >= n + 1 {
      MulMonotone(n + 1, r, y);
    }
    if r == 0 { assert r * y == 0; }
  }

  lemma ShareBounds(v: Verdict)
    requires Sound(v)
    ensures Share(v) <= Weight(v)
    ensures Share(v) == 0 <==> v.badness.None? || v.badness.value == 0
  {
    if v.badness.Some? {
      MulMonotone(v.badness.value, v.range, v.weight);
      assert v.range * v.weight == v.weight * v.range;
      DivRoundUpBelow(v.badness.value * v.weight, v.range, v.weight);
      if v.badness.value > 0 { MulMonotone(1, v.badness.value, v.weight); }
    }
  }

  lemma {:induction false} SumBounds(vs: seq<Verdict>)
    requires AllSound(vs)
    ensures BadnessSum(vs) <= WeightSum(vs)
    ensures BadnessSum(vs) == 0 <==> forall i | 0 <= i < |vs| :: vs[i].badness.None? || vs[i].badness.value == 0
  {
    if vs != [] {
      var k := |vs| - 1;
      SumBounds(vs[..k]);
      ShareBounds(vs[k]);
    }
  }

  lemma {:induction false} SumsGrow(vs: seq<Verdict>, k: nat)
    requires AllSound(vs) && k <= |vs|
    ensures BadnessSum(vs[..k]) <= BadnessSum(vs) && WeightSum(vs[..k]) <= WeightSum(vs)
    decreases |vs|
  {
    if k < |vs| {
      var m := |vs| - 1;
      SumsGrow(vs[..m], k);
      assert vs[..m][..k] == vs[..k];
    } else {
      assert vs[..k] == vs;
    }
  }

  /** The score is a percentage, and 0 exactly if nothing that counts is bad. */
  lemma ScoreBounds(vs: seq<Verdict>)
    requires AllSound(vs) && WeightSum(vs) > 0
    ensures 0 <= Score(vs) <= 100
    ensures Score(vs) == 0 <==> forall i | 0 <= i < |vs| :: vs[i].badness.None? || vs[i].badness.value == 0
  {
    SumBounds(vs);
    DivRoundUpBelow(BadnessSum(vs) * 100, WeightSum(vs), 100);
  }

  /** `ws` is `vs` with one badness changed to `b`. */
  predicate Improved(vs: seq<Verdict>, ws: seq<Verdict>, i: nat, b: nat)
  {
    && i < |vs| && vs[i].badness.Some? && b <= vs[i].badness.value
    && ws == vs[i := vs[i].(badness := Some(b))]
  }

  lemma {:induction false} ImprovedSums(vs: seq<Verdict>, ws: seq<Verdict>, i: nat, b: nat)
    requires AllSound(vs) && Improved(vs, ws, i, b)
    ensures AllSound(ws) && BadnessSum(ws) <= BadnessSum(vs) && WeightSum(ws) == WeightSum(vs)
    decreases |vs|
  {
    var k := |vs| - 1;
    if i < k {
      ImprovedSums(vs[..k], ws[..k], i, b);
      assert ws[k] == vs[k];
    } else {
      assert ws[..k] == vs[..k];
      MulMonotone(b, vs[k].badness.value, vs[k].weight);
      DivRoundUpMonotone(b * vs[k].weight, vs[k].badness.value * vs[k].weight, vs[k].range);
    }
  }

  /** Fixing one thing never makes the score worse. */
  lemma ScoreMonotone(vs: seq<Verdict>, ws: seq<Verdict>, i: nat, b: nat)
    requires AllSound(vs) && WeightSum(vs) > 0 && Improved(vs, ws, i, b)
    ensures AllSound(ws) && WeightSum(ws) > 0 && Score(ws) <= Score(vs)
  {
    ImprovedSums(vs, ws, i, b);
    MulMonotone(BadnessSum(ws), BadnessSum(vs), 100);
    DivRoundUpMonotone(BadnessSum(ws) * 100, BadnessSum(vs) * 100, WeightSum(vs));
  }

  // ---------- the loop ----------

  lemma NoWrap(x: nat)
    requires x < U64
    ensures Wrap(x) == x
  {
  }

  // What the loop adds up, in 64 bits.

  function WrappedShare(v: Verdict): nat
    requires v.range > 0
  {
    if v.badness.None? then 0 else DivRoundUp(Wrap(v.badness.value * v.weight), v.range)
  }

  function WrappedBadness(vs: seq<Verdict>): nat
    requires AllSound(vs)
  {
    if vs == [] then 0 else Wrap(WrappedBadness(vs[..|vs| - 1]) + WrappedShare(vs[|vs| - 1]))
  }

  function WrappedWeight(vs: seq<Verdict>): nat
  {
    if vs == [] then 0 else Wrap(WrappedWeight(vs[..|vs| - 1]) + Weight(vs[|vs| - 1]))
  }

  lemma SumsNext(vs: seq<Verdict>, k: nat)
    requires AllSound(vs) && k < |vs|
    ensures BadnessSum(vs[..k + 1]) == BadnessSum(vs[..k]) + Share(vs[k])
    ensures WeightSum(vs[..k + 1]) == WeightSum(vs[..k]) + Weight(vs[k])
    ensures WrappedBadness(vs[..k + 1]) == Wrap(WrappedBadness(vs[..k]) + WrappedShare(vs[k]))
    ensures WrappedWeight(vs[..k + 1]) == Wrap(WrappedWeight(vs[..k]) + Weight(vs[k]))
  {
    hide Share, WrappedShare, Wrap;
    assert vs[..k + 1][..k] == vs[..k];
  }

  lemma ShareFits(vs: seq<Verdict>, k: nat)
    requires AllSound(vs) && Fits(vs) && k < |vs|
    ensures WrappedShare(vs[k]) == Share(vs[k])
  {
    hide DivRoundUp, Wrap, WeightSum;
    if vs[k].badness.Some? { NoWrap(vs[k].badness.value * vs[k].weight); }
  }

  lemma PartFits(vs: seq<Verdict>, k: nat)
    requires AllSound(vs) && Fits(vs) && k <= |vs|
    ensures BadnessSum(vs[..k]) < U64 && WeightSum(vs[..k]) < U64
  {
    hide BadnessSum, WeightSum, Share;
    SumBounds(vs);
    SumsGrow(vs, k);
  }

  /** What fits is added up exactly. */
  lemma {:induction false} FitsIsExact(vs: seq<Verdict>, k: nat)
    requires AllSound(vs) && Fits(vs) && k <= |vs|
    ensures WrappedBadness(vs[..k]) == BadnessSum(vs[..k]) && WrappedWeight(vs[..k]) == WeightSum(vs[..k])
  {
    if k > 0 {
      hide BadnessSum, WeightSum, WrappedBadness, WrappedWeight, Share, WrappedShare, Weight, Wrap, Fits;
      FitsIsExact(vs, k - 1);
      SumsNext(vs, k - 1);
      ShareFits(vs, k - 1);
      PartFits(vs, k);
      NoWrap(BadnessSum(vs[..k]));
      NoWrap(WeightSum(vs[..k]));
    }
  }

  /** The loop over the assessors. */
  method Accumulate(assessors: seq<Assessor>, defaultDependencies: bool) returns (badnessSum: nat, weightSum: nat)
    requires AllSound(Verdicts(assessors, defaultDependencies))
    ensures var vs := Verdicts(assessors, defaultDependencies);
      && badnessSum == WrappedBadness(vs) && weightSum == WrappedWeight(vs)
      && (Fits(vs) ==> badnessSum == BadnessSum(vs) && weightSum == WeightSum(vs))
  {
    ghost var vs := Verdicts(assessors, defaultDependencies);
    badnessSum, weightSum := 0, 0;
    var i := 0;
    while i < |assessors|
      invariant 0 <= i <= |assessors|
      invariant badnessSum == WrappedBadness(vs[..i]) && weightSum == WrappedWeight(vs[..i])
    {
      hide DivRoundUp, Wrap;
      var v := Judge(assessors[i], defaultDependencies);
      assert vs[i] == v && Sound(vs[i]);
      assert vs[..i + 1][..i] == vs[..i];
      SumsAre64Bit(vs[..i]);
      if v.badness.Some? {
        badnessSum := Wrap(badnessSum + DivRoundUp(Wrap(v.badness.value * v.weight), v.range));
        weightSum := Wrap(weightSum + v.weight);
      } else {
        NoWrap(badnessSum);
        NoWrap(weightSum);
      }
      i := i + 1;
    }
    assert vs[..i] == vs;
    hide WrappedBadness, WrappedWeight, BadnessSum, WeightSum, Fits;
    if Fits(vs) { FitsIsExact(vs, |vs|); }
  }

  lemma SumsAre64Bit(vs: seq<Verdict>)
    requires AllSound(vs)
    ensures WrappedBadness(vs) < U64 && WrappedWeight(vs) < U64
  {
  }

  /** The exposure and the row of the table of levels it selects; nothing if the assertion on the weights fires. */
  method Assess(assessors: seq<Assessor>, defaultDependencies: bool) returns (r: Option<(nat, nat)>)
    requires AllSound(Verdicts(assessors, defaultDependencies))
    ensures var vs := Verdicts(assessors, defaultDependencies);
      && (r.None? <==> WrappedWeight(vs) == 0)
      && (r.Some? ==>
            && r.value.0 == DivRoundUp(Wrap(WrappedBadness(vs) * 100), WrappedWeight(vs))
            && r.value.1 < |LEVELS| && LEVELS[r.value.1] <= r.value.0
            && forall j | 0 <= j < r.value.1 :: r.value.0 < LEVELS[j])
      && (Fits(vs) && WeightSum(vs) > 0 ==> r.Some? && r.value.0 == Score(vs))
  {
    hide BadnessSum, WeightSum, WrappedBadness, WrappedWeight, DivRoundUp, Wrap;
    var badnessSum, weightSum := Accumulate(assessors, defaultDependencies);
    if weightSum == 0 {
      return None;
    }
    ghost var vs := Verdicts(assessors, defaultDependencies);
    SumBounds(vs);
    if Fits(vs) { NoWrap(badnessSum * 100); }
    var exposure := DivRoundUp(Wrap(badnessSum * 100), weightSum);
    var row := 0;
    while row < |LEVELS| && exposure < LEVELS[row]
      invariant 0 <= row <= |LEVELS|
      invariant forall j | 0 <= j < row :: exposure < LEVELS[j]
    {
      row := row + 1;
    }
    assert LEVELS[6] == 0;
    return Some((exposure, row));
  }
}
