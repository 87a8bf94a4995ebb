/** What the bit-timing solver achieves: optimal splits, minimal bit-rate error, limits, round trips, register contents. */
module BitTimingProofs {
  import opened Words
  import opened Division
  import opened BitTiming

  // ---------------------------------------------------------------- the best split of a number of quanta

  /** tseg2 and the tseg1 it leaves respect the upper limits and the lower limit of tseg2. */
  predicate Feasible(l: Limits, tseg: nat, tseg2: nat) {
    l.tseg2Min <= tseg2 <= l.tseg2Max && tseg2 <= tseg && tseg - tseg2 <= l.tseg1Max
  }

  /** The sample point of a split in tenths of a percent. */
  function Point(tseg: nat, tseg2: nat): (p: nat)
    requires tseg2 <= tseg
    ensures p <= 1000
  {
    QuotientBelow(1000 * (tseg + 1 - tseg2), tseg + 1, 1001);
    1000 * (tseg + 1 - tseg2) / (tseg + 1)
  }

  /** Where the arithmetic of can_update_sample_point does not wrap: at least one quantum before the sample point. */
  predicate Sane(l: Limits, nominal: u32, tseg: nat) {
    WellFormed(l) && l.tseg1Min + l.tseg2Min <= tseg <= l.tseg1Max + l.tseg2Max &&
    nominal < 1000 && 1000 <= nominal * (tseg + 1)
  }

  /** Quanta before the ideal sample point. */
  function Ideal(nominal: nat, tseg: nat): nat {
    nominal * (tseg + 1) / 1000
  }

  lemma IdealBounds(l: Limits, nominal: u32, tseg: nat)
    requires Sane(l, nominal, tseg)
    ensures 1 <= Ideal(nominal, tseg) <= tseg
    ensures 1000 * Ideal(nominal, tseg) <= nominal * (tseg + 1) < 1000 * (Ideal(nominal, tseg) + 1)
    ensures nominal * (tseg + 1) < TWO_32
  {
    Scale(tseg + 1, nominal, 999);
    Thousandth(nominal * (tseg + 1), tseg);
  }

  lemma Thousandth(p: nat, tseg: nat)
    requires 1000 <= p <= 999 * (tseg + 1)
    ensures 1 <= p / 1000 <= tseg && 1000 * (p / 1000) <= p < 1000 * (p / 1000 + 1)
  {
    QuotientBounds(p, 1000);
    QuotientAtLeast(p, 1000, 1);
    QuotientBelow(p, 1000, tseg + 1);
  }

  /** tseg2 of round `i`: the ideal one less `i`, moved into the feasible range. */
  function Target(l: Limits, nominal: nat, tseg: nat, i: nat): nat {
    var raw := tseg + 1 - Ideal(nominal, tseg) - i;
    var t := if raw < l.tseg2Min then l.tseg2Min else if raw > l.tseg2Max then l.tseg2Max else raw;
    if tseg - t > l.tseg1Max then tseg - l.tseg1Max else t
  }

  lemma TryIsTarget(l: Limits, nominal: u32, tseg: nat, i: nat)
    requires Sane(l, nominal, tseg) && i <= 1
    ensures Feasible(l, tseg, Target(l, nominal, tseg, i))
    ensures var t := Target(l, nominal, tseg, i);
      Try(l, nominal, tseg, i) == Split(tseg - t, t, Point(tseg, t))
  {
    IdealBounds(l, nominal, tseg);
    var t := Target(l, nominal, tseg, i);
    TryExact(l, nominal, tseg, i);
    PointExact(tseg, t);
  }

  lemma PointExact(tseg: nat, t: nat)
    requires t <= tseg <= 999
    ensures PointOf(tseg, t) == Point(tseg, t)
  {
    hide Wrap;
    WrapSmall(tseg + 1 - t);
    WrapSmall(1000 * (tseg + 1 - t));
  }

  lemma RawExact(nominal: u32, tseg: nat, i: nat)
    requires 1 <= Ideal(nominal, tseg) <= tseg <= 999 && nominal * (tseg + 1) < TWO_32 && i <= 1
    ensures Wrap(tseg + 1 - Wrap(nominal * (tseg + 1)) / 1000 - i) == tseg + 1 - Ideal(nominal, tseg) - i
  {
    hide Wrap;
    WrapSmall(nominal * (tseg + 1));
    WrapSmall(tseg + 1 - Ideal(nominal, tseg) - i);
  }

  lemma TryExact(l: Limits, nominal: u32, tseg: nat, i: nat)
    requires Sane(l, nominal, tseg) && i <= 1
    requires 1 <= Ideal(nominal, tseg) <= tseg && nominal * (tseg + 1) < TWO_32
    ensures Feasible(l, tseg, Target(l, nominal, tseg, i))
    ensures var t := Target(l, nominal, tseg, i);
      Try(l, nominal, tseg, i) == Split(tseg - t, t, PointOf(tseg, t))
  {
    hide PointOf;
    hide Wrap;
    hide Ideal;
    RawExact(nominal, tseg, i);
    var raw := tseg + 1 - Ideal(nominal, tseg) - i;
    WrapSmall(tseg - Clamp(raw, l.tseg2Min, l.tseg2Max));
    if l.tseg1Max <= tseg {
      WrapSmall(tseg - l.tseg1Max);
    }
  }

  /** With at most 1000 quanta, one quantum more after the sample point moves it by at least one tenth of a percent. */
  lemma PointStrict(tseg: nat, a: nat, b: nat)
    requires a < b <= tseg <= 999
    ensures Point(tseg, b) < Point(tseg, a)
  {
    var d, q := tseg + 1, Point(tseg, b);
    QuotientBounds(1000 * (d - b), d);
    assert d * (q + 1) == d * q + d;
    QuotientAtLeast(1000 * (d - a), d, q + 1);
  }

  lemma PointMonotone(tseg: nat, a: nat, b: nat)
    requires a <= b <= tseg
    ensures Point(tseg, b) <= Point(tseg, a)
  {
    QuotientMonotone(1000 * (tseg + 1 - b), 1000 * (tseg + 1 - a), tseg + 1);
  }

  /** Sampling at or before the ideal quantum gives at most the nominal sample point. */
  lemma PointNotLate(nominal: nat, tseg: nat, t: nat)
    requires t <= tseg && tseg + 1 - t <= Ideal(nominal, tseg)
    ensures Point(tseg, t) <= nominal
  {
    var d := tseg + 1;
    assert 1000 * (d - t) <= nominal * d;
    assert nominal * d < d * (nominal + 1);
    QuotientBelow(1000 * (d - t), d, nominal + 1);
  }

  /** Two quanta past the ideal one the sample point exceeds the nominal one. */
  lemma PointTooLate(nominal: nat, tseg: nat, t: nat)
    requires t <= tseg <= 999 && Ideal(nominal, tseg) + 2 <= tseg + 1 - t
    ensures nominal < Point(tseg, t)
  {
    var d := tseg + 1;
    assert nominal * d < 1000 * (Ideal(nominal, tseg) + 1);
    assert d * (nominal + 1) == nominal * d + d;
    QuotientAtLeast(1000 * (d - t), d, nominal + 1);
  }

  lemma ErrorExact(nominal: u32, x: Split)
    requires x.samplePoint <= nominal < 1000
    ensures PointError(nominal, x) == nominal - x.samplePoint
  {
    WrapSmall(nominal - x.samplePoint);
  }

  /** `t` is no better than the split of round `i`, which is acceptable. */
  predicate BeatenBy(l: Limits, nominal: u32, tseg: nat, t: nat, i: nat)
    requires t <= tseg && Target(l, nominal, tseg, i) <= tseg
  {
    Point(tseg, t) <= Point(tseg, Target(l, nominal, tseg, i)) <= nominal
  }

  lemma OneRoundBeats(l: Limits, nominal: u32, tseg: nat, t: nat)
    requires Sane(l, nominal, tseg) && Feasible(l, tseg, t) && Point(tseg, t) <= nominal
    requires Feasible(l, tseg, Target(l, nominal, tseg, 0)) && Feasible(l, tseg, Target(l, nominal, tseg, 1))
    ensures BeatenBy(l, nominal, tseg, t, 0) || BeatenBy(l, nominal, tseg, t, 1)
  {
    hide Point;
    IdealBounds(l, nominal, tseg);
    hide Ideal;
    var ideal := tseg + 1 - Ideal(nominal, tseg);
    var u0, u1 := Target(l, nominal, tseg, 0), Target(l, nominal, tseg, 1);
    if t + 2 <= ideal {
      PointTooLate(nominal, tseg, t);
    }
    assert u1 <= t;
    PointMonotone(tseg, u1, t);
    if nominal < Point(tseg, u1) {
      if ideal <= u1 {
        PointNotLate(nominal, tseg, u1);
      }
      assert ideal <= u0 <= t;
      PointNotLate(nominal, tseg, u0);
      PointMonotone(tseg, u0, t);
    }
  }

  /**
   * The two rounds find the best split: they report UINT_MAX exactly when no feasible split samples at or before the
   * nominal point, and otherwise write a feasible split whose sample point is the latest such one.
   */
  lemma BestSplit(l: Limits, nominal: u32, tseg: nat)
    requires Sane(l, nominal, tseg)
    ensures ChosenError(l, nominal, tseg) == UINT_MAX <==>
              forall t: nat :: Feasible(l, tseg, t) ==> nominal < Point(tseg, t)
    ensures ChosenError(l, nominal, tseg) == UINT_MAX <==> Chosen(l, nominal, tseg).None?
    ensures Chosen(l, nominal, tseg).Some? ==>
      var x := Chosen(l, nominal, tseg).value;
      Feasible(l, tseg, x.tseg2) && x.tseg1 == tseg - x.tseg2 &&
      x.samplePoint == Point(tseg, x.tseg2) <= nominal &&
      ChosenError(l, nominal, tseg) == nominal - x.samplePoint &&
      forall t: nat :: Feasible(l, tseg, t) && Point(tseg, t) <= nominal ==> Point(tseg, t) <= x.samplePoint
  {
    hide Abs32;
    hide Wrap;
    hide Try;
    hide Target;
    hide Point;
    hide PointError;
    TryIsTarget(l, nominal, tseg, 0);
    TryIsTarget(l, nominal, tseg, 1);
    var a, b := Try(l, nominal, tseg, 0), Try(l, nominal, tseg, 1);
    if a.samplePoint <= nominal { ErrorExact(nominal, a); }
    if b.samplePoint <= nominal { ErrorExact(nominal, b); }
    forall t: nat | Feasible(l, tseg, t) && Point(tseg, t) <= nominal
      ensures BeatenBy(l, nominal, tseg, t, 0) || BeatenBy(l, nominal, tseg, t, 1)
    {
      OneRoundBeats(l, nominal, tseg, t);
    }
  }

  /** The largest tseg2 that `tseg` quanta after sync leave room for. */
  function Widest(l: Limits, tseg: nat): nat {
    if tseg < l.tseg2Max then tseg else l.tseg2Max
  }

  /** The exact condition under which no split is written: even the largest tseg2 samples too late. */
  lemma NoSplitCondition(l: Limits, nominal: u32, tseg: nat)
    requires Sane(l, nominal, tseg)
    ensures Chosen(l, nominal, tseg).None? <==> nominal < Point(tseg, Widest(l, tseg))
  {
    BestSplit(l, nominal, tseg);
    hide Point;
    hide Chosen;
    assert Feasible(l, tseg, Widest(l, tseg));
    forall t: nat | Feasible(l, tseg, t)
      ensures Point(tseg, Widest(l, tseg)) <= Point(tseg, t)
    {
      PointMonotone(tseg, t, Widest(l, tseg));
    }
  }

  /** The bit is too long to be split: `quanta` of them put the sample point after the nominal one for every tseg2. */
  predicate Unsplittable(l: Limits, nominal: nat, quanta: nat) {
    1000 * l.tseg2Max <= quanta * (999 - nominal)
  }

  /** The same condition without a division, for a caller to check. */
  lemma UnsplittableQuanta(l: Limits, nominal: u32, tseg: nat)
    requires Sane(l, nominal, tseg)
    ensures Chosen(l, nominal, tseg).None? <==> Unsplittable(l, nominal, tseg + 1)
  {
    NoSplitCondition(l, nominal, tseg);
    hide Chosen;
    var d, t := tseg + 1, Widest(l, tseg);
    QuotientReaches(1000 * (d - t), d, nominal + 1);
    assert d * (nominal + 1) + d * (999 - nominal) == 1000 * d;
    if tseg < l.tseg2Max {
      assert d * (nominal + 1) == nominal * d + d;
      Scale(d, 999 - nominal, 999);
    }
  }

  /** A bit so short that the sample point is due before the first `tseg1Min` quanta are over. */
  predicate SampledTooEarly(l: Limits, nominal: nat, quanta: nat) {
    quanta <= l.tseg1Min + 1 + l.tseg2Max && quanta * (nominal + 1) <= 1000 * (l.tseg1Min + 1)
  }

  /** can_update_sample_point does not look at tseg1_min: the split it writes violates it under exactly this condition. */
  lemma TooShortTseg1(l: Limits, nominal: u32, tseg: nat)
    requires Sane(l, nominal, tseg) && Chosen(l, nominal, tseg).Some?
    ensures Chosen(l, nominal, tseg).value.tseg1 < l.tseg1Min <==> SampledTooEarly(l, nominal, tseg + 1)
  {
    BestSplit(l, nominal, tseg);
    var x := Chosen(l, nominal, tseg).value;
    hide Chosen;
    var d, t := tseg + 1, tseg - l.tseg1Min;
    QuotientReaches(1000 * (l.tseg1Min + 1), d, nominal + 1);
    assert Point(tseg, t) == 1000 * (l.tseg1Min + 1) / d;
    hide Point;
    if t <= l.tseg2Max {
      assert Feasible(l, tseg, t);
      if Point(tseg, t) <= nominal {
        if t < x.tseg2 { PointStrict(tseg, t, x.tseg2); }
      } else if x.tseg2 <= t {
        PointMonotone(tseg, x.tseg2, t);
      }
    }
  }

  /** The nominal point is below 100 % and at least one quantum into the shortest bit. */
  predicate UsableNominal(l: Limits, nominal: nat) {
    nominal <= 999 && 1000 <= nominal * (l.tseg1Min + l.tseg2Min + 1)
  }

  lemma NominalIsSane(l: Limits, nominal: u32, tseg: nat)
    requires WellFormed(l) && UsableNominal(l, nominal) && l.tseg1Min + l.tseg2Min <= tseg <= l.tseg1Max + l.tseg2Max
    ensures Sane(l, nominal, tseg)
  {
    Scale(nominal, l.tseg1Min + l.tseg2Min + 1, tseg + 1);
  }

  // ---------------------------------------------------------------- the smallest bit-rate error

  function Distance(a: nat, b: nat): nat {
    if a < b then b - a else a - b
  }

  /** Every prescaler step is available and quanta * bitrate stays below 2^32 for every number of quanta. */
  predicate Exact(l: Limits, bitrate: u32) {
    WellFormed(l) && l.brpMin == 1 && l.brpInc == 1 && bitrate != 0 &&
    (l.tseg1Max + l.tseg2Max + 1) * bitrate < TWO_32
  }

  predicate QuantaInRange(l: Limits, quanta: nat) {
    l.tseg1Min + l.tseg2Min + 1 <= quanta <= l.tseg1Max + l.tseg2Max + 1
  }

  lemma ProductExact(l: Limits, bitrate: u32, quanta: nat)
    requires Exact(l, bitrate) && QuantaInRange(l, quanta)
    ensures 3 * bitrate <= quanta * bitrate == Wrap(quanta * bitrate)
  {
    Scale(bitrate, 3, quanta);
    Scale(bitrate, quanta, l.tseg1Max + l.tseg2Max + 1);
    WrapSmall(quanta * bitrate);
  }

  lemma ExactQuery(l: Limits, bitrate: u32)
    requires Exact(l, bitrate)
    ensures Query(l, bitrate)
  {
    forall k: nat | InRange(l, k)
      ensures Wrap((1 + k / 2) * bitrate) != 0
    {
      ProductExact(l, bitrate, 1 + k / 2);
    }
  }

  /** For any prescaler step: the prescaler of a candidate is the multiple of the step just below the rounded quotient. */
  lemma BrpIsMultiple(freq: u32, l: Limits, bitrate: u32, k: nat)
    requires Query(l, bitrate) && InRange(l, k)
    ensures var rounded := (freq / Wrap((1 + k / 2) * bitrate) + k % 2) % 0x1_0000_0000;
      Brp(freq, l, bitrate, k) <= rounded < Brp(freq, l, bitrate, k) + l.brpInc &&
      Brp(freq, l, bitrate, k) % l.brpInc == 0
  {
    var rounded := Wrap(freq / Wrap((1 + k / 2) * bitrate) + k % 2);
    hide Divisible;
    MultipleBelow(rounded, l.brpInc);
    WrapSmall(rounded / l.brpInc * l.brpInc);
  }

  lemma MultipleBelow(x: nat, step: nat)
    requires step > 0
    ensures 0 <= x / step * step <= x < x / step * step + step && x / step * step % step == 0
  {
    QuotientBounds(x, step);
    QuotientAtLeast(x, step, 0);
    PositiveOrZero(x / step, step);
    ExactQuotient(x / step * step, step, x / step, 0);
  }

  lemma PositiveOrZero(a: nat, b: nat)
    ensures 0 <= a * b
  {
  }

  /** Rounding to multiples of one does nothing. */
  lemma StepOfOne(x: u32, inc: u32)
    requires inc == 1
    ensures Wrap(x / inc * inc) == x
  {
    WrapSmall(x);
  }

  lemma BrpExact(freq: u32, l: Limits, bitrate: u32, k: nat)
    requires Exact(l, bitrate) && Query(l, bitrate) && InRange(l, k)
    ensures (1 + k / 2) * bitrate > 0
    ensures Brp(freq, l, bitrate, k) == freq / ((1 + k / 2) * bitrate) + k % 2
    ensures 3 * Brp(freq, l, bitrate, k) <= freq + 3
  {
    hide Divisible;
    hide Wrap;
    var d := (1 + k / 2) * bitrate;
    ProductExact(l, bitrate, 1 + k / 2);
    ThirdAtMost(freq, d);
    var q := freq / d;
    WrapSmall(q + k % 2);
    StepOfOne(q + k % 2, l.brpInc);
  }

  lemma ThirdAtMost(freq: nat, d: nat)
    requires 3 <= d
    ensures 0 <= freq / d && 3 * (freq / d) <= freq
  {
    QuotientAntitone(freq, 3, d);
    QuotientBounds(freq, 3);
    QuotientAtLeast(freq, d, 0);
  }

  lemma RateErrorExact(freq: u32, l: Limits, bitrate: u32, k: nat)
    requires Exact(l, bitrate) && Query(l, bitrate) && Usable(freq, l, bitrate, k)
    ensures 0 < Brp(freq, l, bitrate, k) * (1 + k / 2)
    ensures Rate(freq, l, bitrate, k) == freq / (Brp(freq, l, bitrate, k) * (1 + k / 2))
    ensures RateError(freq, l, bitrate, k) == Distance(bitrate, Rate(freq, l, bitrate, k))
  {
    hide Divisible;
    hide Brp;
    var brp, quanta := Brp(freq, l, bitrate, k), 1 + k / 2;
    ProductFits(l, brp, quanta);
    Scale(quanta, 1, brp);
    QuotientAntitone(freq, 3, brp * quanta);
    ProductExact(l, bitrate, quanta);
    SignedDistance(bitrate, Rate(freq, l, bitrate, k));
  }

  lemma SignedDistance(a: u32, b: u32)
    requires a < 0x8000_0000 && b < 0x8000_0000
    ensures Abs32(Wrap(a - b)) == Distance(a, b)
  {
  }

  /** Below the exact quotient the rate is too high and grows as the prescaler shrinks. */
  lemma SlowerIsWorse(freq: nat, bitrate: nat, quanta: nat, q: nat, brp: nat)
    requires 0 < bitrate && 0 < quanta && 0 < brp <= q && q == freq / (quanta * bitrate)
    ensures 0 < q * quanta && 0 < brp * quanta
    ensures Distance(bitrate, freq / (q * quanta)) <= Distance(bitrate, freq / (brp * quanta))
  {
    QuotientBounds(freq, quanta * bitrate);
    Scale(quanta, brp, q);
    Scale(quanta, 1, brp);
    assert (q * quanta) * bitrate == (quanta * bitrate) * q;
    QuotientAtLeast(freq, q * quanta, bitrate);
    QuotientAntitone(freq, brp * quanta, q * quanta);
  }

  /** Above the exact quotient the rate is too low and falls as the prescaler grows. */
  lemma FasterIsWorse(freq: nat, bitrate: nat, quanta: nat, q: nat, brp: nat)
    requires 0 < bitrate && 0 < quanta && q + 1 <= brp && q == freq / (quanta * bitrate)
    ensures 0 < (q + 1) * quanta && 0 < brp * quanta
    ensures Distance(bitrate, freq / ((q + 1) * quanta)) <= Distance(bitrate, freq / (brp * quanta))
  {
    QuotientBounds(freq, quanta * bitrate);
    Scale(quanta, 1, q + 1);
    Scale(quanta, q + 1, brp);
    assert ((q + 1) * quanta) * bitrate == (quanta * bitrate) * (q + 1);
    QuotientBelow(freq, (q + 1) * quanta, bitrate);
    QuotientAntitone(freq, (q + 1) * quanta, brp * quanta);
  }

  /** One of the two prescalers tried for `quanta` is at least as good as any prescaler for it. */
  lemma TriedIsEnough(freq: u32, l: Limits, bitrate: u32, quanta: nat, brp: nat) returns (k: nat)
    requires Exact(l, bitrate) && Query(l, bitrate) && QuantaInRange(l, quanta) && 1 <= brp <= l.brpMax
    requires Divided(freq, quanta, bitrate) <= l.brpMax
    ensures Usable(freq, l, bitrate, k)
    ensures RateError(freq, l, bitrate, k) <= Distance(bitrate, Divided(freq, brp, quanta))
  {
    var q := Divided(freq, quanta, bitrate);
    k := if brp <= q then 2 * (quanta - 1) else 2 * (quanta - 1) + 1;
    assert 1 + k / 2 == quanta;
    BrpExact(freq, l, bitrate, k);
    if brp <= q {
      SlowerIsWorse(freq, bitrate, quanta, q, brp);
    } else {
      FasterIsWorse(freq, bitrate, quanta, q, brp);
    }
    RateErrorExact(freq, l, bitrate, k);
  }

  /** The longest bit of the hardware. */
  function Longest(l: Limits): nat {
    l.tseg1Max + l.tseg2Max + 1
  }

  /** Of two products that both divide the clock into more than the bit rate, the larger one is nearer. */
  lemma LargerIsNearer(freq: nat, bitrate: nat, small: nat, large: nat)
    requires 0 < bitrate && 0 < small <= large && large * bitrate <= freq
    ensures Distance(bitrate, freq / large) <= Distance(bitrate, freq / small)
  {
    QuotientAtLeast(freq, large, bitrate);
    QuotientAntitone(freq, small, large);
  }

  /** When the quotient for `quanta` is beyond every prescaler, one quantum more can only help. */
  lemma LongerIsNearer(freq: nat, bitrate: nat, most: nat, quanta: nat, brp: nat) returns (next: nat)
    requires 0 < bitrate && 0 < quanta && 1 <= brp <= most < Divided(freq, quanta, bitrate)
    ensures 1 <= next <= most
    ensures Distance(bitrate, Divided(freq, next, quanta + 1)) <= Distance(bitrate, Divided(freq, brp, quanta))
  {
    var q := Divided(freq, quanta + 1, bitrate);
    next := if q <= most then q else most;
    NextCovers(freq, bitrate, most, quanta, q);
    PositiveProduct(brp, quanta);
    Scale(quanta, brp, most);
    LargerIsNearer(freq, bitrate, brp * quanta, next * (quanta + 1));
  }

  /** The prescaler used for one quantum more makes the bit no shorter, and still no longer than requested. */
  lemma NextCovers(freq: nat, bitrate: nat, most: nat, quanta: nat, q: nat)
    requires 0 < bitrate && 0 < quanta && 1 <= most < Divided(freq, quanta, bitrate)
    requires q == Divided(freq, quanta + 1, bitrate)
    ensures var next := if q <= most then q else most;
      1 <= next && most * quanta <= next * (quanta + 1) && next * (quanta + 1) * bitrate <= freq
  {
    var d, e := quanta * bitrate, (quanta + 1) * bitrate;
    PositiveProduct(quanta, bitrate);
    PositiveProduct(quanta + 1, bitrate);
    QuotientReaches(freq, d, most + 1);
    QuotientBounds(freq, e);
    Regroup(quanta, bitrate, most + 1);
    Regroup(quanta + 1, bitrate, q);
    Regroup(quanta + 1, bitrate, q + 1);
    hide Divided;
    if q <= most {
      Cancel(bitrate, (most + 1) * quanta, (q + 1) * (quanta + 1));
      OneLess(most, q, quanta);
    } else {
      Scale(most, quanta, quanta + 1);
      Scale(e, most, q);
      Regroup(quanta + 1, bitrate, most);
    }
  }

  lemma Regroup(quanta: nat, bitrate: nat, brp: nat)
    ensures quanta * bitrate * brp == brp * quanta * bitrate == bitrate * (brp * quanta)
  {
  }

  lemma OneLess(most: nat, q: nat, quanta: nat)
    requires (most + 1) * quanta < (q + 1) * (quanta + 1) && 1 <= most && 1 <= quanta
    ensures most * quanta <= q * (quanta + 1) && 1 <= q
  {
    assert (most + 1) * quanta == most * quanta + quanta;
    assert (q + 1) * (quanta + 1) == q * (quanta + 1) + quanta + 1;
    PositiveProduct(most, quanta);
  }

  /** Some candidate is at least as good as prescaler `brp` with `quanta` quanta, whatever these are. */
  lemma {:induction false} SomeCandidateBeats(freq: u32, l: Limits, bitrate: u32, quanta: nat, brp: nat) returns (k: nat)
    requires Exact(l, bitrate) && Query(l, bitrate) && QuantaInRange(l, quanta) && 1 <= brp <= l.brpMax
    requires Divided(freq, Longest(l), bitrate) <= l.brpMax
    ensures Usable(freq, l, bitrate, k)
    ensures RateError(freq, l, bitrate, k) <= Distance(bitrate, Divided(freq, brp, quanta))
    decreases Longest(l) - quanta
  {
    hide Divisible;
    hide Usable;
    hide RateError;
    if Divided(freq, quanta, bitrate) <= l.brpMax {
      k := TriedIsEnough(freq, l, bitrate, quanta, brp);
    } else {
      var next := LongerIsNearer(freq, bitrate, l.brpMax, quanta, brp);
      hide Divided;
      hide Distance;
      k := SomeCandidateBeats(freq, l, bitrate, quanta + 1, next);
    }
  }

  /** There is a candidate exactly when the quotient for the longest bit is a possible prescaler. */
  lemma CandidateCondition(freq: u32, l: Limits, bitrate: u32)
    requires Exact(l, bitrate) && Query(l, bitrate)
    ensures (exists k: nat :: Usable(freq, l, bitrate, k)) <==> Divided(freq, Longest(l), bitrate) <= l.brpMax
  {
    hide Divisible;
    if Divided(freq, Longest(l), bitrate) <= l.brpMax {
      var k := TriedIsEnough(freq, l, bitrate, Longest(l), 1);
    } else {
      forall k: nat
        ensures !Usable(freq, l, bitrate, k)
      {
        if InRange(l, k) { PrescalerTooLarge(freq, l, bitrate, k); }
      }
    }
  }

  lemma PrescalerTooLarge(freq: u32, l: Limits, bitrate: u32, k: nat)
    requires Exact(l, bitrate) && Query(l, bitrate) && InRange(l, k) && l.brpMax < Divided(freq, Longest(l), bitrate)
    ensures l.brpMax < Brp(freq, l, bitrate, k)
  {
    hide Divisible;
    BrpExact(freq, l, bitrate, k);
    hide Brp;
    Scale(bitrate, 1 + k / 2, Longest(l));
    QuotientAntitone(freq, (1 + k / 2) * bitrate, Longest(l) * bitrate);
  }

  /**
   * The bit-rate error selected is the smallest over all prescalers and all numbers of quanta in the hardware ranges,
   * not only over the two prescalers tried for each number of quanta.
   */
  lemma MinimalRateError(freq: u32, l: Limits, bitrate: u32, nominal: u32, k: nat, quanta: nat, brp: nat)
    requires Exact(l, bitrate) && Query(l, bitrate) && IsBest(freq, l, bitrate, nominal, k)
    requires QuantaInRange(l, quanta) && 1 <= brp <= l.brpMax
    ensures RateError(freq, l, bitrate, k) <= Distance(bitrate, Divided(freq, brp, quanta))
  {
    hide Divisible;
    hide RateError;
    hide ChosenError;
    hide Divided;
    hide Distance;
    CandidateCondition(freq, l, bitrate);
    var j := SomeCandidateBeats(freq, l, bitrate, quanta, brp);
    assert Usable(freq, l, bitrate, j);
  }

  /**
   * What the search gives up when it has no candidate: of all settings of the hardware the nearest is then the largest
   * prescaler with the longest bit, which it never tries.
   */
  lemma NearestWithoutCandidate(freq: u32, l: Limits, bitrate: u32, quanta: nat, brp: nat)
    requires Exact(l, bitrate) && l.brpMax < Divided(freq, Longest(l), bitrate)
    requires QuantaInRange(l, quanta) && 1 <= brp <= l.brpMax
    ensures Distance(bitrate, Divided(freq, l.brpMax, Longest(l))) <= Distance(bitrate, Divided(freq, brp, quanta))
  {
    var most, d := l.brpMax, Longest(l) * bitrate;
    PositiveProduct(brp, quanta);
    Scale(quanta, brp, most);
    Scale(most, quanta, Longest(l));
    QuotientReaches(freq, d, most);
    Regroup(Longest(l), bitrate, most);
    hide Divisible;
    LargerIsNearer(freq, bitrate, brp * quanta, most * Longest(l));
  }

  /** That setting can be a good one: here the search has no candidate, yet prescaler 255 with 254 quanta is 0.3 % off. */
  lemma MissedPrescaler()
    ensures Exact(NOMINAL_LIMITS, 1000) && Query(NOMINAL_LIMITS, 1000)
    ensures forall k: nat :: !Usable(65_024_000, NOMINAL_LIMITS, 1000, k)
    ensures Distance(1000, Divided(65_024_000, 255, 254)) == 3
  {
    ExactQuery(NOMINAL_LIMITS, 1000);
    CandidateCondition(65_024_000, NOMINAL_LIMITS, 1000);
  }

  // ---------------------------------------------------------------- limits of a successful calculation

  /** The request determines the candidate the search ends with. */
  lemma OneWinner(freq: u32, l: Limits, bitrate: u32, nominal: u32, j: nat, k: nat)
    requires Query(l, bitrate) && Wins(freq, l, bitrate, nominal, j) && Wins(freq, l, bitrate, nominal, k)
    ensures j == k
  {
    hide Divisible;
    hide Usable;
    hide RateError;
    hide ChosenError;
    var rateError, pointError := RateError(freq, l, bitrate, k), ChosenError(l, nominal, k / 2);
    assert HasErrors(freq, l, bitrate, nominal, k, rateError, pointError);
    assert HasErrors(freq, l, bitrate, nominal, j, rateError, pointError);
  }

  /** A successful calculation that reports a sample point has selected a best candidate and a split for it. */
  lemma Reported(freq: u32, l: Limits, b: Timing, r: Timing) returns (k: nat, x: Split)
    requires b.bitrate != 0 && Query(l, b.bitrate) && CalcPost(freq, l, b, Success, r) && r.samplePoint != 0
    ensures freq != 0 && Wins(freq, l, b.bitrate, Nominal(b), k) && Chosen(l, Nominal(b), k / 2) == Some(x)
    ensures PerMille(RateError(freq, l, b.bitrate, k), b.bitrate) <= CALC_MAX_ERROR
    ensures Wrap(1 + x.tseg1 + x.tseg2) == 1 + k / 2
    ensures Wrap(Brp(freq, l, b.bitrate, k) * Wrap(1 + x.tseg1 + x.tseg2)) != 0
    ensures r == Written(freq, l, b, Brp(freq, l, b.bitrate, k), x.tseg1, x.tseg2, x.samplePoint)
  {
    hide Divisible;
    hide Usable;
    hide Brp;
    hide RateError;
    hide PerMille;
    hide Chosen;
    hide Wrap;
    ghost var tseg1: u32, tseg2: u32, point: u32;
    k, tseg1, tseg2, point :|
      Selected(freq, l, b, k, tseg1, tseg2, point) &&
      Wrap(Brp(freq, l, b.bitrate, k) * Wrap(1 + tseg1 + tseg2)) != 0 &&
      r == Written(freq, l, b, Brp(freq, l, b.bitrate, k), tseg1, tseg2, point);
    assert Chosen(l, Nominal(b), k / 2).Some?;
    x := Chosen(l, Nominal(b), k / 2).value;
    SplitSum(l, Nominal(b), k / 2);
  }

  /**
   * Limits of a reported timing, in terms of the request and the candidate `k` that wins for it: every limit of the
   * controller is respected except that tseg1 falls short of its minimum exactly when the bit is sampled too early.
   */
  lemma WithinLimits(freq: u32, l: Limits, b: Timing, r: Timing, k: nat)
    requires b.bitrate != 0 && Query(l, b.bitrate) && CalcPost(freq, l, b, Success, r) && r.samplePoint != 0
    requires UsableNominal(l, Nominal(b)) && Wins(freq, l, b.bitrate, Nominal(b), k)
    ensures r.propSeg + r.phaseSeg1 + r.phaseSeg2 == k / 2 && r.propSeg <= r.phaseSeg1 <= r.propSeg + 1
    ensures r.propSeg + r.phaseSeg1 <= l.tseg1Max
    ensures l.tseg1Min <= r.propSeg + r.phaseSeg1 <==> !SampledTooEarly(l, Nominal(b), 1 + k / 2)
    ensures l.tseg2Min <= r.phaseSeg2 <= l.tseg2Max
    ensures l.brpMin <= r.brp <= l.brpMax
    ensures 1 <= r.sjw <= r.phaseSeg2 && (1 <= l.sjwMax ==> r.sjw <= l.sjwMax)
    ensures if b.sjw == 0 || l.sjwMax == 0 then r.sjw == 1
            else r.sjw <= b.sjw && (r.sjw == b.sjw || r.sjw == l.sjwMax || r.sjw == r.phaseSeg2)
    ensures r.samplePoint <= Nominal(b)
  {
    hide Divisible;
    hide Brp;
    hide RateError;
    hide PerMille;
    hide RateOf;
    hide TqOf;
    hide ChosenError;
    hide Chosen;
    hide Point;
    hide Wrap;
    var j, x := Reported(freq, l, b, r);
    OneWinner(freq, l, b.bitrate, Nominal(b), j, k);
    NominalIsSane(l, Nominal(b), k / 2);
    BestSplit(l, Nominal(b), k / 2);
    TooShortTseg1(l, Nominal(b), k / 2);
    assert r.propSeg + r.phaseSeg1 == x.tseg1;
  }

  /**
   * Which sample point a calculation aims at: the caller's, or 75 %, 80 % or 87.5 % by bit rate if the caller gave
   * none. The winning candidate is the one for that point, and no split of it samples between the point reported and
   * the point aimed at.
   */
  lemma AimedPoint(freq: u32, l: Limits, b: Timing, r: Timing) returns (k: nat)
    requires b.bitrate != 0 && Query(l, b.bitrate) && CalcPost(freq, l, b, Success, r)
    ensures var p := if b.samplePoint != 0 then b.samplePoint
                     else if b.bitrate > 800_000 then 750 else if b.bitrate > 500_000 then 800 else 875;
      Wins(freq, l, b.bitrate, p, k) && r.brp == Brp(freq, l, b.bitrate, k) &&
      (r.samplePoint != 0 && UsableNominal(l, p) ==>
        r.phaseSeg2 <= k / 2 && r.samplePoint == Point(k / 2, r.phaseSeg2) <= p &&
        forall t: nat :: Feasible(l, k / 2, t) && Point(k / 2, t) <= p ==> Point(k / 2, t) <= r.samplePoint)
  {
    hide Divisible;
    hide Usable;
    hide Brp;
    hide RateError;
    hide PerMille;
    hide Chosen;
    hide ChosenError;
    hide RateOf;
    hide TqOf;
    hide Point;
    hide Wrap;
    if r.samplePoint != 0 {
      var x;
      k, x := Reported(freq, l, b, r);
      if UsableNominal(l, Nominal(b)) { BestSplitOf(freq, l, b.bitrate, Nominal(b), k); }
    } else {
      ghost var tseg1: u32, tseg2: u32, point: u32;
      k, tseg1, tseg2, point :|
        Selected(freq, l, b, k, tseg1, tseg2, point) &&
        Wrap(Brp(freq, l, b.bitrate, k) * Wrap(1 + tseg1 + tseg2)) != 0 &&
        r == Written(freq, l, b, Brp(freq, l, b.bitrate, k), tseg1, tseg2, point);
    }
  }

  lemma BestSplitOf(freq: u32, l: Limits, bitrate: u32, nominal: u32, k: nat)
    requires Query(l, bitrate) && Usable(freq, l, bitrate, k) && UsableNominal(l, nominal)
    requires Chosen(l, nominal, k / 2).Some?
    ensures var x := Chosen(l, nominal, k / 2).value;
      x.tseg2 <= k / 2 && x.samplePoint == Point(k / 2, x.tseg2) <= nominal &&
      forall t: nat :: Feasible(l, k / 2, t) && Point(k / 2, t) <= nominal ==> Point(k / 2, t) <= x.samplePoint
  {
    NominalIsSane(l, nominal, k / 2);
    BestSplit(l, nominal, k / 2);
  }

  lemma PerMilleExact(e: u32, bitrate: u32)
    requires e <= bitrate != 0
    ensures PerMille(e, bitrate) == e * 1000 / bitrate
  {
    QuotientBelow(e * 1000, bitrate, 1001);
    WrapSmall(e * 1000 / bitrate);
  }

  lemma ErrorBelowRequest(freq: u32, l: Limits, bitrate: u32, k: nat)
    requires Exact(l, bitrate) && Query(l, bitrate) && Usable(freq, l, bitrate, k)
    ensures RateError(freq, l, bitrate, k) <= bitrate
  {
    hide Divisible;
    hide RateError;
    hide Wrap;
    BrpExact(freq, l, bitrate, k);
    RateErrorExact(freq, l, bitrate, k);
    hide Brp;
    hide Rate;
    RateBelowTwice(freq, bitrate, 1 + k / 2, Brp(freq, l, bitrate, k));
  }

  lemma RateBelowTwice(freq: nat, bitrate: nat, quanta: nat, brp: nat)
    requires 0 < bitrate && 0 < quanta && 0 < brp && freq / (quanta * bitrate) <= brp
    ensures 0 < brp * quanta && freq / (brp * quanta) <= 2 * bitrate
  {
    PositiveProduct(brp, quanta);
    QuotientBounds(freq, quanta * bitrate);
    Scale(quanta * bitrate, freq / (quanta * bitrate) + 1, 2 * brp);
    assert (quanta * bitrate) * (2 * brp) == (brp * quanta) * (2 * bitrate);
    QuotientBelow(freq, brp * quanta, 2 * bitrate + 1);
  }

  /**
   * The bit rate of a reported timing is within 50 per mille of the request: the selected error never exceeds the
   * request, so the percentage the code compares is not truncated to 32 bits.
   */
  lemma WithinFivePercent(freq: u32, l: Limits, b: Timing, r: Timing)
    requires Exact(l, b.bitrate) && Query(l, b.bitrate) && CalcPost(freq, l, b, Success, r) && r.samplePoint != 0
    ensures Distance(b.bitrate, r.bitrate) * 1000 / b.bitrate <= 50
  {
    hide Divisible;
    hide Brp;
    hide PerMille;
    hide TqOf;
    hide Chosen;
    hide ChosenError;
    var k, x := Reported(freq, l, b, r);
    ErrorBelowRequest(freq, l, b.bitrate, k);
    PerMilleExact(RateError(freq, l, b.bitrate, k), b.bitrate);
    RateErrorExact(freq, l, b.bitrate, k);
    hide Wrap;
    assert r.bitrate == Rate(freq, l, b.bitrate, k);
  }

  /** This setting of the hardware is within 50 per mille of the request. */
  predicate Meets(freq: nat, l: Limits, bitrate: nat, brp: nat, quanta: nat)
    requires bitrate != 0
  {
    QuantaInRange(l, quanta) && 1 <= brp <= l.brpMax &&
    Distance(bitrate, Divided(freq, brp, quanta)) * 1000 / bitrate <= 50
  }

  lemma WinnerMeets(freq: u32, l: Limits, bitrate: u32, k: nat)
    requires Exact(l, bitrate) && Query(l, bitrate) && Usable(freq, l, bitrate, k)
    requires PerMille(RateError(freq, l, bitrate, k), bitrate) <= CALC_MAX_ERROR
    ensures Meets(freq, l, bitrate, Brp(freq, l, bitrate, k), 1 + k / 2)
  {
    hide Divisible;
    hide PerMille;
    ErrorBelowRequest(freq, l, bitrate, k);
    PerMilleExact(RateError(freq, l, bitrate, k), bitrate);
    RateErrorExact(freq, l, bitrate, k);
    hide Brp;
    hide RateError;
    hide Wrap;
  }

  lemma NothingMeets(freq: u32, l: Limits, bitrate: u32, nominal: u32, k: nat, brp: nat, quanta: nat)
    requires Exact(l, bitrate) && Query(l, bitrate) && IsBest(freq, l, bitrate, nominal, k)
    requires PerMille(RateError(freq, l, bitrate, k), bitrate) > CALC_MAX_ERROR
    ensures !Meets(freq, l, bitrate, brp, quanta)
  {
    hide Divisible;
    hide PerMille;
    hide Divided;
    hide Distance;
    hide Brp;
    hide RateError;
    hide Wrap;
    if QuantaInRange(l, quanta) && 1 <= brp <= l.brpMax {
      MinimalRateError(freq, l, bitrate, nominal, k, quanta, brp);
      ErrorBelowRequest(freq, l, bitrate, k);
      hide IsBest;
      LargerFails(RateError(freq, l, bitrate, k), Distance(bitrate, Divided(freq, brp, quanta)), bitrate);
    }
  }

  lemma LargerFails(e: u32, f: nat, bitrate: u32)
    requires e <= bitrate != 0 && e <= f && PerMille(e, bitrate) > CALC_MAX_ERROR
    ensures f * 1000 / bitrate > 50
  {
    PerMilleExact(e, bitrate);
    hide PerMille;
    QuotientMonotone(e * 1000, f * 1000, bitrate);
  }

  /**
   * When the calculation succeeds: if and only if some setting of the hardware is within 50 per mille of the request
   * and the quotient for the longest bit is a possible prescaler. The second condition is the only one under which a
   * request the hardware can meet is refused.
   */
  lemma SucceedsExactly(freq: u32, l: Limits, b: Timing, err: Error, r: Timing)
    requires Exact(l, b.bitrate) && Query(l, b.bitrate) && CalcPost(freq, l, b, err, r)
    ensures err == Success <==>
      Divided(freq, Longest(l), b.bitrate) <= l.brpMax &&
      exists brp: nat, quanta: nat :: Meets(freq, l, b.bitrate, brp, quanta)
  {
    hide Divisible;
    hide RateError;
    hide ChosenError;
    hide PerMille;
    hide Chosen;
    hide Meets;
    hide Divided;
    hide Wrap;
    CandidateCondition(freq, l, b.bitrate);
    hide Usable;
    hide Exact;
    if err == Success {
      ghost var k: nat, tseg1: u32, tseg2: u32, point: u32;
      k, tseg1, tseg2, point :| Selected(freq, l, b, k, tseg1, tseg2, point);
      WinnerMeets(freq, l, b.bitrate, k);
    } else if exists j: nat :: Usable(freq, l, b.bitrate, j) {
      var k: nat :| Wins(freq, l, b.bitrate, Nominal(b), k) &&
        PerMille(RateError(freq, l, b.bitrate, k), b.bitrate) > CALC_MAX_ERROR;
      forall brp: nat, quanta: nat
        ensures !Meets(freq, l, b.bitrate, brp, quanta)
      {
        NothingMeets(freq, l, b.bitrate, Nominal(b), k, brp, quanta);
      }
    }
  }

  // ---------------------------------------------------------------- calculation, then fixup

  /** `x` is `lost` short of `brp` thousand millions; adding half of one, less one, rounds it to `brp` or below. */
  lemma RoundedQuotient(brp: nat, lost: nat, x: nat)
    requires x + lost == brp * 1_000_000_000
    ensures (x + 499_999_999) / 1_000_000_000 == brp <==> lost <= 499_999_999
    ensures 0 <= (x + 499_999_999) / 1_000_000_000 <= brp
  {
    QuotientReaches(x + 499_999_999, 1_000_000_000, brp);
    QuotientBelow(x + 499_999_999, 1_000_000_000, brp + 1);
  }

  /**
   * Rounding in the fixup undoes the truncation of tq exactly when what tq lost, times the clock, is below half a
   * nanosecond scale step.
   */
  lemma PrescalerRoundTrip(freq: u32, l: Limits, brp: u32)
    requires freq != 0 && l.brpInc == 1 && brp * 1_000_000_000 / freq < TWO_32
    ensures NearestBrp(freq, l, TqOf(freq, brp)) == brp <==> brp * 1_000_000_000 % freq <= 499_999_999
  {
    var ns := brp * 1_000_000_000;
    var tq, lost := ns / freq, ns % freq;
    QuotientAtLeast(ns, freq, 0);
    assert freq * tq + lost == ns;
    PrescalerFromQuantum(freq, l, brp, tq, lost);
  }

  lemma PrescalerFromQuantum(freq: u32, l: Limits, brp: u32, tq: u32, lost: nat)
    requires freq != 0 && l.brpInc == 1 && tq == brp * 1_000_000_000 / freq
    requires freq * tq + lost == brp * 1_000_000_000
    ensures NearestBrp(freq, l, TqOf(freq, brp)) == brp <==> lost <= 499_999_999
  {
    hide Wrap;
    WrapSmall(tq);
    assert TqOf(freq, brp) == tq;
    RoundedQuotient(brp, lost, freq * tq);
    WrapSmall((freq * tq + 499_999_999) / 1_000_000_000);
  }

  lemma TqFits(freq: u32, l: Limits, bitrate: u32, k: nat)
    requires freq != 0 && Exact(l, bitrate) && Query(l, bitrate) && InRange(l, k)
    ensures Brp(freq, l, bitrate, k) * 1_000_000_000 / freq < TWO_32
  {
    BrpExact(freq, l, bitrate, k);
    hide Brp;
    QuotientBelow(Brp(freq, l, bitrate, k) * 1_000_000_000, freq, TWO_32);
  }

  predicate SplitInLimits(l: Limits, tseg1: nat, tseg2: nat) {
    l.tseg1Min <= tseg1 <= l.tseg1Max && l.tseg2Min <= tseg2 <= l.tseg2Max
  }

  lemma FixedFromSplit(freq: u32, l: Limits, t: Timing, tseg1: u32, tseg2: u32, brp: u32)
    requires WellFormed(l) && t.propSeg == tseg1 / 2 && t.phaseSeg1 == tseg1 - tseg1 / 2 && t.phaseSeg2 == tseg2
    requires tseg2 != 0 ==> t.sjw != 0
    requires NearestBrp(freq, l, t.tq) == brp && l.brpMin <= brp <= l.brpMax
    ensures Fixed(freq, l, t).0 == (if t.sjw <= l.sjwMax && SplitInLimits(l, tseg1, tseg2) then Success else ERANGE)
    ensures t.sjw <= l.sjwMax && SplitInLimits(l, tseg1, tseg2) ==>
      Fixed(freq, l, t).1 == t.(brp := brp, bitrate := Divided(freq, brp, tseg1 + tseg2 + 1),
                                samplePoint := PointAt(tseg1, tseg1 + tseg2 + 1))
  {
    hide NearestBrp;
    hide Divided;
    hide PointAt;
    hide Wrap;
    WrapSmall(t.propSeg + t.phaseSeg1);
  }

  lemma RateOfExact(freq: u32, l: Limits, brp: u32, tseg1: u32, tseg2: u32)
    requires WellFormed(l) && 1 <= brp <= l.brpMax && tseg1 + tseg2 <= 999
    ensures Wrap(brp * Wrap(1 + tseg1 + tseg2)) != 0
    ensures RateOf(freq, brp, tseg1, tseg2) == Divided(freq, brp, tseg1 + tseg2 + 1)
  {
    WrapSmall(1 + tseg1 + tseg2);
    ProductFits(l, brp, 1 + tseg1 + tseg2);
  }

  lemma TryPoint(l: Limits, nominal: u32, tseg: nat, i: nat)
    requires tseg <= 999
    ensures var x := Try(l, nominal, tseg, i); x.samplePoint == PointOf(tseg, x.tseg2)
  {
    hide PointOf;
    hide Clamp;
    hide Wrap;
  }

  /** The sample point stored with a chosen split within the limits is the one the fixup computes. */
  lemma ChosenPoint(l: Limits, nominal: u32, tseg: nat)
    requires WellFormed(l) && tseg <= 999 && Chosen(l, nominal, tseg).Some?
    ensures var x := Chosen(l, nominal, tseg).value;
      SplitInLimits(l, x.tseg1, x.tseg2) ==>
        x.tseg1 + x.tseg2 == tseg && x.samplePoint == PointAt(x.tseg1, tseg + 1)
  {
    hide Try;
    hide Wrap;
    hide PointOf;
    hide PointError;
    var x := Chosen(l, nominal, tseg).value;
    TryPoint(l, nominal, tseg, 0);
    TryPoint(l, nominal, tseg, 1);
    assert x.samplePoint == PointOf(tseg, x.tseg2);
    SplitSum(l, nominal, tseg);
    hide Chosen;
    if SplitInLimits(l, x.tseg1, x.tseg2) {
      WrapSmall(1 + x.tseg1 + x.tseg2);
      PointExact(tseg, x.tseg2);
    }
  }

  /**
   * Feeding tq and the segments of a reported timing back through the fixup, whatever the other input fields hold and
   * for every clock up to 500 MHz, with `k` the candidate that wins for the request: it returns the same timing if the
   * split of `k` is within the limits, and answers ERANGE otherwise. For nominal points below 100 % and at least one
   * quantum into the shortest bit, that is exactly unless the bit is sampled too early.
   */
  lemma CalcThenFixup(freq: u32, l: Limits, b: Timing, r: Timing, k: nat, brp0: u32, rate0: u32, point0: u32)
    requires freq <= 500_000_000 && Exact(l, b.bitrate) && Query(l, b.bitrate)
    requires CalcPost(freq, l, b, Success, r) && r.samplePoint != 0 && Wins(freq, l, b.bitrate, Nominal(b), k)
    ensures Chosen(l, Nominal(b), k / 2).Some?
    ensures var (err, t) := Fixed(freq, l, r.(brp := brp0, bitrate := rate0, samplePoint := point0));
      var x := Chosen(l, Nominal(b), k / 2).value;
      (if 1 <= l.sjwMax && SplitInLimits(l, x.tseg1, x.tseg2) then err == Success && t == r else err == ERANGE) &&
      (UsableNominal(l, Nominal(b)) ==>
        (err == Success <==> 1 <= l.sjwMax && !SampledTooEarly(l, Nominal(b), 1 + k / 2)))
  {
    hide Divisible;
    hide RateError;
    hide PerMille;
    hide ChosenError;
    hide Fixed;
    hide NearestBrp;
    hide RateOf;
    hide TqOf;
    hide Divided;
    hide PointAt;
    hide Wrap;
    hide Brp;
    hide Chosen;
    hide SampledTooEarly;
    var j, x := Reported(freq, l, b, r);
    OneWinner(freq, l, b.bitrate, Nominal(b), j, k);
    ChosenPoint(l, Nominal(b), k / 2);
    TqFits(freq, l, b.bitrate, k);
    var brp := Brp(freq, l, b.bitrate, k);
    PrescalerRoundTrip(freq, l, brp);
    FixedFromSplit(freq, l, r.(brp := brp0, bitrate := rate0, samplePoint := point0), x.tseg1, x.tseg2, brp);
    if SplitInLimits(l, x.tseg1, x.tseg2) {
      RateOfExact(freq, l, brp, x.tseg1, x.tseg2);
    }
    if UsableNominal(l, Nominal(b)) {
      SplitLimits(l, Nominal(b), k / 2);
    }
  }

  lemma SplitLimits(l: Limits, nominal: u32, tseg: nat)
    requires WellFormed(l) && l.tseg1Min + l.tseg2Min <= tseg <= l.tseg1Max + l.tseg2Max
    requires UsableNominal(l, nominal) && Chosen(l, nominal, tseg).Some?
    ensures var x := Chosen(l, nominal, tseg).value;
      SplitInLimits(l, x.tseg1, x.tseg2) <==> !SampledTooEarly(l, nominal, tseg + 1)
  {
    NominalIsSane(l, nominal, tseg);
    BestSplit(l, nominal, tseg);
    TooShortTseg1(l, nominal, tseg);
  }

  lemma WinnerInRange(freq: u32, l: Limits, bitrate: u32, nominal: u32, k: nat)
    requires Query(l, bitrate) && Wins(freq, l, bitrate, nominal, k)
    ensures QuantaInRange(l, 1 + k / 2)
  {
    hide Divisible;
    hide Brp;
    hide RateError;
    hide ChosenError;
  }

  lemma LateForEveryBit(l: Limits, nominal: nat, quanta: nat)
    requires WellFormed(l) && QuantaInRange(l, quanta) && !SampledTooEarly(l, nominal, l.tseg1Min + l.tseg2Min + 1)
    ensures !SampledTooEarly(l, nominal, quanta)
  {
    Scale(nominal + 1, l.tseg1Min + l.tseg2Min + 1, quanta);
  }

  /**
   * A nominal point late enough for the shortest bit is late enough for every bit, and the round trip is the identity.
   * For the limits of the core that means 75 % and later, the CiA recommendations included.
   */
  lemma LateCalcThenFixup(freq: u32, l: Limits, b: Timing, r: Timing, k: nat, brp0: u32, rate0: u32, point0: u32)
    requires freq <= 500_000_000 && Exact(l, b.bitrate) && Query(l, b.bitrate) && 1 <= l.sjwMax
    requires CalcPost(freq, l, b, Success, r) && r.samplePoint != 0 && Wins(freq, l, b.bitrate, Nominal(b), k)
    requires UsableNominal(l, Nominal(b)) && !SampledTooEarly(l, Nominal(b), l.tseg1Min + l.tseg2Min + 1)
    ensures Fixed(freq, l, r.(brp := brp0, bitrate := rate0, samplePoint := point0)) == (Success, r)
  {
    hide CalcPost;
    hide Divisible;
    hide Fixed;
    hide Chosen;
    CalcThenFixup(freq, l, b, r, k, brp0, rate0, point0);
    WinnerInRange(freq, l, b.bitrate, Nominal(b), k);
    hide Wins;
    LateForEveryBit(l, Nominal(b), 1 + k / 2);
    hide SampledTooEarly;
    hide UsableNominal;
  }

  lemma LateForTheCore(nominal: u32, l: Limits)
    requires l == NOMINAL_LIMITS || l == DATA_LIMITS
    ensures UsableNominal(l, nominal) <==> 250 <= nominal <= 999
    ensures !SampledTooEarly(l, nominal, l.tseg1Min + l.tseg2Min + 1) <==> 750 <= nominal
  {
  }

  /** At 4 MHz and 1 Mbit/s only prescaler 1 with 4 quanta meets the rate. */
  lemma OnlyFourQuanta(k: nat)
    requires Query(NOMINAL_LIMITS, 1_000_000) && Usable(4_000_000, NOMINAL_LIMITS, 1_000_000, k)
    ensures RateError(4_000_000, NOMINAL_LIMITS, 1_000_000, k) == 0 <==> k == 6
  {
    var freq, l, bitrate := 4_000_000, NOMINAL_LIMITS, 1_000_000;
    hide Divisible;
    BrpExact(freq, l, bitrate, k);
    RateErrorExact(freq, l, bitrate, k);
    var brp, quanta := Brp(freq, l, bitrate, k), 1 + k / 2;
    if k == 6 {
      assert quanta * bitrate == 4_000_000;
      assert brp == 1;
    } else {
      FiveQuantaOrMore(brp, quanta, k);
      QuotientBelow(freq, brp * quanta, bitrate);
    }
  }

  lemma FiveQuantaOrMore(brp: nat, quanta: nat, k: nat)
    requires k >= 6 && k != 6 && quanta == 1 + k / 2 && brp >= 1 && brp == 4_000_000 / (quanta * 1_000_000) + k % 2
    ensures 5 <= brp * quanta
  {
    if k == 7 {
      assert brp == 2;
    } else {
      Scale(quanta, 1, brp);
    }
  }

  lemma FourQuantaUsable()
    ensures Exact(NOMINAL_LIMITS, 1_000_000) && Query(NOMINAL_LIMITS, 1_000_000)
    ensures Usable(4_000_000, NOMINAL_LIMITS, 1_000_000, 6)
  {
    ExactQuery(NOMINAL_LIMITS, 1_000_000);
    hide Divisible;
    BrpExact(4_000_000, NOMINAL_LIMITS, 1_000_000, 6);
  }

  /**
   * 4 MHz, 1 Mbit/s, nominal point 50 %: the calculation succeeds and reports a sample point, but with one quantum in
   * tseg1 where the controller needs two, and the fixup refuses what the calculation returned.
   */
  lemma EarlySampleRefused(b: Timing, err: Error, r: Timing)
    requires b.bitrate == 1_000_000 && b.samplePoint == 500 && Query(NOMINAL_LIMITS, 1_000_000)
    requires CalcPost(4_000_000, NOMINAL_LIMITS, b, err, r)
    ensures err == Success && r.samplePoint == 500 && r.propSeg + r.phaseSeg1 == 1 < NOMINAL_LIMITS.tseg1Min
    ensures Fixed(4_000_000, NOMINAL_LIMITS, r).0 == ERANGE
  {
    hide Divisible;
    hide Usable;
    hide Brp;
    hide RateError;
    hide Chosen;
    hide ChosenError;
    hide PerMille;
    hide RateOf;
    hide TqOf;
    FourQuantaUsable();
    forall k: nat | Usable(4_000_000, NOMINAL_LIMITS, 1_000_000, k)
      ensures RateError(4_000_000, NOMINAL_LIMITS, 1_000_000, k) == 0 <==> k == 6
    {
      OnlyFourQuanta(k);
    }
    NoError(1_000_000);
    SplitOfFour();
    assert forall k: nat :: Wins(4_000_000, NOMINAL_LIMITS, 1_000_000, 500, k) ==> k == 6;
  }

  lemma SplitOfFour()
    ensures Chosen(NOMINAL_LIMITS, 500, 3) == Some(Split(1, 2, 500))
  {
    NominalIsSane(NOMINAL_LIMITS, 500, 3);
    TryIsTarget(NOMINAL_LIMITS, 500, 3, 0);
    TryIsTarget(NOMINAL_LIMITS, 500, 3, 1);
    hide Try;
  }

  // ---------------------------------------------------------------- segments given by hand

  /** What the fixup leaves alone on every exit, and the jump width it supplies if the caller gave none. */
  lemma FixupKeeps(freq: u32, l: Limits, b: Timing)
    requires WellFormed(l)
    ensures var (err, r) := Fixed(freq, l, b);
      r.tq == b.tq && r.propSeg == b.propSeg && r.phaseSeg1 == b.phaseSeg1 && r.phaseSeg2 == b.phaseSeg2 &&
      1 <= r.sjw && (b.sjw != 0 ==> r.sjw == b.sjw) && (b.sjw == 0 ==> r.sjw == 1) &&
      (err == ERANGE ==> r.brp == b.brp) &&
      (err != Success ==> r.bitrate == b.bitrate && r.samplePoint == b.samplePoint)
  {
    hide NearestBrp;
    hide Divided;
    hide PointAt;
  }

  /** `p` prescaler steps come nearest to `tq` nanoseconds, the smaller number on a tie. */
  predicate NearestSteps(freq: nat, l: Limits, tq: nat, p: nat)
    requires l.brpInc >= 1
  {
    var scaled := freq * tq / l.brpInc;
    p * 1_000_000_000 - 499_999_999 <= scaled <= p * 1_000_000_000 + 500_000_000
  }

  lemma StepsAreNearest(freq: u32, l: Limits, tq: u32) returns (p: nat)
    requires l.brpInc >= 1
    ensures NearestSteps(freq, l, tq, p) && NearestBrp(freq, l, tq) == p * l.brpInc % 0x1_0000_0000
    ensures l.brpInc == 1 && freq <= 1_000_000_000 ==> NearestBrp(freq, l, tq) == p
  {
    var scaled := freq * tq / l.brpInc;
    QuotientAtLeast(freq * tq, l.brpInc, 0);
    p := (scaled + 499_999_999) / 1_000_000_000;
    QuotientBounds(scaled + 499_999_999, 1_000_000_000);
    if l.brpInc == 1 && freq <= 1_000_000_000 {
      Scale(tq, freq, 1_000_000_000);
      QuotientBelow(scaled + 499_999_999, 1_000_000_000, TWO_32);
    }
  }

  /**
   * When the fixup accepts: ERANGE if and only if a segment or the jump width is outside its limits; otherwise EINVAL
   * if and only if the prescaler nearest to tq is. The first segments are added, and the prescaler stored, in 32 bits.
   */
  lemma FixupAccepts(freq: u32, l: Limits, b: Timing) returns (p: nat)
    requires WellFormed(l)
    ensures var (err, r) := Fixed(freq, l, b);
      var tseg1 := (b.propSeg + b.phaseSeg1) % 0x1_0000_0000;
      (err == ERANGE <==>
        r.sjw > l.sjwMax || tseg1 < l.tseg1Min || tseg1 > l.tseg1Max ||
        b.phaseSeg2 < l.tseg2Min || b.phaseSeg2 > l.tseg2Max) &&
      (err != ERANGE ==> NearestSteps(freq, l, b.tq, p) && r.brp == p * l.brpInc % 0x1_0000_0000) &&
      (err != ERANGE && l.brpInc == 1 && freq <= 1_000_000_000 ==> r.brp == p) &&
      (err == EINVAL <==> err != ERANGE && (r.brp < l.brpMin || r.brp > l.brpMax)) &&
      err != EDOM
  {
    p := StepsAreNearest(freq, l, b.tq);
    hide NearestBrp;
    hide NearestSteps;
    hide Divided;
    hide PointAt;
  }

  /** What a successful fixup computes: the bit rate and the sample point of the accepted segments, rounded down. */
  lemma FixupComputes(freq: u32, l: Limits, b: Timing)
    requires WellFormed(l) && Fixed(freq, l, b).0 == Success
    ensures var r := Fixed(freq, l, b).1;
      var before := (b.propSeg + b.phaseSeg1) % 0x1_0000_0000 + 1;
      var quanta := before + b.phaseSeg2;
      r.brp * quanta * r.bitrate <= freq < r.brp * quanta * (r.bitrate + 1) &&
      quanta * r.samplePoint <= 1000 * before < quanta * (r.samplePoint + 1)
  {
    hide NearestBrp;
    var r := Fixed(freq, l, b).1;
    var before := (b.propSeg + b.phaseSeg1) % 0x1_0000_0000 + 1;
    var quanta := before + b.phaseSeg2;
    PositiveProduct(r.brp, quanta);
    QuotientBounds(freq, r.brp * quanta);
    QuotientBounds(before * 1000, quanta);
  }

  // ---------------------------------------------------------------- register contents

  function FieldsOf(y: Layout, w: nat): (nat, nat, nat, nat, nat)
    requires y == BTR || y == BTR_FD
  {
    (w % y.propSize, w / 0x80 % y.ph1Size, w / 0x2000 % y.ph2Size, w / 0x8_0000 % 256, w / 0x800_0000 % 32)
  }

  predicate FitsLayout(y: Layout, b: Timing) {
    b.propSeg < y.propSize && b.phaseSeg1 < y.ph1Size && b.phaseSeg2 < y.ph2Size && b.brp < 256 && b.sjw < 32
  }

  lemma UnpackFields(y: Layout, p: nat, a: nat, c: nat, r: nat, j: nat)
    requires (y == BTR || y == BTR_FD) && p < y.propSize && a < y.ph1Size && c < y.ph2Size && r < 256 && j < 32
    ensures FieldsOf(y, p + a * 0x80 + c * 0x2000 + r * 0x8_0000 + j * 0x800_0000) == (p, a, c, r, j)
  {
    var w := p + a * 0x80 + c * 0x2000 + r * 0x8_0000 + j * 0x800_0000;
    var aboveBrp := r + 256 * j;
    var abovePh2 := c + 64 * aboveBrp;
    var abovePh1 := a + 64 * abovePh2;
    ExactQuotient(w, 0x80, abovePh1, p);
    ExactQuotient(w, 0x2000, abovePh2, p + a * 0x80);
    ExactQuotient(w, 0x8_0000, aboveBrp, p + a * 0x80 + c * 0x2000);
    ExactQuotient(w, 0x800_0000, j, p + a * 0x80 + c * 0x2000 + r * 0x8_0000);
    var halves := if y == BTR then 1 else 2;
    ExactQuotient(w, y.propSize, halves * abovePh1, p);
    ExactQuotient(abovePh1, y.ph1Size, halves * abovePh2, a);
    ExactQuotient(abovePh2, y.ph2Size, halves * aboveBrp, c);
    ExactQuotient(aboveBrp, 256, j, r);
  }

  /** The register holds the timing exactly when every value fits its field; otherwise bits are lost. */
  lemma RegisterLossless(y: Layout, b: Timing)
    requires y == BTR || y == BTR_FD
    ensures FieldsOf(y, Packed(y, b)) == (b.propSeg, b.phaseSeg1, b.phaseSeg2, b.brp, b.sjw) <==> FitsLayout(y, b)
  {
    hide FieldsOf;
    UnpackFields(y, b.propSeg % y.propSize, b.phaseSeg1 % y.ph1Size, b.phaseSeg2 % y.ph2Size, b.brp % 256, b.sjw % 32);
  }

  /** The setters bound phase segment 1 by 63 in BTR and by 31 in BTR_FD, move the excess, and leave the rest alone. */
  lemma RedistributedAt(y: Layout, b: Timing)
    requires y == BTR || y == BTR_FD
    ensures var d := Redistributed(y, b);
      var most := if y == BTR then 63 else 31;
      d.phaseSeg1 == (if b.phaseSeg1 <= most then b.phaseSeg1 else most) &&
      (d.propSeg + d.phaseSeg1 - b.propSeg - b.phaseSeg1) % 0x1_0000_0000 == 0 &&
      (b.phaseSeg1 <= most ==> d == b) && d == b.(propSeg := d.propSeg, phaseSeg1 := d.phaseSeg1)
  {
  }

  /**
   * The bits of the word written, as driver/ctu_can_fd_regs.h lays them out: PROP in 7 bits and PH1 and PH2 in 6 for
   * BTR; one bit less each, with the bit above reserved and zero, for BTR_FD; BRP in 8 bits and SJW in 5.
   */
  lemma RegisterBits(y: Layout, b: Timing)
    requires y == BTR || y == BTR_FD
    ensures var w := Packed(y, b);
      (y == BTR ==> w % 0x80 == b.propSeg % 128 && w / 0x80 % 64 == b.phaseSeg1 % 64 &&
                    w / 0x2000 % 64 == b.phaseSeg2 % 64) &&
      (y == BTR_FD ==> w % 0x80 == b.propSeg % 64 && w / 0x80 % 64 == b.phaseSeg1 % 32 &&
                       w / 0x2000 % 64 == b.phaseSeg2 % 32) &&
      w / 0x8_0000 % 256 == b.brp % 256 && w / 0x800_0000 == b.sjw % 32
  {
    var p, a, c := b.propSeg % y.propSize, b.phaseSeg1 % y.ph1Size, b.phaseSeg2 % y.ph2Size;
    WordBits(Packed(y, b), p, a, c, b.brp % 256, b.sjw % 32);
  }

  lemma WordBits(w: nat, p: nat, a: nat, c: nat, r: nat, j: nat)
    requires p < 128 && a < 64 && c < 64 && r < 256 && j < 32
    requires w == p + a * 0x80 + c * 0x2000 + r * 0x8_0000 + j * 0x800_0000
    ensures w % 0x80 == p && w / 0x80 % 64 == a && w / 0x2000 % 64 == c && w / 0x8_0000 % 256 == r
    ensures w / 0x800_0000 == j
  {
    var aboveBrp := r + 256 * j;
    var abovePh2 := c + 64 * aboveBrp;
    var abovePh1 := a + 64 * abovePh2;
    ExactQuotient(w, 0x80, abovePh1, p);
    ExactQuotient(w, 0x2000, abovePh2, p + a * 0x80);
    ExactQuotient(w, 0x8_0000, aboveBrp, p + a * 0x80 + c * 0x2000);
    ExactQuotient(w, 0x800_0000, j, p + a * 0x80 + c * 0x2000 + r * 0x8_0000);
    ExactQuotient(abovePh1, 64, abovePh2, a);
    ExactQuotient(abovePh2, 64, aboveBrp, c);
    ExactQuotient(aboveBrp, 256, j, r);
  }

  /** The limits are those of the register fields: tseg1 has room for PROP and PH1 together, the others for one field. */
  lemma LimitsFillRegister(y: Layout, l: Limits)
    requires (y == BTR && l == NOMINAL_LIMITS) || (y == BTR_FD && l == DATA_LIMITS)
    ensures l.tseg1Max == (y.propSize - 1) + (y.ph1Size - 1) && l.tseg2Max == y.ph2Size - 1
    ensures l.brpMax == 255 && l.sjwMax == 31 && l.brpMin == 1 && l.brpInc == 1
  {
  }

  lemma RegisterOfHalves(y: Layout, l: Limits, r: Timing)
    requires (y == BTR && l == NOMINAL_LIMITS) || (y == BTR_FD && l == DATA_LIMITS)
    requires r.propSeg <= r.phaseSeg1 <= r.propSeg + 1 && r.propSeg + r.phaseSeg1 <= l.tseg1Max
    requires r.phaseSeg2 <= l.tseg2Max && r.brp <= l.brpMax && r.sjw <= l.sjwMax
    ensures var d := Redistributed(y, r);
      d.propSeg + d.phaseSeg1 == r.propSeg + r.phaseSeg1 && Redistributed(y, d) == d &&
      FieldsOf(y, Packed(y, d)) == (d.propSeg, d.phaseSeg1, r.phaseSeg2, r.brp, r.sjw)
  {
    hide FieldsOf;
    hide Packed;
    var d := Redistributed(y, r);
    if r.phaseSeg1 > y.ph1Size - 1 { WrapSmall(r.propSeg + (r.phaseSeg1 - (y.ph1Size - 1))); }
    RegisterLossless(y, d);
    assert FitsLayout(y, d);
  }

  /**
   * A reported timing is written to its register without loss: the two segments before the sample point keep their
   * sum, every field reads back as written, and running the setter again at chip start changes nothing.
   */
  lemma RegisterOfCalculated(freq: u32, y: Layout, l: Limits, b: Timing, r: Timing)
    requires (y == BTR && l == NOMINAL_LIMITS) || (y == BTR_FD && l == DATA_LIMITS)
    requires b.bitrate != 0 && Query(l, b.bitrate) && CalcPost(freq, l, b, Success, r) && r.samplePoint != 0
    requires UsableNominal(l, Nominal(b))
    ensures var d := Redistributed(y, r);
      d.propSeg + d.phaseSeg1 == r.propSeg + r.phaseSeg1 && Redistributed(y, d) == d &&
      FieldsOf(y, Packed(y, d)) == (d.propSeg, d.phaseSeg1, r.phaseSeg2, r.brp, r.sjw)
  {
    hide CalcPost;
    hide Divisible;
    hide FieldsOf;
    hide Packed;
    var k, x := Reported(freq, l, b, r);
    WithinLimits(freq, l, b, r, k);
    RegisterOfHalves(y, l, r);
  }

  /** Segments given by hand are not re-split: the fixup accepts this timing and BTR cannot hold it. */
  lemma HandSplitLosesBits()
    ensures var (err, t) := Fixed(100_000_000, NOMINAL_LIMITS, Timing(0, 0, 100, 150, 10, 40, 1, 0));
      err == Success && Redistributed(BTR, t) == t &&
      FieldsOf(BTR, Packed(BTR, t)) != (t.propSeg, t.phaseSeg1, t.phaseSeg2, t.brp, t.sjw)
  {
    hide FieldsOf;
    hide Packed;
    assert NearestBrp(100_000_000, NOMINAL_LIMITS, 100) == 10;
    hide NearestBrp;
    var (err, t) := Fixed(100_000_000, NOMINAL_LIMITS, Timing(0, 0, 100, 150, 10, 40, 1, 0));
    assert t.propSeg == 150;
    RegisterLossless(BTR, t);
  }

  /**
   * The exact condition for segments given by hand: what the fixup accepts is written without loss if and only if the
   * propagation segment fits its field, or the first phase segment does not and gives the excess away.
   */
  lemma RegisterOfFixed(freq: u32, y: Layout, l: Limits, b: Timing, r: Timing)
    requires (y == BTR && l == NOMINAL_LIMITS) || (y == BTR_FD && l == DATA_LIMITS)
    requires Fixed(freq, l, b) == (Success, r)
    ensures var d := Redistributed(y, r);
      FieldsOf(y, Packed(y, d)) == (d.propSeg, d.phaseSeg1, d.phaseSeg2, d.brp, d.sjw) <==>
        if r.phaseSeg1 < y.ph1Size then r.propSeg < y.propSize else y.ph1Size - 1 <= Tseg1Of(r)
    ensures Tseg1Of(Redistributed(y, r)) == Tseg1Of(r)
  {
    hide FieldsOf;
    hide Packed;
    hide NearestBrp;
    hide Divided;
    hide PointAt;
    var d := Redistributed(y, r);
    RegisterLossless(y, d);
    if y.ph1Size <= r.phaseSeg1 {
      MovedExcess(r.propSeg, r.phaseSeg1, y.ph1Size - 1);
    }
  }

  lemma MovedExcess(prop: u32, ph1: u32, most: nat)
    requires most < ph1 && most < 64
    ensures var t := Wrap(prop + ph1); var p := Wrap(prop + (ph1 - most));
      Wrap(p + most) == t && (if most <= t then p == t - most else p == TWO_32 + t - most)
  {
  }

  // ---------------------------------------------------------------- success without a split

  /** No candidate comes closer to the requested bit rate than `k`. */
  ghost predicate LeastRateError(freq: u32, l: Limits, bitrate: u32, k: nat)
    requires Query(l, bitrate)
  {
    Usable(freq, l, bitrate, k) &&
    forall j: nat :: Usable(freq, l, bitrate, j) ==> RateError(freq, l, bitrate, k) <= RateError(freq, l, bitrate, j)
  }

  /** The sample point of a split is never 0. */
  lemma PointPositive(tseg: nat, t: nat)
    requires t <= tseg <= 999
    ensures 1 <= Point(tseg, t)
  {
    QuotientAtLeast(1000 * (tseg + 1 - t), tseg + 1, 1);
  }

  /** The sample point reported for candidate `k` is 0 exactly when the largest tseg2 still samples too late. */
  lemma UnreportedPoint(freq: u32, l: Limits, b: Timing, k: nat, tseg1: u32, tseg2: u32, point: u32)
    requires b.bitrate != 0 && Query(l, b.bitrate) && Selected(freq, l, b, k, tseg1, tseg2, point)
    requires UsableNominal(l, Nominal(b))
    ensures point == 0 <==> ChosenError(l, Nominal(b), k / 2) == UINT_MAX
  {
    hide Divisible;
    hide Brp;
    hide RateError;
    hide PerMille;
    NominalIsSane(l, Nominal(b), k / 2);
    BestSplit(l, Nominal(b), k / 2);
    hide Chosen;
    hide ChosenError;
    hide Point;
    if Chosen(l, Nominal(b), k / 2).Some? {
      PointPositive(k / 2, Chosen(l, Nominal(b), k / 2).value.tseg2);
    }
  }

  lemma CandidateWithoutSplit(freq: u32, l: Limits, bitrate: u32, nominal: u32, j: nat)
    requires Query(l, bitrate) && Usable(freq, l, bitrate, j) && UsableNominal(l, nominal)
    ensures ChosenError(l, nominal, j / 2) == UINT_MAX <==> Unsplittable(l, nominal, 1 + j / 2)
  {
    hide Divisible;
    NominalIsSane(l, nominal, j / 2);
    UnsplittableQuanta(l, nominal, j / 2);
    BestSplit(l, nominal, j / 2);
  }

  /**
   * A calculation succeeds without a sample point exactly when none of the candidates closest to the requested bit
   * rate can be split.
   */
  lemma MissingSplit(freq: u32, l: Limits, b: Timing, r: Timing)
    requires b.bitrate != 0 && Query(l, b.bitrate) && CalcPost(freq, l, b, Success, r) && UsableNominal(l, Nominal(b))
    ensures r.samplePoint == 0 <==>
      forall j: nat :: LeastRateError(freq, l, b.bitrate, j) ==> Unsplittable(l, Nominal(b), 1 + j / 2)
  {
    hide Divisible;
    hide Usable;
    hide Brp;
    hide RateError;
    hide PerMille;
    hide Chosen;
    hide ChosenError;
    hide Unsplittable;
    hide RateOf;
    hide TqOf;
    hide Wrap;
    var nominal := Nominal(b);
    ghost var k: nat, tseg1: u32, tseg2: u32, point: u32;
    k, tseg1, tseg2, point :|
      Selected(freq, l, b, k, tseg1, tseg2, point) &&
      Wrap(Brp(freq, l, b.bitrate, k) * Wrap(1 + tseg1 + tseg2)) != 0 &&
      r == Written(freq, l, b, Brp(freq, l, b.bitrate, k), tseg1, tseg2, point);
    UnreportedPoint(freq, l, b, k, tseg1, tseg2, point);
    hide Selected;
    hide Nominal;
    forall j: nat | Usable(freq, l, b.bitrate, j)
      ensures ChosenError(l, nominal, j / 2) == UINT_MAX <==> Unsplittable(l, nominal, 1 + j / 2)
    {
      CandidateWithoutSplit(freq, l, b.bitrate, nominal, j);
    }
    assert LeastRateError(freq, l, b.bitrate, k);
  }

  /** Longer bits are harder to split, so nothing is left over when the winning one cannot be split. */
  lemma NothingLeftOver(freq: u32, l: Limits, bitrate: u32, nominal: u32, k: nat, tseg1: u32, tseg2: u32)
    requires Query(l, bitrate) && Usable(freq, l, bitrate, k) && UsableNominal(l, nominal)
    requires Chosen(l, nominal, k / 2).None? && Leftover(freq, l, bitrate, nominal, k, tseg1, tseg2)
    ensures tseg1 == 0 && tseg2 == 0
  {
    hide Divisible;
    hide Brp;
    hide Chosen;
    NominalIsSane(l, nominal, k / 2);
    UnsplittableQuanta(l, nominal, k / 2);
    forall j: nat | k < j && Usable(freq, l, bitrate, j)
      ensures Chosen(l, nominal, j / 2).None?
    {
      NominalIsSane(l, nominal, j / 2);
      UnsplittableQuanta(l, nominal, j / 2);
      Scale(999 - nominal, 1 + k / 2, 1 + j / 2);
    }
  }

  /** What a success without a sample point returns: no segments at all, and the clock over the prescaler as bit rate. */
  lemma ZeroSegments(freq: u32, l: Limits, b: Timing, r: Timing)
    requires b.bitrate != 0 && Query(l, b.bitrate) && CalcPost(freq, l, b, Success, r) && UsableNominal(l, Nominal(b))
    requires r.samplePoint == 0
    ensures r.propSeg == 0 && r.phaseSeg1 == 0 && r.phaseSeg2 == 0
    ensures l.brpMin <= r.brp <= l.brpMax && r.bitrate == freq / r.brp
  {
    hide Divisible;
    hide Brp;
    hide RateError;
    hide PerMille;
    hide Chosen;
    hide ChosenError;
    hide TqOf;
    hide Leftover;
    ghost var k: nat, tseg1: u32, tseg2: u32, point: u32;
    k, tseg1, tseg2, point :|
      Selected(freq, l, b, k, tseg1, tseg2, point) &&
      Wrap(Brp(freq, l, b.bitrate, k) * Wrap(1 + tseg1 + tseg2)) != 0 &&
      r == Written(freq, l, b, Brp(freq, l, b.bitrate, k), tseg1, tseg2, point);
    UnreportedPoint(freq, l, b, k, tseg1, tseg2, point);
    NoneWithoutError(l, Nominal(b), k / 2);
    NothingLeftOver(freq, l, b.bitrate, Nominal(b), k, tseg1, tseg2);
    WrapSmall(Brp(freq, l, b.bitrate, k));
    WrapOne();
  }

  lemma NoneWithoutError(l: Limits, nominal: u32, tseg: nat)
    requires tseg <= 999 && ChosenError(l, nominal, tseg) == UINT_MAX
    ensures Chosen(l, nominal, tseg).None?
  {
    hide Chosen;
  }

  /** At 64.77 MHz and 1000 bit/s the loop has one candidate: 254 quanta with prescaler 255, exact. */
  lemma OneCandidate(k: nat)
    requires Query(NOMINAL_LIMITS, 1000)
    ensures Usable(64_770_000, NOMINAL_LIMITS, 1000, k) <==> k == 506
    ensures k == 506 ==>
      Brp(64_770_000, NOMINAL_LIMITS, 1000, k) == 255 && RateError(64_770_000, NOMINAL_LIMITS, 1000, k) == 0
  {
    var freq, l := 64_770_000, NOMINAL_LIMITS;
    hide Divisible;
    if InRange(l, k) {
      BrpExact(freq, l, 1000, k);
      if k / 2 <= 252 {
        QuotientAtLeast(freq, (1 + k / 2) * 1000, 256);
      }
      if k == 506 {
        RateErrorExact(freq, l, 1000, k);
      }
    }
  }

  lemma NoSplitAt254()
    ensures Chosen(NOMINAL_LIMITS, 750, 253).None?
  {
    NominalIsSane(NOMINAL_LIMITS, 750, 253);
    UnsplittableQuanta(NOMINAL_LIMITS, 750, 253);
  }

  /**
   * 64.77 MHz, 1000 bit/s, nominal point 75 %: no split of the 254 quanta samples that early, and the calculation
   * reports success with zero segments, sample point 0 and a bit rate of 254000.
   */
  lemma SuccessWithoutSplit(b: Timing, err: Error, r: Timing)
    requires b.bitrate == 1000 && b.samplePoint == 750 && Query(NOMINAL_LIMITS, 1000)
    requires CalcPost(64_770_000, NOMINAL_LIMITS, b, err, r)
    ensures err == Success && r.samplePoint == 0 && r.bitrate == 254_000
    ensures r.propSeg == 0 && r.phaseSeg1 == 0 && r.phaseSeg2 == 0
  {
    hide Divisible;
    hide Usable;
    hide Brp;
    hide RateError;
    hide Chosen;
    hide PerMille;
    forall k: nat
      ensures Usable(64_770_000, NOMINAL_LIMITS, 1000, k) <==> k == 506
    {
      OneCandidate(k);
    }
    OneCandidate(506);
    NoSplitAt254();
    NoError(1000);
  }
}
