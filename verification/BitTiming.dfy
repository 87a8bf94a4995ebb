/** The bit-timing solver of driver/ctu_can_fd_linux_defs.c on 32-bit unsigned arithmetic. */
module BitTiming {
  import opened Words
  import opened Division

  /** struct can_bittiming_const. */
  datatype Limits = Limits(
    tseg1Min: u32, tseg1Max: u32, tseg2Min: u32, tseg2Max: u32,
    sjwMax: u32, brpMin: u32, brpMax: u32, brpInc: u32)

  const NOMINAL_LIMITS: Limits := Limits(2, 190, 1, 63, 31, 1, 255, 1)
  const DATA_LIMITS: Limits := Limits(2, 94, 1, 31, 31, 1, 255, 1)

  const CALC_MAX_ERROR: u32 := 50

  /** Limits of a real controller: nonempty ranges, at most 1000 quanta a bit, no overflow in brp * quanta. */
  predicate WellFormed(l: Limits) {
    1 <= l.tseg1Min <= l.tseg1Max && 1 <= l.tseg2Min <= l.tseg2Max && l.tseg1Max + l.tseg2Max <= 999 &&
    1 <= l.brpMin <= l.brpMax <= 4_000_000 && 1 <= l.brpInc
  }

  /** struct can_bittiming as a value. */
  datatype Timing = Timing(
    bitrate: u32, samplePoint: u32, tq: u32,
    propSeg: u32, phaseSeg1: u32, phaseSeg2: u32, sjw: u32, brp: u32)

  datatype Error = Success | EDOM | ERANGE | EINVAL

  /** abs() applied to an unsigned int: the bits are read as a signed int first. */
  function Abs32(x: u32): (r: u32)
    ensures r <= 0x8000_0000
  {
    if x < 0x8000_0000 then x else TWO_32 - x
  }

  function Clamp(x: u32, lo: u32, hi: u32): u32 {
    var y := if x > lo then x else lo;
    if y < hi then y else hi
  }

  // ---------------------------------------------------------------- can_update_sample_point

  datatype Split = Split(tseg1: u32, tseg2: u32, samplePoint: u32)

  function PointOf(tseg: nat, tseg2: u32): u32
    requires tseg <= 999
  {
    Wrap(1000 * Wrap(tseg + 1 - tseg2)) / (tseg + 1)
  }

  /** Round `i` of the loop: the split it tries. */
  function Try(l: Limits, nominal: u32, tseg: nat, i: nat): Split
    requires tseg <= 999
  {
    var raw := Wrap(tseg + 1 - Wrap(nominal * (tseg + 1)) / 1000 - i);
    var tseg2 := Clamp(raw, l.tseg2Min, l.tseg2Max);
    var tseg1 := Wrap(tseg - tseg2);
    if tseg1 > l.tseg1Max
    then Split(l.tseg1Max, Wrap(tseg - l.tseg1Max), PointOf(tseg, Wrap(tseg - l.tseg1Max)))
    else Split(tseg1, tseg2, PointOf(tseg, tseg2))
  }

  function PointError(nominal: u32, x: Split): u32 {
    Abs32(Wrap(nominal - x.samplePoint))
  }

  /** The split the two rounds leave in *tseg1_ptr and *tseg2_ptr, or None when neither writes one. */
  function Chosen(l: Limits, nominal: u32, tseg: nat): Option<Split>
    requires tseg <= 999
  {
    var a := Try(l, nominal, tseg, 0);
    var b := Try(l, nominal, tseg, 1);
    var aOk := a.samplePoint <= nominal;
    if b.samplePoint <= nominal && (aOk ==> PointError(nominal, b) < PointError(nominal, a)) then Some(b)
    else if aOk then Some(a)
    else None
  }

  /** *sample_point_error_ptr. */
  function ChosenError(l: Limits, nominal: u32, tseg: nat): u32
    requires tseg <= 999
  {
    match Chosen(l, nominal, tseg)
    case None => UINT_MAX
    case Some(x) => PointError(nominal, x)
  }

  /** can_update_sample_point; the split keeps its old value when no round improves on UINT_MAX. */
  method UpdateSamplePoint(l: Limits, nominal: u32, tseg: nat, oldTseg1: u32, oldTseg2: u32)
    returns (samplePoint: u32, tseg1: u32, tseg2: u32, error: u32)
    requires tseg <= 999
    ensures error == ChosenError(l, nominal, tseg)
    ensures match Chosen(l, nominal, tseg)
            case Some(x) => samplePoint == x.samplePoint && tseg1 == x.tseg1 && tseg2 == x.tseg2
            case None => samplePoint == 0 && tseg1 == oldTseg1 && tseg2 == oldTseg2
  {
    hide PointOf;
    hide Abs32;
    hide Clamp;
    hide Wrap;
    samplePoint, error := 0, UINT_MAX;
    tseg1, tseg2 := oldTseg1, oldTseg2;
    var i := 0;
    while i <= 1
      invariant 0 <= i <= 2
      invariant i == 0 ==> samplePoint == 0 && error == UINT_MAX && tseg1 == oldTseg1 && tseg2 == oldTseg2
      invariant i == 1 ==>
        var a := Try(l, nominal, tseg, 0);
        if a.samplePoint <= nominal
        then samplePoint == a.samplePoint && error == PointError(nominal, a) && tseg1 == a.tseg1 && tseg2 == a.tseg2
        else samplePoint == 0 && error == UINT_MAX && tseg1 == oldTseg1 && tseg2 == oldTseg2
      invariant i == 2 ==> error == ChosenError(l, nominal, tseg)
      invariant i == 2 ==>
        match Chosen(l, nominal, tseg)
        case Some(x) => samplePoint == x.samplePoint && tseg1 == x.tseg1 && tseg2 == x.tseg2
        case None => samplePoint == 0 && tseg1 == oldTseg1 && tseg2 == oldTseg2
    {
      var t2 := Clamp(Wrap(tseg + 1 - Wrap(nominal * (tseg + 1)) / 1000 - i), l.tseg2Min, l.tseg2Max);
      var t1 := Wrap(tseg - t2);
      if t1 > l.tseg1Max {
        t1 := l.tseg1Max;
        t2 := Wrap(tseg - t1);
      }
      var point := PointOf(tseg, t2);
      var pointError := Abs32(Wrap(nominal - point));
      assert Split(t1, t2, point) == Try(l, nominal, tseg, i);
      if point <= nominal && pointError < error {
        samplePoint, error, tseg1, tseg2 := point, pointError, t1, t2;
      }
      i := i + 1;
    }
  }

  // ---------------------------------------------------------------- can_calc_bittiming

  /** Loop values of tseg: twice the number of quanta after sync, plus one to round the prescaler up. */
  predicate InRange(l: Limits, k: nat) {
    2 * (l.tseg1Min + l.tseg2Min) <= k <= 2 * (l.tseg1Max + l.tseg2Max) + 1
  }

  /** The divisions by quanta * bitrate are defined; the C code divides by that 32-bit product. */
  ghost predicate Divisible(l: Limits, bitrate: u32) {
    forall k: nat :: InRange(l, k) ==> Wrap((1 + k / 2) * bitrate) != 0
  }

  ghost predicate Query(l: Limits, bitrate: u32) {
    WellFormed(l) && Divisible(l, bitrate)
  }

  function Brp(freq: u32, l: Limits, bitrate: u32, k: nat): u32
    requires Query(l, bitrate) && InRange(l, k)
  {
    var brp := Wrap(freq / Wrap((1 + k / 2) * bitrate) + k % 2);
    Wrap(brp / l.brpInc * l.brpInc)
  }

  predicate Usable(freq: u32, l: Limits, bitrate: u32, k: nat): (usable: bool)
    requires Query(l, bitrate)
    ensures usable ==> InRange(l, k) && k / 2 <= 999
  {
    InRange(l, k) && l.brpMin <= Brp(freq, l, bitrate, k) <= l.brpMax
  }

  lemma ProductFits(l: Limits, brp: nat, quanta: nat)
    requires WellFormed(l) && 1 <= brp <= l.brpMax && 1 <= quanta <= 1000
    ensures 1 <= brp * quanta < TWO_32 && Wrap(brp * quanta) == brp * quanta
  {
    Scale(brp, 1, quanta);
    Scale(brp, quanta, 1000);
  }

  function Rate(freq: u32, l: Limits, bitrate: u32, k: nat): u32
    requires Query(l, bitrate) && Usable(freq, l, bitrate, k)
  {
    ProductFits(l, Brp(freq, l, bitrate, k), 1 + k / 2);
    freq / Wrap(Brp(freq, l, bitrate, k) * (1 + k / 2))
  }

  function RateError(freq: u32, l: Limits, bitrate: u32, k: nat): (e: u32)
    requires Query(l, bitrate) && Usable(freq, l, bitrate, k)
    ensures e <= 0x8000_0000
  {
    Abs32(Wrap(bitrate - Rate(freq, l, bitrate, k)))
  }

  predicate LexLe(a: u32, b: u32, c: u32, d: u32) {
    a < c || (a == c && b <= d)
  }

  /** No candidate of the whole range has a smaller (bit-rate error, sample-point error). */
  ghost predicate IsBest(freq: u32, l: Limits, bitrate: u32, nominal: u32, k: nat)
    requires Query(l, bitrate)
  {
    Usable(freq, l, bitrate, k) &&
    forall j: nat :: Usable(freq, l, bitrate, j) ==>
      LexLe(RateError(freq, l, bitrate, k), ChosenError(l, nominal, k / 2),
            RateError(freq, l, bitrate, j), ChosenError(l, nominal, j / 2))
  }

  /** Loop value `k` is a candidate with these two errors. */
  ghost predicate HasErrors(freq: u32, l: Limits, bitrate: u32, nominal: u32, k: nat, rateError: u32, pointError: u32)
    requires Query(l, bitrate)
  {
    Usable(freq, l, bitrate, k) && RateError(freq, l, bitrate, k) == rateError &&
    ChosenError(l, nominal, k / 2) == pointError
  }

  /**
   * The candidate the search ends with, as a property of the request: the best one; of several equally good ones the
   * first if it is perfect, since the search stops there, and the last otherwise. The loop counts downwards.
   */
  ghost predicate Wins(freq: u32, l: Limits, bitrate: u32, nominal: u32, k: nat)
    requires Query(l, bitrate)
  {
    IsBest(freq, l, bitrate, nominal, k) &&
    var rateError, pointError := RateError(freq, l, bitrate, k), ChosenError(l, nominal, k / 2);
    forall j: nat :: HasErrors(freq, l, bitrate, nominal, j, rateError, pointError) ==>
      if rateError == 0 && pointError == 0 then j <= k else k <= j
  }

  /** A split left over from a candidate tried before `k`, or the initial zeros. */
  ghost predicate Leftover(freq: u32, l: Limits, bitrate: u32, nominal: u32, k: nat, tseg1: u32, tseg2: u32)
    requires Query(l, bitrate)
  {
    (tseg1 == 0 && tseg2 == 0) ||
    exists j: nat :: k < j && Usable(freq, l, bitrate, j) && Chosen(l, nominal, j / 2).Some? &&
      Chosen(l, nominal, j / 2).value.tseg1 == tseg1 && Chosen(l, nominal, j / 2).value.tseg2 == tseg2
  }

  /** The prescaler and bit-rate error of loop value `k`. */
  method Evaluate(freq: u32, l: Limits, bitrate: u32, k: nat) returns (usable: bool, brp: u32, rateError: u32)
    requires Query(l, bitrate) && InRange(l, k)
    ensures usable <==> Usable(freq, l, bitrate, k)
    ensures usable ==> brp == Brp(freq, l, bitrate, k) && rateError == RateError(freq, l, bitrate, k)
  {
    rateError := UINT_MAX;
    var tsegall := 1 + k / 2;
    brp := Wrap(freq / Wrap(tsegall * bitrate) + k % 2);
    brp := Wrap(brp / l.brpInc * l.brpInc);
    usable := l.brpMin <= brp <= l.brpMax;
    if usable {
      ProductFits(l, brp, tsegall);
      var rate := freq / Wrap(brp * tsegall);
      rateError := Abs32(Wrap(bitrate - rate));
    }
  }

  /** The search loop of can_calc_bittiming with its early exit. */
  method Search(freq: u32, l: Limits, bitrate: u32, nominal: u32)
    returns (bestError: u32, bestTseg: u32, bestBrp: u32, tseg1: u32, tseg2: u32, ghost winner: nat)
    requires Query(l, bitrate)
    ensures bestError == UINT_MAX <==> forall k: nat :: !Usable(freq, l, bitrate, k)
    ensures bestError != UINT_MAX ==>
      Wins(freq, l, bitrate, nominal, winner) && bestTseg == winner / 2 &&
      bestBrp == Brp(freq, l, bitrate, winner) && bestError == RateError(freq, l, bitrate, winner)
    ensures bestError != UINT_MAX && Chosen(l, nominal, winner / 2).None? ==>
      Leftover(freq, l, bitrate, nominal, winner, tseg1, tseg2)
  {
    hide Divisible;
    hide Usable;
    hide Brp;
    hide RateError;
    hide Chosen;
    var bestPointError: u32 := UINT_MAX;
    bestError, bestTseg, bestBrp, tseg1, tseg2 := UINT_MAX, 0, 0, 0, 0;
    winner := 0;
    var lo := (l.tseg1Min + l.tseg2Min) * 2;
    var tseg := (l.tseg1Max + l.tseg2Max) * 2 + 1;
    while tseg >= lo
      invariant lo - 1 <= tseg <= (l.tseg1Max + l.tseg2Max) * 2 + 1
      invariant bestError == UINT_MAX ==> tseg1 == 0 && tseg2 == 0
      invariant bestError != UINT_MAX && bestPointError == UINT_MAX ==>
        Leftover(freq, l, bitrate, nominal, winner, tseg1, tseg2)
      invariant Leftover(freq, l, bitrate, nominal, tseg, tseg1, tseg2)
      invariant bestError == UINT_MAX ==>
        bestPointError == UINT_MAX && forall j: nat :: tseg < j ==> !Usable(freq, l, bitrate, j)
      invariant bestError != UINT_MAX ==>
        Usable(freq, l, bitrate, winner) && tseg < winner && bestTseg == winner / 2 &&
        bestBrp == Brp(freq, l, bitrate, winner) && bestError == RateError(freq, l, bitrate, winner) &&
        bestPointError == ChosenError(l, nominal, winner / 2) && !(bestError == 0 && bestPointError == 0)
      invariant forall j: nat :: tseg < j && HasErrors(freq, l, bitrate, nominal, j, bestError, bestPointError) ==>
        winner <= j
      invariant forall j: nat :: tseg < j && Usable(freq, l, bitrate, j) ==>
        LexLe(bestError, bestPointError, RateError(freq, l, bitrate, j), ChosenError(l, nominal, j / 2))
      decreases tseg
    {
      var usable, brp, rateError := Evaluate(freq, l, bitrate, tseg);
      if usable && rateError <= bestError {
        if rateError < bestError {
          bestPointError := UINT_MAX;
        }
        var point, pointError;
        point, tseg1, tseg2, pointError := UpdateSamplePoint(l, nominal, tseg / 2, tseg1, tseg2);
        if pointError <= bestPointError {
          bestPointError, bestError, bestTseg, bestBrp := pointError, rateError, tseg / 2, brp;
          winner := tseg;
          if rateError == 0 && pointError == 0 {
            return;
          }
        }
      }
      tseg := tseg - 1;
    }
  }

  /** The nominal sample point: the caller's, or the CiA recommendation for the bit rate. */
  function Nominal(b: Timing): u32 {
    if b.samplePoint != 0 then b.samplePoint
    else if b.bitrate > 800000 then 750
    else if b.bitrate > 500000 then 800
    else 875
  }

  /** The bit-rate error in tenths of a percent, truncated to 32 bits as the code does. */
  function PerMille(rateError: u32, bitrate: u32): u32
    requires bitrate != 0
  {
    Wrap(rateError * 1000 / bitrate)
  }

  function SjwFor(l: Limits, sjw: u32, tseg2: u32): u32 {
    if sjw == 0 || l.sjwMax == 0 then 1
    else
      var capped := if sjw > l.sjwMax then l.sjwMax else sjw;
      if tseg2 < capped then tseg2 else capped
  }

  /** The bit rate that prescaler and segments give. */
  function RateOf(freq: u32, brp: u32, tseg1: u32, tseg2: u32): u32
    requires Wrap(brp * Wrap(1 + tseg1 + tseg2)) != 0
  {
    freq / Wrap(brp * Wrap(1 + tseg1 + tseg2))
  }

  /** The length of one quantum in nanoseconds. */
  function TqOf(freq: u32, brp: u32): u32
    requires freq != 0
  {
    Wrap(brp * 1_000_000_000 / freq)
  }

  /** The tail of can_calc_bittiming: the fields written from the chosen prescaler and split. */
  function Written(freq: u32, l: Limits, before: Timing, brp: u32, tseg1: u32, tseg2: u32, point: u32): Timing
    requires freq != 0 && Wrap(brp * Wrap(1 + tseg1 + tseg2)) != 0
  {
    Timing(
      RateOf(freq, brp, tseg1, tseg2), point, TqOf(freq, brp),
      tseg1 / 2, tseg1 - tseg1 / 2, tseg2, SjwFor(l, before.sjw, tseg2), brp)
  }

  /** struct can_bittiming, updated in place by the solver and the register setters. */
  class Bittiming {
    var bitrate: u32
    var samplePoint: u32
    var tq: u32
    var propSeg: u32
    var phaseSeg1: u32
    var phaseSeg2: u32
    var sjw: u32
    var brp: u32

    function Value(): Timing
      reads this
    {
      Timing(bitrate, samplePoint, tq, propSeg, phaseSeg1, phaseSeg2, sjw, brp)
    }

    constructor (t: Timing)
      ensures Value() == t
    {
      bitrate, samplePoint, tq := t.bitrate, t.samplePoint, t.tq;
      propSeg, phaseSeg1, phaseSeg2 := t.propSeg, t.phaseSeg1, t.phaseSeg2;
      sjw, brp := t.sjw, t.brp;
    }
  }

  /** Selected: the winning candidate `k` within the error limit, and the split written for it or left over. */
  ghost predicate Selected(freq: u32, l: Limits, b: Timing, k: nat, tseg1: u32, tseg2: u32, point: u32)
    requires Query(l, b.bitrate) && b.bitrate != 0
  {
    Wins(freq, l, b.bitrate, Nominal(b), k) &&
    PerMille(RateError(freq, l, b.bitrate, k), b.bitrate) <= CALC_MAX_ERROR &&
    match Chosen(l, Nominal(b), k / 2)
    case Some(x) => tseg1 == x.tseg1 && tseg2 == x.tseg2 && point == x.samplePoint
    case None => point == 0 && Leftover(freq, l, b.bitrate, Nominal(b), k, tseg1, tseg2)
  }

  /** What can_calc_bittiming may return for `b`. */
  ghost predicate CalcPost(freq: u32, l: Limits, b: Timing, err: Error, r: Timing)
    requires Query(l, b.bitrate) && b.bitrate != 0
  {
    match err
    case EDOM =>
      r == b &&
      ((forall k: nat :: !Usable(freq, l, b.bitrate, k)) ||
       exists k: nat :: Wins(freq, l, b.bitrate, Nominal(b), k) &&
         PerMille(RateError(freq, l, b.bitrate, k), b.bitrate) > CALC_MAX_ERROR)
    case Success =>
      freq != 0 &&
      exists k: nat, tseg1: u32, tseg2: u32, point: u32 ::
        Selected(freq, l, b, k, tseg1, tseg2, point) &&
        Wrap(Brp(freq, l, b.bitrate, k) * Wrap(1 + tseg1 + tseg2)) != 0 &&
        r == Written(freq, l, b, Brp(freq, l, b.bitrate, k), tseg1, tseg2, point)
    case _ => false
  }

  lemma WrapOfTwo(m: nat, x: nat)
    requires x < TWO_32
    ensures Wrap(TWO_32 * m + x) == x
  {
  }

  /** (2^32 - 1) * 1000 / b, through the quotient and remainder of 1000 by b. */
  lemma HugeQuotient(bitrate: nat, c: nat, e: nat, x: nat)
    requires bitrate > 0 && 1000 == bitrate * c + e && x == UINT_MAX * e / bitrate
    ensures UINT_MAX * 1000 / bitrate == UINT_MAX * c + x
  {
    QuotientBounds(UINT_MAX * e, bitrate);
    var r := UINT_MAX * e - bitrate * x;
    assert bitrate * (x + 1) == bitrate * x + bitrate;
    calc {
      UINT_MAX * 1000;
      UINT_MAX * (bitrate * c) + UINT_MAX * e;
      bitrate * (UINT_MAX * c) + (bitrate * x + r);
      bitrate * (UINT_MAX * c + x) + r;
    }
    ExactQuotient(UINT_MAX * 1000, bitrate, UINT_MAX * c + x, r);
  }

  /** For a bit rate up to 1000 the quotient does not fit in 32 bits, yet its low word stays large. */
  lemma HugeErrorSlow(bitrate: nat)
    requires 1 <= bitrate <= 1000
    ensures Wrap(UINT_MAX * 1000 / bitrate) > CALC_MAX_ERROR
  {
    var c, e := 1000 / bitrate, 1000 % bitrate;
    var x := UINT_MAX * e / bitrate;
    QuotientAtLeast(1000, bitrate, 1);
    QuotientAntitone(1000, 1, bitrate);
    HugeQuotient(bitrate, c, e, x);
    if e == 0 {
      WrapOfTwo(c - 1, TWO_32 - c);
    } else {
      HugeRemainder(bitrate, e);
      WrapOfTwo(c, x - c);
    }
  }

  lemma HugeRemainder(bitrate: nat, e: nat)
    requires 1 <= e < bitrate <= 1000
    ensures 4_000_000 <= UINT_MAX * e / bitrate < UINT_MAX
  {
    QuotientAtLeast(UINT_MAX * e, bitrate, 4_000_000);
    QuotientBelow(UINT_MAX * e, bitrate, UINT_MAX);
  }

  /** With no usable candidate the error check always fails, for every bit rate, in spite of the 32-bit truncation. */
  lemma HugeError(bitrate: u32)
    requires bitrate != 0
    ensures PerMille(UINT_MAX, bitrate) > CALC_MAX_ERROR
  {
    if bitrate <= 1000 {
      HugeErrorSlow(bitrate);
    } else {
      QuotientAtLeast(UINT_MAX * 1000, bitrate, 999);
      QuotientBelow(UINT_MAX * 1000, bitrate, TWO_32);
    }
  }

  lemma NoError(bitrate: u32)
    requires bitrate != 0
    ensures PerMille(0, bitrate) == 0
  {
  }

  /** The segments of any split the solver writes add up to the quanta it was computed for. */
  lemma SplitSum(l: Limits, nominal: u32, tseg: nat)
    requires tseg <= 999 && Chosen(l, nominal, tseg).Some?
    ensures var x := Chosen(l, nominal, tseg).value; Wrap(1 + x.tseg1 + x.tseg2) == tseg + 1
  {
    TrySum(l, nominal, tseg, 0);
    TrySum(l, nominal, tseg, 1);
  }

  lemma WrapSum(tseg: nat, x: u32)
    requires tseg <= 999
    ensures Wrap(1 + Wrap(tseg - x) + x) == tseg + 1
  {
  }

  lemma WrapOne()
    ensures Wrap(1) == 1
  {
  }

  lemma TrySum(l: Limits, nominal: u32, tseg: nat, i: nat)
    requires tseg <= 999
    ensures var x := Try(l, nominal, tseg, i); Wrap(1 + x.tseg1 + x.tseg2) == tseg + 1
  {
    hide PointOf;
    hide Clamp;
    hide Wrap;
    var x := Try(l, nominal, tseg, i);
    WrapSum(tseg, x.tseg2);
    WrapSum(tseg, l.tseg1Max);
    assert 1 + x.tseg1 + x.tseg2 == 1 + x.tseg2 + x.tseg1;
  }

  lemma SelectedDivides(freq: u32, l: Limits, b: Timing, k: nat, tseg1: u32, tseg2: u32, point: u32)
    requires Query(l, b.bitrate) && b.bitrate != 0 && Selected(freq, l, b, k, tseg1, tseg2, point)
    ensures 1 <= Wrap(1 + tseg1 + tseg2) <= 1000
    ensures Wrap(Brp(freq, l, b.bitrate, k) * Wrap(1 + tseg1 + tseg2)) != 0
  {
    hide Divisible;
    hide Brp;
    hide Chosen;
    hide RateError;
    hide PerMille;
    hide Wrap;
    WrapOne();
    var nominal := Nominal(b);
    if Chosen(l, nominal, k / 2).Some? {
      SplitSum(l, nominal, k / 2);
    } else if !(tseg1 == 0 && tseg2 == 0) {
      var j: nat :| Usable(freq, l, b.bitrate, j) && Chosen(l, nominal, j / 2).Some? &&
        Chosen(l, nominal, j / 2).value.tseg1 == tseg1 && Chosen(l, nominal, j / 2).value.tseg2 == tseg2;
      SplitSum(l, nominal, j / 2);
    }
    ProductFits(l, Brp(freq, l, b.bitrate, k), Wrap(1 + tseg1 + tseg2));
  }

  /** The assignments to *bt after the search. */
  method WriteTiming(freq: u32, l: Limits, bt: Bittiming, brp: u32, tseg1: u32, tseg2: u32, point: u32)
    requires freq != 0 && Wrap(brp * Wrap(1 + tseg1 + tseg2)) != 0
    modifies bt
    ensures bt.Value() == Written(freq, l, old(bt.Value()), brp, tseg1, tseg2, point)
  {
    hide RateOf;
    hide TqOf;
    hide Wrap;
    bt.samplePoint := point;
    bt.tq := TqOf(freq, brp);
    bt.propSeg := tseg1 / 2;
    bt.phaseSeg1 := tseg1 - bt.propSeg;
    bt.phaseSeg2 := tseg2;
    if bt.sjw == 0 || l.sjwMax == 0 {
      bt.sjw := 1;
    } else {
      if bt.sjw > l.sjwMax {
        bt.sjw := l.sjwMax;
      }
      if tseg2 < bt.sjw {
        bt.sjw := tseg2;
      }
    }
    bt.brp := brp;
    bt.bitrate := RateOf(freq, brp, tseg1, tseg2);
  }

  /** can_calc_bittiming; the clock frequency is nonzero because the code divides by it. */
  method CalcBittiming(freq: u32, l: Limits, bt: Bittiming) returns (err: Error)
    requires freq != 0 && bt.bitrate != 0 && Query(l, bt.bitrate)
    modifies bt
    ensures CalcPost(freq, l, old(bt.Value()), err, bt.Value())
  {
    hide Divisible;
    hide Usable;
    hide Brp;
    hide RateError;
    hide Chosen;
    hide Written;
    hide Wrap;
    ghost var b := bt.Value();
    var nominal := Nominal(bt.Value());
    var bestError, bestTseg, bestBrp, tseg1, tseg2;
    ghost var k: nat;
    bestError, bestTseg, bestBrp, tseg1, tseg2, k := Search(freq, l, bt.bitrate, nominal);
    if bestError != 0 {
      if PerMille(bestError, bt.bitrate) > CALC_MAX_ERROR {
        return EDOM;
      }
    }
    if bestError == UINT_MAX {
      HugeError(bt.bitrate);
      assert false;
    }
    var point, pointError;
    point, tseg1, tseg2, pointError := UpdateSamplePoint(l, nominal, bestTseg, tseg1, tseg2);
    NoError(b.bitrate);
    assert Selected(freq, l, b, k, tseg1, tseg2, point);
    SelectedDivides(freq, l, b, k, tseg1, tseg2, point);
    WriteTiming(freq, l, bt, bestBrp, tseg1, tseg2, point);
    err := Success;
  }

  // ---------------------------------------------------------------- can_fixup_bittiming

  /** The prescaler nearest to tq * freq, rounded half down. */
  function NearestBrp(freq: u32, l: Limits, tq: u32): u32 {
    var scaled := if l.brpInc > 1 then freq * tq / l.brpInc else freq * tq;
    var rounded := (scaled + 499_999_999) / 1_000_000_000;
    Wrap(if l.brpInc > 1 then rounded * l.brpInc else rounded)
  }

  function Tseg1Of(b: Timing): u32 {
    Wrap(b.propSeg + b.phaseSeg1)
  }

  predicate SegmentsOk(l: Limits, b: Timing, sjw: u32) {
    sjw <= l.sjwMax && l.tseg1Min <= Tseg1Of(b) <= l.tseg1Max && l.tseg2Min <= b.phaseSeg2 <= l.tseg2Max
  }

  lemma AllQuanta(l: Limits, b: Timing)
    requires WellFormed(l) && SegmentsOk(l, b, 0)
    ensures Wrap(b.propSeg + b.phaseSeg1 + b.phaseSeg2 + 1) == Tseg1Of(b) + b.phaseSeg2 + 1 <= 1000
  {
    var m := (b.propSeg + b.phaseSeg1) / TWO_32;
    assert b.propSeg + b.phaseSeg1 == TWO_32 * m + Tseg1Of(b);
    WrapOfTwo(m, Tseg1Of(b) + b.phaseSeg2 + 1);
  }

  /** The sample point of `tseg1` quanta after sync, in tenths of a percent. */
  function PointAt(tseg1: nat, quanta: nat): (p: nat)
    requires tseg1 < quanta
    ensures p <= 1000
  {
    QuotientBelow((tseg1 + 1) * 1000, quanta, 1001);
    (tseg1 + 1) * 1000 / quanta
  }

  /** What can_fixup_bittiming returns and leaves in *bt, on each of its three exits. */
  function Fixed(freq: u32, l: Limits, b: Timing): (Error, Timing)
    requires WellFormed(l)
  {
    var sjw := if b.sjw == 0 then 1 else b.sjw;
    if !SegmentsOk(l, b, sjw) then (ERANGE, b.(sjw := sjw))
    else
      var brp := NearestBrp(freq, l, b.tq);
      if brp < l.brpMin || brp > l.brpMax then (EINVAL, b.(sjw := sjw, brp := brp))
      else
        var quanta := Tseg1Of(b) + b.phaseSeg2 + 1;
        (Success, b.(sjw := sjw, brp := brp, bitrate := Divided(freq, brp, quanta),
                     samplePoint := PointAt(Tseg1Of(b), quanta)))
  }

  /** can_fixup_bittiming. */
  method FixupBittiming(freq: u32, l: Limits, bt: Bittiming) returns (err: Error)
    requires WellFormed(l)
    modifies bt
    ensures (err, bt.Value()) == Fixed(freq, l, old(bt.Value()))
  {
    hide NearestBrp;
    hide PointAt;
    hide Wrap;
    var tseg1 := Wrap(bt.propSeg + bt.phaseSeg1);
    if bt.sjw == 0 {
      bt.sjw := 1;
    }
    if bt.sjw > l.sjwMax || tseg1 < l.tseg1Min || tseg1 > l.tseg1Max ||
       bt.phaseSeg2 < l.tseg2Min || bt.phaseSeg2 > l.tseg2Max {
      return ERANGE;
    }
    bt.brp := NearestBrp(freq, l, bt.tq);
    if bt.brp < l.brpMin || bt.brp > l.brpMax {
      return EINVAL;
    }
    AllQuanta(l, bt.Value());
    var alltseg := Wrap(bt.propSeg + bt.phaseSeg1 + bt.phaseSeg2 + 1);
    ProductFits(l, bt.brp, alltseg);
    bt.bitrate := freq / Wrap(bt.brp * alltseg);
    assert bt.bitrate == Divided(freq, bt.brp, alltseg);
    bt.samplePoint := PointAt(tseg1, alltseg);
    err := Success;
  }

  // ---------------------------------------------------------------- register setters

  /** Bit positions and widths of BTR (nominal) and BTR_FD (data); both keep PH1 at bit 7, PH2 at 13, BRP at 19, SJW at 27. */
  datatype Layout = Layout(propSize: nat, ph1Size: nat, ph2Size: nat)

  /** 7, 6 and 6 bits. */
  const BTR: Layout := Layout(128, 64, 64)
  /** 6, 5 and 5 bits. */
  const BTR_FD: Layout := Layout(64, 32, 32)

  /** Phase segment 1 takes what its field holds, the rest moves to the propagation segment. */
  function Redistributed(y: Layout, b: Timing): Timing
    requires 0 < y.ph1Size <= 64
  {
    if b.phaseSeg1 > y.ph1Size - 1
    then b.(propSeg := Wrap(b.propSeg + (b.phaseSeg1 - (y.ph1Size - 1))), phaseSeg1 := y.ph1Size - 1)
    else b
  }

  /** The bitfield assignments: each value is cut to the width of its field. */
  function Packed(y: Layout, b: Timing): (w: nat)
    requires y == BTR || y == BTR_FD
  {
    b.propSeg % y.propSize + b.phaseSeg1 % y.ph1Size * 0x80 + b.phaseSeg2 % y.ph2Size * 0x2000 +
    b.brp % 256 * 0x8_0000 + b.sjw % 32 * 0x800_0000
  }

  /** ctu_can_fd_set_nom_bittiming (BTR) and ctu_can_fd_set_data_bittiming (BTR_FD): the word written. */
  method SetBittiming(y: Layout, bt: Bittiming) returns (word: nat)
    requires y == BTR || y == BTR_FD
    modifies bt
    ensures bt.Value() == Redistributed(y, old(bt.Value()))
    ensures word == Packed(y, Redistributed(y, old(bt.Value())))
  {
    var prop, ph1 := bt.propSeg, bt.phaseSeg1;
    if ph1 > y.ph1Size - 1 {
      prop := Wrap(prop + (ph1 - (y.ph1Size - 1)));
      ph1 := y.ph1Size - 1;
      bt.propSeg := prop;
      bt.phaseSeg1 := ph1;
    }
    word := Packed(y, bt.Value());
  }
}
