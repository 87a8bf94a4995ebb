/**
 * The APB adaptor src/apb/apb_ifc.vhd cycle by cycle, driven by a master that follows the operating states of the
 * AMBA APB Protocol Specification (ARM IHI 0024): IDLE, SETUP, ACCESS.
 */
module ApbAdaptor {

  /** One clock cycle: the reset line and the bus signals the master drives. */
  datatype Cycle = Cycle(resetN: bool, psel: bool, penable: bool, pwrite: bool) {
    predicate Idle() { !psel }
    predicate Setup() { psel && !penable }
    predicate Access() { psel && penable }
  }

  type Trace = seq<Cycle>

  /** rst_countdown_reg during cycle `i`: 3 in and right after reset, then counting down to 0. */
  function Countdown(t: Trace, i: nat): (c: nat)
    requires i < |t|
    ensures c <= 3
  {
    if !t[i].resetN || i == 0 || !t[i - 1].resetN then 3
    else if Countdown(t, i - 1) > 0 then Countdown(t, i - 1) - 1
    else 0
  }

  /** s_apb_pready. */
  predicate Ready(t: Trace, i: nat)
    requires i < |t|
  {
    Countdown(t, i) == 0
  }

  /** reg_rden_o. */
  predicate ReadEnable(t: Trace, i: nat)
    requires i < |t|
  {
    t[i].psel && !t[i].pwrite && ((!t[i].penable && Ready(t, i)) || Countdown(t, i) == 1)
  }

  /** reg_wren_o. */
  predicate WriteEnable(t: Trace, i: nat)
    requires i < |t|
  {
    t[i].psel && t[i].pwrite && t[i].penable
  }

  /** The step of the master from cycle `i` to the next one. */
  predicate MasterStep(t: Trace, i: nat)
    requires i + 1 < |t|
  {
    var a, b := t[i], t[i + 1];
    if !b.resetN || !a.resetN || a.Idle() || (a.Access() && Ready(t, i)) then b.Idle() || (b.resetN && b.Setup())
    else b.Access() && b.pwrite == a.pwrite
  }

  /** A run of a conforming master from reset. */
  predicate Conforming(t: Trace) {
    (|t| > 0 ==> !t[0].resetN && t[0].Idle()) &&
    (forall i :: 0 <= i < |t| && !t[i].resetN ==> t[i].Idle()) &&
    forall i: nat :: i + 1 < |t| ==> MasterStep(t, i)
  }

  predicate Completes(t: Trace, i: nat)
    requires i < |t|
  {
    t[i].Access() && Ready(t, i)
  }

  /** An access cycle continues a transfer of the cycle before it. */
  lemma AccessContinues(t: Trace, i: nat)
    requires Conforming(t) && i < |t| && t[i].Access()
    ensures i > 0 && t[i].resetN && t[i - 1].resetN && t[i - 1].pwrite == t[i].pwrite
    ensures t[i - 1].Setup() || (t[i - 1].Access() && !Ready(t, i - 1))
  {
    assert i > 0;
    assert MasterStep(t, i - 1);
  }

  /** The read strobe announces a read completing in the next cycle, and every completing read was announced. */
  lemma StrobeMeansCompletion(t: Trace, i: nat)
    requires Conforming(t) && i + 1 < |t| && t[i + 1].resetN
    ensures ReadEnable(t, i) <==> Completes(t, i + 1) && !t[i + 1].pwrite
  {
    assert MasterStep(t, i);
    if Completes(t, i + 1) {
      AccessContinues(t, i + 1);
    }
  }

  /** reg_rden_o is never high two cycles running. */
  lemma StrobeIsOneCycle(t: Trace, i: nat)
    requires Conforming(t) && i + 1 < |t| && ReadEnable(t, i)
    ensures !ReadEnable(t, i + 1)
  {
    if t[i + 1].resetN {
      StrobeMeansCompletion(t, i);
    }
  }

  /** Cycles `s` to `e` are one whole transfer: set up at `s`, completed at `e`, not reset in between. */
  predicate Transfer(t: Trace, s: nat, e: nat) {
    s < e < |t| && t[s].resetN && t[s].Setup() && Completes(t, e) &&
    forall j :: s < j < e ==> t[j].resetN && t[j].Access() && !Ready(t, j)
  }

  lemma {:induction false} SameDirection(t: Trace, s: nat, e: nat, j: nat)
    requires Conforming(t) && Transfer(t, s, e) && s <= j <= e
    ensures t[j].pwrite == t[s].pwrite && t[j].resetN
    decreases j
  {
    if j == s {
    } else {
      AccessContinues(t, j);
      SameDirection(t, s, e, j - 1);
    }
  }

  /** Every read transfer, also one begun during the countdown, is strobed exactly once: in the cycle before it completes. */
  lemma ReadStrobedOnce(t: Trace, s: nat, e: nat, j: nat)
    requires Conforming(t) && Transfer(t, s, e) && !t[s].pwrite && s <= j <= e
    ensures ReadEnable(t, j) <==> j == e - 1
  {
    SameDirection(t, s, e, j);
    SameDirection(t, s, e, e);
    if j < e {
      SameDirection(t, s, e, j + 1);
      StrobeMeansCompletion(t, j);
    }
  }

  lemma {:induction false} CountsDown(t: Trace, s: nat, j: nat)
    requires s <= j < |t| && forall i :: s <= i <= j ==> t[i].resetN
    ensures Countdown(t, j) == if j - s < Countdown(t, s) then Countdown(t, s) - (j - s) else 0
    decreases j
  {
    if j == s {
    } else {
      CountsDown(t, s, j - 1);
    }
  }

  /** After reset the adaptor is not ready for exactly three cycles. */
  lemma ReadyAfterReset(t: Trace, i: nat, j: nat)
    requires i + 1 + j < |t| && !t[i].resetN && forall k :: i < k <= i + 1 + j ==> t[k].resetN
    ensures Ready(t, i + 1 + j) <==> 3 <= j
  {
    CountsDown(t, i + 1, i + 1 + j);
  }

  /** How long a transfer takes: one access cycle, or as many as the countdown still had left at its setup. */
  lemma TransferLength(t: Trace, s: nat, e: nat)
    requires Conforming(t) && Transfer(t, s, e)
    ensures e - s == if Countdown(t, s) == 0 then 1 else Countdown(t, s)
  {
    forall i | s <= i <= e
      ensures t[i].resetN
    {
      SameDirection(t, s, e, i);
    }
    CountsDown(t, s, e);
    CountsDown(t, s, e - 1);
    if s + 1 < e {
      assert !Ready(t, e - 1);
    }
  }

  /** The write strobe marks the access cycles of writes: what it is set up for, never a read, an idle or a setup cycle. */
  lemma WriteStrobeMeansWriteAccess(t: Trace, i: nat)
    requires Conforming(t) && i < |t|
    ensures WriteEnable(t, i) <==>
      exists s :: 0 <= s < i && t[s].Setup() && t[s].pwrite && forall j :: s < j <= i ==> t[j].Access()
  {
    if WriteEnable(t, i) {
      var s := SetupOf(t, i);
      assert 0 <= s < i && t[s].Setup() && t[s].pwrite;
    }
    forall s | 0 <= s < i && t[s].Setup() && t[s].pwrite && (forall j :: s < j <= i ==> t[j].Access())
      ensures WriteEnable(t, i)
    {
      DirectionKept(t, s, i);
    }
  }

  /** Every access cycle belongs to a transfer set up before it, in the same direction. */
  lemma {:induction false} SetupOf(t: Trace, i: nat) returns (s: nat)
    requires Conforming(t) && i < |t| && t[i].Access()
    ensures s < i && t[s].Setup() && t[s].pwrite == t[i].pwrite && forall j :: s < j <= i ==> t[j].Access()
  {
    AccessContinues(t, i);
    if t[i - 1].Setup() {
      s := i - 1;
    } else {
      s := SetupOf(t, i - 1);
    }
  }

  lemma {:induction false} DirectionKept(t: Trace, s: nat, i: nat)
    requires Conforming(t) && s <= i < |t| && forall j :: s < j <= i ==> t[j].Access()
    ensures t[i].pwrite == t[s].pwrite
    decreases i
  {
    if i == s {
    } else {
      AccessContinues(t, i);
      DirectionKept(t, s, i - 1);
    }
  }

  /** No cycle of a read is strobed as a write. */
  lemma ReadNeverWrites(t: Trace, s: nat, e: nat, j: nat)
    requires Conforming(t) && Transfer(t, s, e) && !t[s].pwrite && s <= j <= e
    ensures !WriteEnable(t, j)
  {
    SameDirection(t, s, e, j);
  }

  /** Reset, a write set up at once, and three access cycles until the countdown ends. */
  const EARLY_WRITE: Trace := [
    Cycle(false, false, false, false), Cycle(true, true, false, true),
    Cycle(true, true, true, true), Cycle(true, true, true, true), Cycle(true, true, true, true)]

  /** One conforming write transfer that is strobed three times. */
  lemma WriteStrobedThrice()
    ensures Conforming(EARLY_WRITE) && Transfer(EARLY_WRITE, 1, 4)
    ensures WriteEnable(EARLY_WRITE, 2) && WriteEnable(EARLY_WRITE, 3) && WriteEnable(EARLY_WRITE, 4)
  {
    var t := EARLY_WRITE;
    assert Countdown(t, 0) == 3;
    assert Countdown(t, 1) == 3;
    assert Countdown(t, 2) == 2;
    assert Countdown(t, 3) == 1;
    assert Countdown(t, 4) == 0;
  }

  /**
   * The write strobe has no such guard: it is high in every access cycle, so a write is strobed exactly once if and
   * only if at most one countdown step was left when it was set up.
   */
  lemma WriteStrobedOnce(t: Trace, s: nat, e: nat)
    requires Conforming(t) && Transfer(t, s, e) && t[s].pwrite
    ensures forall j :: s <= j <= e ==> (WriteEnable(t, j) <==> j > s)
    ensures e - s == 1 <==> Countdown(t, s) <= 1
  {
    TransferLength(t, s, e);
    forall j | s <= j <= e
      ensures WriteEnable(t, j) <==> j > s
    {
      SameDirection(t, s, e, j);
    }
  }
}
