/**
 * The transmit half of the driver as it is written: an object whose methods update txb_head, txb_tail, txb_prio, the
 * echo slots, the counters and the device registers, with other threads and the core running between any two accesses.
 * Every method is an execution of the step system of TxRing.
 */
module TxDriver {
  import opened Words
  import opened TxPriority
  import opened TxRing
  import opened TxRingSafety
  import opened TxRingTheorems

  datatype XmitResult = TxOk | TxBusy

  /** Steps of one thread leave the control point and the log of the other alone. */
  lemma StepFrame(c: Config, s: State, a: Action)
    requires Shaped(c, s) && Enabled(c, s, a)
    ensures var t := Step(c, s, a);
      (!IsIrq(a) ==> t.irq == s.irq && t.retired == s.retired) &&
      (!IsXmit(a) ==> t.xmit == s.xmit && t.accepted == s.accepted) &&
      |t.accepted| <= |s.accepted| + 1
  {
  }

  /** Only start_xmit fills buffers: an empty one stays empty under every other step. */
  lemma EmptyStays(c: Config, s: State, a: Action)
    requires Shaped(c, s) && Enabled(c, s, a) && !IsXmit(a) && NotFull(s)
    ensures NotFull(Step(c, s, a))
  {
    var i :| 0 <= i < |s.buf| && s.buf[i].Ety?;
    assert Step(c, s, a).buf[i].Ety?;
  }

  class Driver {
    const c: Config

    /** The fields of ctucan_priv, the counters, the echo slots and the registers of the core. */
    var s: State

    /** Every step taken since the chip was started. */
    ghost var trace: seq<Action>

    /** The object is where its trace leads. */
    ghost predicate Valid()
      reads this
    {
      c.Valid() && CanRun(c, Init(c), trace) && Run(c, Init(c), trace) == s
    }

    /** ctucan_chip_start. */
    constructor (config: Config)
      requires config.Valid()
      ensures c == config && Valid() && s == Init(config) && trace == []
    {
      c := config;
      s := Init(config);
      trace := [];
    }

    lemma ValidInv()
      requires Valid()
      ensures Inv(c, s)
    {
      ReachableInv(c, s);
    }

    /** One atomic access by this thread or somebody else. */
    method Take(a: Action)
      requires Valid() && Enabled(c, s, a)
      modifies this
      ensures Valid() && s == Step(c, old(s), a) && trace == old(trace) + [a]
    {
      RunThen(c, Init(c), trace, a);
      s := Step(c, s, a);
      trace := trace + [a];
    }

    /**
     * Any number of steps of the core and of the other thread, at most `budget` of them: the interrupt path stands
     * still when `inHandler` is set, the transmit path otherwise.
     */
    method Interfere(budget: nat, inHandler: bool) returns (rest: nat)
      requires Valid()
      modifies this
      ensures Valid() && old(trace) <= trace
      ensures |s.accepted| + rest <= |old(s).accepted| + budget
      ensures inHandler ==> s.irq == old(s).irq && s.retired == old(s).retired
      ensures !inHandler ==> s.xmit == old(s).xmit && s.accepted == old(s).accepted
      ensures !inHandler && NotFull(old(s)) ==> NotFull(s)
    {
      rest := budget;
      while rest > 0
        invariant Valid() && old(trace) <= trace
        invariant |s.accepted| + rest <= |old(s).accepted| + budget
        invariant inHandler ==> s.irq == old(s).irq && s.retired == old(s).retired
        invariant !inHandler ==> s.xmit == old(s).xmit && s.accepted == old(s).accepted
        invariant !inHandler && NotFull(old(s)) ==> NotFull(s)
      {
        var a: Action := *;
        var stop: bool := *;
        if stop || !Enabled(c, s, a) || (inHandler && IsIrq(a)) || (!inHandler && IsXmit(a)) {
          return;
        }
        StepFrame(c, s, a);
        if !inHandler && NotFull(s) { EmptyStays(c, s, a); }
        Take(a);
        rest := rest - 1;
      }
    }
  
    /**
     * ctucan_start_xmit. If a buffer is empty on entry the frame is accepted, whatever the core and the interrupt
     * handler do meanwhile, and insert_frame succeeds; a busy result changes nothing.
     */
    method StartXmit(f: Frame, budget: nat) returns (r: XmitResult, rest: nat)
      requires Valid() && s.xmit.XIdle?
      modifies this
      ensures Valid() && s.xmit.XIdle? && old(trace) <= trace
      ensures r == TxOk ==> s.accepted == old(s).accepted + [f]
      ensures r == TxBusy ==> s.accepted == old(s).accepted
      ensures NotFull(old(s)) ==> r == TxOk
    {
      rest := Interfere(budget, false);
      Take(CheckNotFull(f));
      if !s.xmit.XChecked? {
        return TxBusy, rest;
      }
      rest := Interfere(rest, false);
      Take(TakeHead);
      rest := FillBuffer(rest);
      r := TxOk;
    }

    /** ctu_can_fd_insert_frame, can_put_echo_skb and ctu_can_fd_txt_set_rdy on the buffer just taken. */
    method FillBuffer(budget: nat) returns (rest: nat)
      requires Valid() && s.xmit.XTaken?
      modifies this
      ensures Valid() && s.xmit.XIdle? && old(trace) <= trace && s.accepted == old(s).accepted
    {
      rest := Interfere(budget, false);
      ValidInv();
      HeadIsEmpty(c, s);
      Take(InsertFrame);
      rest := Publish(rest);
    }

    /** can_put_echo_skb and ctu_can_fd_txt_set_rdy, in this order. */
    method Publish(budget: nat) returns (rest: nat)
      requires Valid() && s.xmit.XInserted?
      modifies this
      ensures Valid() && s.xmit.XIdle? && old(trace) <= trace && s.accepted == old(s).accepted
    {
      hide CanRun;
      hide Run;
      rest := Interfere(budget, false);
      Take(PutEcho);
      rest := Interfere(rest, false);
      Take(SetReady);
    }

    /** The test of the inner loop and the status read; `more` says the buffer at the tail is finished. */
    method CheckTail(budget: nat) returns (more: bool, rest: nat)
      requires Valid() && s.irq.IGuard?
      modifies this
      ensures Valid() && old(trace) <= trace && |s.accepted| + rest <= |old(s).accepted| + budget
      ensures s.retired == old(s).retired
      ensures if more then s.irq.IFinished? else s.irq == IClear(old(s).irq.processed)
    {
      rest := Interfere(budget, true);
      Take(TestGuard);
      if s.irq.IClear? {
        return false, rest;
      }
      rest := Interfere(rest, true);
      ValidInv();
      StatusOfTail(c, s);
      Take(ReadStatus);
      more := s.irq.IFinished?;
    }

    /** Account for the finished frame, advance txb_tail, then release the buffer. */
    method RetireTail(budget: nat) returns (rest: nat)
      requires Valid() && s.irq.IFinished?
      modifies this
      ensures Valid() && old(trace) <= trace && |s.accepted| + rest <= |old(s).accepted| + budget
      ensures s.irq == IGuard(false, true) && |s.retired| == |old(s).retired| + 1
    {
      hide CanRun;
      hide Run;
      hide XmitOk;
      hide PrioOk;
      rest := Interfere(budget, true);
      ValidInv();
      assert StoredOk(c, s, Retired(s));
      Take(Account);
      rest := ReleaseTail(rest);
    }

    /** Rotate the priorities before marking the buffer empty. */
    method ReleaseTail(budget: nat) returns (rest: nat)
      requires Valid() && s.irq.ITail?
      modifies this
      ensures Valid() && old(trace) <= trace && |s.accepted| + rest <= |old(s).accepted| + budget
      ensures s.irq == IGuard(false, true) && s.retired == old(s).retired
    {
      hide CanRun;
      hide Run;
      hide Rotate;
      rest := Interfere(budget, true);
      Take(RotatePriority);
      rest := Interfere(rest, true);
      Take(SetEmpty);
    }

    /**
     * ctucan_tx_interrupt, entered with TXBHCI just acknowledged. It takes at most one outer pass more than it
     * retires frames, so with no frame accepted meanwhile at most head - tail + 1; on return a frame is stranded
     * exactly when TXBHCI had been raised again after the last check and before the last clear.
     */
    method TxInterrupt(budget: nat) returns (passes: nat, raisedAtLastClear: bool, rest: nat)
      requires Valid() && s.irq == IGuard(true, false)
      modifies this
      ensures Valid() && s.irq.IIdle? && old(trace) <= trace
      ensures 1 <= passes <= |s.retired| - |old(s).retired| + 1
      ensures s.accepted == old(s).accepted ==> passes <= Wrap(old(s).head - old(s).tail) + 1
      ensures !c.skipIdleClear ==> (Stranded(s) <==> raisedAtLastClear)
      ensures c.skipIdleClear ==> !Stranded(s)
    {
      hide CanRun;
      hide Run;
      hide Slots;
      hide XmitOk;
      hide PrioOk;
      passes, rest := 0, budget;
      ValidInv();
      WrappedWindow(Accepted(s), Retired(s));
      raisedAtLastClear := false;
      var processed := true;
      while processed
        invariant Valid() && old(trace) <= trace && |old(s).retired| <= |s.retired|
        invariant processed ==> s.irq.IGuard? && !s.irq.processed
        invariant processed ==> passes <= |s.retired| - |old(s).retired|
        invariant passes <= |s.retired| - |old(s).retired| + 1
        invariant !processed ==> s.irq.IIdle? && 1 <= passes
        invariant !processed && !c.skipIdleClear ==> (Stranded(s) <==> raisedAtLastClear)
        decreases |s.accepted| + rest - |s.retired|, processed
      {
        processed, rest := ProcessAll(rest);
        passes := passes + 1;
        rest := Interfere(rest, true);
        ValidInv();
        raisedAtLastClear := s.txbhci;
        Take(ClearInt);
      }
      ValidInv();
    }

    /** The inner loop: retire finished frames until the check fails. */
    method ProcessAll(budget: nat) returns (processed: bool, rest: nat)
      requires Valid() && s.irq.IGuard? && !s.irq.processed
      modifies this
      ensures Valid() && s.irq == IClear(processed) && old(trace) <= trace
      ensures |s.accepted| + rest <= |old(s).accepted| + budget
      ensures if processed then |old(s).retired| < |s.retired| else s.retired == old(s).retired
    {
      rest := budget;
      processed := false;
      var more := true;
      while more
        invariant Valid() && old(trace) <= trace && |s.accepted| + rest <= |old(s).accepted| + budget
        invariant if processed then |old(s).retired| < |s.retired| else s.retired == old(s).retired
        invariant if more then s.irq.IGuard? && s.irq.processed == processed else s.irq == IClear(processed)
        decreases |s.accepted| + rest - |s.retired|, more
      {
        ValidInv();
        more, rest := CheckTail(rest);
        if more {
          rest := RetireTail(rest);
          processed := true;
        }
      }
    }
  }
}
