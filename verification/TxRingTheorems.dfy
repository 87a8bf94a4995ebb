/** What the TX ring guarantees in every reachable state, and the one interrupt it can lose. */
module TxRingTheorems {
  import opened Words
  import opened TxPriority
  import opened TxRing
  import opened TxRingSafety

  /** `s` is the end of some run from the state ctucan_chip_start leaves. */
  ghost predicate Reachable(c: Config, s: State) {
    c.Valid() && exists acts :: CanRun(c, Init(c), acts) && Run(c, Init(c), acts) == s
  }

  lemma ReachableInv(c: Config, s: State)
    requires Reachable(c, s)
    ensures Inv(c, s)
  {
    var acts :| CanRun(c, Init(c), acts) && Run(c, Init(c), acts) == s;
    InitKeeps(c);
    RunKeeps(c, Init(c), acts);
  }

  lemma {:induction false} RunThen(c: Config, s: State, acts: seq<Action>, a: Action)
    requires Shaped(c, s) && CanRun(c, s, acts) && Enabled(c, Run(c, s, acts), a)
    ensures CanRun(c, s, acts + [a]) && Run(c, s, acts + [a]) == Step(c, Run(c, s, acts), a)
    decreases |acts|
  {
    if acts == [] {
      assert acts + [a] == [a];
      assert CanRun(c, Step(c, s, a), []);
    } else {
      RunThen(c, Step(c, s, acts[0]), acts[1..], a);
      assert (acts + [a])[1..] == acts[1..] + [a];
    }
  }

  lemma ReachableStep(c: Config, s: State, a: Action)
    requires Reachable(c, s) && Shaped(c, s) && Enabled(c, s, a)
    ensures Reachable(c, Step(c, s, a))
  {
    var acts :| CanRun(c, Init(c), acts) && Run(c, Init(c), acts) == s;
    RunThen(c, Init(c), acts, a);
  }

  // ---------------------------------------------------------------- order and conservation

  /** Frames complete on the bus in submission order, and reach the network stack in that order with that outcome. */
  lemma FifoOrder(c: Config, s: State)
    requires Reachable(c, s)
    ensures |s.retired| <= |s.sent| <= |s.accepted|
    ensures forall i :: 0 <= i < |s.sent| ==> s.sent[i].0 == s.accepted[i]
    ensures s.retired == s.sent[..|s.retired|]
  {
    ReachableInv(c, s);
  }

  /** Every accepted frame is counted once: transmitted, dropped, or still between txb_tail and txb_head. */
  lemma Conservation(c: Config, s: State)
    requires Reachable(c, s)
    ensures |s.accepted| == s.txPackets + s.txDropped + Wrap(s.head - s.tail)
    ensures Wrap(s.head - s.tail) <= c.n
    ensures s.txPackets == CountTok(s.retired)
  {
    ReachableInv(c, s);
    WrappedWindow(Accepted(s), Retired(s));
  }

  /** The buffer `j` places behind txb_tail, as the driver computes it. */
  function At(c: Config, s: State, j: nat): nat
    requires c.Valid()
  {
    Slot(c.n, Wrap(s.tail + j))
  }

  lemma AtIsSlot(c: Config, s: State, j: nat)
    requires c.Valid() && s.tail == Wrap(Retired(s))
    ensures At(c, s, j) == Slot(c.n, Retired(s) + j)
  {
    WrapAdd(Retired(s), j);
    WrappedSlot(c.n, Retired(s) + j);
  }

  /**
   * In every reachable state, between any two register accesses, the finished buffers are a prefix of the
   * window from txb_tail to txb_head, the ready or transmitting ones follow it, only the first of those can be
   * transmitting, and an empty buffer in the window is the one start_xmit is still filling.
   */
  lemma WindowShape(c: Config, s: State, j: nat) returns (finished: nat)
    requires Reachable(c, s) && j < Wrap(s.head - s.tail)
    ensures Shaped(c, s) && finished == |s.sent| - |s.retired|
    ensures s.buf[At(c, s, j)].Done? <==> j < finished
    ensures s.buf[At(c, s, j)].Tran? ==> j == finished
    ensures s.buf[At(c, s, j)].Ety? <==>
              j == Wrap(s.head - s.tail) - 1 && (s.xmit.XTaken? || s.xmit.XInserted? || s.xmit.XEchoed?)
    ensures !s.buf[At(c, s, j)].Abtp?
  {
    ReachableInv(c, s);
    Conservation(c, s);
    AtIsSlot(c, s, j);
    finished := |s.sent| - |s.retired|;
    assert BufferOk(c, s, Retired(s) + j);
  }

  /** An echo slot is occupied exactly when its frame is in the window and start_xmit has stored it. */
  lemma EchoWindow(c: Config, s: State, j: nat)
    requires Reachable(c, s) && j < c.n
    ensures Shaped(c, s) && Wrap(s.head - s.tail) <= c.n
    ensures var w := Wrap(s.head - s.tail);
      s.echo[At(c, s, j)].Some? <==> j < w && !(j == w - 1 && (s.xmit.XTaken? || s.xmit.XInserted?))
  {
    ReachableInv(c, s);
    Conservation(c, s);
    AtIsSlot(c, s, j);
    if Oldest(s) == Retired(s) || j < c.n - 1 {
      assert StoredOk(c, s, Retired(s) + j);
    } else {
      assert Slot(c.n, Oldest(s) + c.n) == Slot(c.n, Oldest(s));
      assert StoredOk(c, s, Oldest(s));
    }
  }

  // ---------------------------------------------------------------- BUG branches

  /** No reachable state has taken a BUG branch, overwritten a live echo slot or echoed from an empty one. */
  lemma NoBugBranch(c: Config, s: State)
    requires Reachable(c, s)
    ensures s.bugs == {}
  {
    ReachableInv(c, s);
  }

  /** TXBHCI pending at handler entry means the buffer at txb_tail is finished. */
  lemma PendingMeansFinished(c: Config, s: State)
    requires Reachable(c, s) && s.irq.IIdle? && s.txbhci
    ensures Shaped(c, s) && SignedPositive(s.head, s.tail) && s.buf[Slot(c.n, s.tail)].Done?
  {
    ReachableInv(c, s);
    WrappedDifference(Accepted(s), Retired(s));
    WrappedSlot(c.n, Retired(s));
    assert BufferOk(c, s, Retired(s));
  }

  /** TXTNF set at the entry of start_xmit means the buffer at txb_head is empty. */
  lemma NotFullMeansHeadEmpty(c: Config, s: State)
    requires Reachable(c, s) && s.xmit.XIdle? && NotFull(s)
    ensures Shaped(c, s) && s.buf[Slot(c.n, s.head)].Ety?
  {
    ReachableInv(c, s);
    NotFullMeansRoom(c, s);
    WrappedSlot(c.n, Accepted(s));
    assert BufferOk(c, s, Accepted(s));
  }

  /**
   * What the two BUG branches would do, reached or not: an unfinished first buffer ends the handler with TXBHCI, tail
   * and buffers as they were; an inaccessible buffer ends start_xmit with nothing written, stored or set ready.
   */
  lemma BugBranchesTouchNothing(c: Config, s: State)
    requires Shaped(c, s)
    ensures s.irq.IStatus? && s.irq.first && !s.buf[s.irq.idx].Done? ==>
      Step(c, s, ReadStatus) == s.(irq := IIdle, bugs := s.bugs + {TailNotFinished})
    ensures s.xmit.XTaken? && (s.buf[s.xmit.id].Rdy? || s.buf[s.xmit.id].Tran? || s.buf[s.xmit.id].Abtp?) ==>
      Step(c, s, InsertFrame) == s.(xmit := XIdle, bugs := s.bugs + {CannotInsert})
  {
  }

  // ---------------------------------------------------------------- the interrupt that can be lost

  /** A finished buffer waits at txb_tail, the handler is not running, and no interrupt is pending. */
  predicate Stranded(s: State) {
    s.irq.IIdle? && !s.txbhci && TailFinished(s)
  }

  predicate NoIrqStep(acts: seq<Action>) {
    forall k :: 0 <= k < |acts| ==> !IsIrq(acts[k])
  }

  predicate HasCompletion(acts: seq<Action>) {
    exists k :: 0 <= k < |acts| && acts[k].HwDone?
  }

  lemma {:induction false} StaysQuiet(c: Config, s: State, acts: seq<Action>)
    requires Shaped(c, s) && CanRun(c, s, acts) && !s.txbhci && !HasCompletion(acts)
    ensures !Run(c, s, acts).txbhci
    decreases |acts|
  {
    if acts == [] {
    } else {
      assert !acts[0].HwDone?;
      assert forall k :: 0 <= k < |acts| - 1 ==> acts[1..][k] == acts[k + 1];
      StaysQuiet(c, Step(c, s, acts[0]), acts[1..]);
    }
  }

  /**
   * Acknowledging or clearing TXBHCI silences it until the next completion, whatever the driver does meanwhile: the
   * handler is not entered again for a buffer it has already seen.
   */
  lemma QuietUntilCompletion(c: Config, s: State, a: Action, acts: seq<Action>)
    requires Shaped(c, s) && Enabled(c, s, a)
    requires a.AckInt? || (a.ClearInt? && (!c.skipIdleClear || s.irq.processed))
    requires CanRun(c, Step(c, s, a), acts) && !HasCompletion(acts)
    ensures !Run(c, Step(c, s, a), acts).txbhci
  {
    StaysQuiet(c, Step(c, s, a), acts);
  }

  /** While the handler stands still, the backlog grows exactly when some buffer completes. */
  lemma {:induction false} BacklogGrows(c: Config, s: State, acts: seq<Action>)
    requires Shaped(c, s) && CanRun(c, s, acts) && NoIrqStep(acts)
    ensures var t := Run(c, s, acts);
      t.irq == s.irq && t.retired == s.retired && |s.sent| <= |t.sent| &&
      (|s.sent| < |t.sent| <==> HasCompletion(acts))
    decreases |acts|
  {
    if acts == [] {
    } else {
      assert !IsIrq(acts[0]);
      BacklogGrows(c, Step(c, s, acts[0]), acts[1..]);
      assert forall k :: 0 <= k < |acts| - 1 ==> acts[1..][k] == acts[k + 1];
      if HasCompletion(acts[1..]) {
        var k :| 0 <= k < |acts[1..]| && acts[1..][k].HwDone?;
        assert acts[k + 1].HwDone?;
      }
    }
  }

  /**
   * The last pass of the driver: `s` is the state right after the check that found nothing more to process, `mid`
   * is whatever transmit and hardware steps fall before the clear. The clear strands a frame if and only if one
   * of those steps is a completion; the variant that skips the idle clear strands none.
   */
  lemma FinalClear(c: Config, s: State, mid: seq<Action>)
    requires Reachable(c, s) && s.irq == IClear(false) && !TailFinished(s)
    requires Shaped(c, s) && CanRun(c, s, mid) && NoIrqStep(mid)
    ensures var t := Run(c, s, mid);
      t.irq == IClear(false) && (Stranded(Step(c, t, ClearInt)) <==> !c.skipIdleClear && HasCompletion(mid))
  {
    ReachableInv(c, s);
    RunKeeps(c, s, mid);
    BacklogGrows(c, s, mid);
  }

  /** Entering the last clear really is preceded by a check that found no finished buffer at the tail. */
  lemma LastCheckSawNothing(c: Config, s: State, a: Action)
    requires Reachable(c, s) && Shaped(c, s) && Enabled(c, s, a) && IsIrq(a)
    requires !s.irq.IClear? && Step(c, s, a).irq == IClear(false)
    ensures !TailFinished(Step(c, s, a))
  {
    ReachableInv(c, s);
    RingKeeps(c, s, a);
    if a.ReadStatus? {
      StatusOfTail(c, s);
    } else {
      WrappedDifference(Accepted(s), Retired(s));
    }
  }

  /** Skipping the clear in a pass that processed nothing is enough: no reachable state is stranded. */
  lemma VariantNeverStrands(c: Config, s: State)
    requires c.skipIdleClear && Reachable(c, s)
    ensures !Stranded(s)
  {
    ReachableInv(c, s);
  }

  // ---------------------------------------------------------------- a run of the driver that strands a frame

  lemma FillRun(c: Config, s: State) returns (t: State)
    requires Reachable(c, s) && Shaped(c, s) && s.xmit.XTaken?
    ensures Reachable(c, t) && Shaped(c, t) && t.xmit.XIdle? && t.buf == s.buf[s.xmit.id := Rdy]
    ensures t.irq == s.irq && t.txbhci == s.txbhci && t.head == s.head && t.tail == s.tail
    ensures t.sent == s.sent && t.retired == s.retired
  {
    ReachableInv(c, s);
    HeadIsEmpty(c, s);
    hide Reachable;
    hide Inv;
    ReachableStep(c, s, InsertFrame);
    var s1 := DoInsert(c, s);
    ReachableStep(c, s1, PutEcho);
    var s2 := DoPutEcho(c, s1);
    ReachableStep(c, s2, SetReady);
    t := DoSetReady(c, s2);
  }

  /** A whole start_xmit call with no other step in between. */
  lemma SubmitRun(c: Config, s: State, f: Frame) returns (t: State)
    requires Reachable(c, s) && Shaped(c, s) && s.xmit.XIdle? && NotFull(s)
    ensures Reachable(c, t) && Shaped(c, t) && t.xmit.XIdle? && t.buf == s.buf[Slot(c.n, s.head) := Rdy]
    ensures t.irq == s.irq && t.txbhci == s.txbhci && t.head == Wrap(s.head + 1) && t.tail == s.tail
    ensures t.sent == s.sent && t.retired == s.retired
  {
    hide Reachable;
    ReachableStep(c, s, CheckNotFull(f));
    var s1 := DoCheck(c, s, f);
    ReachableStep(c, s1, TakeHead);
    t := FillRun(c, DoTakeHead(c, s1));
  }

  /** The only ready buffer is selected and completes. */
  lemma CompleteRun(c: Config, s: State, i: nat) returns (t: State)
    requires Reachable(c, s) && Shaped(c, s) && i < c.n && s.buf[i].Rdy?
    requires forall j :: 0 <= j < c.n && j != i ==> !s.buf[j].Rdy? && !s.buf[j].Tran?
    ensures Reachable(c, t) && Shaped(c, t) && t.buf == s.buf[i := Done(Tok)] && t.txbhci
    ensures t.irq == s.irq && t.xmit == s.xmit && t.head == s.head && t.tail == s.tail
    ensures |t.sent| == |s.sent| + 1 && t.retired == s.retired
  {
    hide Reachable;
    ReachableStep(c, s, HwSelect(i));
    var s1 := DoMove(c, s, i, Tran);
    ReachableStep(c, s1, HwDone(i, Tok));
    t := DoDone(c, s1, i, Tok);
    assert t.buf == s.buf[i := Done(Tok)];
  }

  lemma AccountRun(c: Config, s: State) returns (t: State)
    requires Reachable(c, s) && Shaped(c, s) && s.irq.IFinished?
    ensures Reachable(c, t) && Shaped(c, t) && t.irq == ITail(s.irq.idx) && |t.retired| == |s.retired| + 1
    ensures t.tail == Wrap(s.tail + 1) && t.head == s.head && t.buf == s.buf && t.xmit == s.xmit && t.sent == s.sent
  {
    hide Reachable;
    ReachableInv(c, s);
    assert StoredOk(c, s, Retired(s));
    hide Inv;
    ReachableStep(c, s, Account);
    t := DoAccount(c, s);
  }

  lemma EntryRun(c: Config, s: State) returns (t: State)
    requires Reachable(c, s) && Shaped(c, s) && s.irq.IIdle? && s.txbhci
    ensures Reachable(c, t) && t == s.(irq := IGuard(true, false), txbhci := false)
  {
    ReachableStep(c, s, ReadIntStat);
    var s1 := DoReadIntStat(c, s);
    ReachableStep(c, s1, AckInt);
    t := DoAckInt(c, s1);
  }

  lemma OneBehind(head: u32, tail: u32)
    requires Wrap(head - tail) == 1
    ensures Wrap(tail + 1) == head
  {
  }

  lemma StatusRun(c: Config, s: State) returns (t: State)
    requires Reachable(c, s) && Shaped(c, s) && s.irq.IGuard?
    requires SignedPositive(s.head, s.tail) && s.buf[Slot(c.n, s.tail)].Done?
    ensures Reachable(c, t)
    ensures t == s.(irq := IFinished(Slot(c.n, s.tail), s.buf[Slot(c.n, s.tail)].outcome))
  {
    ReachableStep(c, s, TestGuard);
    var s1 := DoTestGuard(c, s);
    ReachableStep(c, s1, ReadStatus);
    t := DoReadStatus(c, s1);
  }

  /** The handler from a pending interrupt for one finished frame to its last clear. */
  lemma HandleOneRun(c: Config, s: State) returns (t: State)
    requires Reachable(c, s) && Shaped(c, s) && s.irq.IIdle? && s.txbhci && Wrap(s.head - s.tail) == 1
    ensures Reachable(c, t) && Shaped(c, t) && t.irq == IClear(false)
    ensures t.buf == s.buf[Slot(c.n, s.tail) := Ety] && t.xmit == s.xmit && t.head == s.head
    ensures t.tail == Wrap(s.tail + 1) && t.sent == s.sent && |t.retired| == |s.retired| + 1
  {
    hide Reachable;
    PendingMeansFinished(c, s);
    var s1 := EntryRun(c, s);
    var s2 := StatusRun(c, s1);
    var s3 := AccountRun(c, s2);
    OneBehind(s.head, s.tail);
    t := HandleOneTail(c, s3);
  }

  lemma HandleOneTail(c: Config, s: State) returns (t: State)
    requires Reachable(c, s) && Shaped(c, s) && s.irq.ITail? && s.head == s.tail
    ensures Reachable(c, t) && Shaped(c, t) && t.irq == IClear(false)
    ensures t.buf == s.buf[s.irq.idx := Ety] && t.xmit == s.xmit && t.head == s.head && t.tail == s.tail
    ensures t.sent == s.sent && t.retired == s.retired
  {
    ReachableStep(c, s, RotatePriority);
    var s1 := DoRotate(c, s);
    ReachableStep(c, s1, SetEmpty);
    var s2 := DoSetEmpty(c, s1);
    ReachableStep(c, s2, TestGuard);
    var s3 := DoTestGuard(c, s2);
    ReachableStep(c, s3, ClearInt);
    var s4 := DoClearInt(c, s3);
    ReachableStep(c, s4, TestGuard);
    t := DoTestGuard(c, s4);
  }

  /** The driver with its four buffers can strand a finished frame. */
  lemma StrandingRun() returns (s: State)
    ensures Reachable(Config(4, false), s) && Stranded(s)
  {
    var c := Config(4, false);
    assert CanRun(c, Init(c), []) && Run(c, Init(c), []) == Init(c);
    assert Reachable(c, Init(c));
    hide Reachable;
    hide CanRun;
    hide Run;
    assert Init(c).buf[0].Ety? && Init(c).buf[1].Ety?;
    var a := SubmitRun(c, Init(c), 7);
    var b := CompleteRun(c, a, 0);
    var d := HandleOneRun(c, b);
    assert d.buf[1].Ety?;
    var e := SubmitRun(c, d, 8);
    assert Slot(4, 1) == 1;
    var g := CompleteRun(c, e, 1);
    ReachableStep(c, g, ClearInt);
    s := DoClearInt(c, g);
  }
}
