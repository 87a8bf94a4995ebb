/** Safety of the TX ring over every run: FIFO order, conservation, unreachable BUG branches, interrupt bookkeeping. */
module TxRingSafety {
  import opened Words
  import opened TxPriority
  import opened TxRing

  // Frame numbers are positions in `accepted`; they never wrap.

  function Accepted(s: State): nat { |s.accepted| }
  function Retired(s: State): nat { |s.retired| }
  function Completed(s: State): nat { |s.sent| }

  /** Number of the oldest frame whose buffer has not been set empty. */
  function Oldest(s: State): int {
    if s.irq.ITail? || s.irq.IEmpty? then Retired(s) - 1 else Retired(s)
  }

  /** Frames handed to the core with set_ready. */
  function Published(s: State): int {
    if s.xmit.XTaken? || s.xmit.XInserted? || s.xmit.XEchoed? then Accepted(s) - 1 else Accepted(s)
  }

  /** Frames whose echo skb has been stored. */
  function Echoed(s: State): int {
    if s.xmit.XTaken? || s.xmit.XInserted? then Accepted(s) - 1 else Accepted(s)
  }

  function CountTok(log: seq<Completion>): nat {
    if log == [] then 0
    else CountTok(log[..|log| - 1]) + if log[|log| - 1].1.Tok? then 1 else 0
  }

  predicate CountersOk(c: Config, s: State)
    requires c.Valid()
  {
    0 <= Oldest(s) && s.rotations == (if s.irq.ITail? then Retired(s) - 1 else Retired(s)) &&
    Retired(s) <= Completed(s) <= Published(s) && Accepted(s) <= Oldest(s) + c.n &&
    s.head == Wrap(Accepted(s)) && s.tail == Wrap(Retired(s)) &&
    s.txPackets == CountTok(s.retired) && s.txPackets + s.txDropped == Retired(s)
  }

  /** Frames complete in the order they were accepted, and are retired in the order they completed. */
  predicate LogsOk(s: State) {
    |s.retired| <= |s.sent| <= |s.accepted| &&
    s.retired == s.sent[..|s.retired|] &&
    forall i :: 0 <= i < |s.sent| ==> s.sent[i].0 == s.accepted[i]
  }

  /** The frame words and echo skb of frame `q` are in place exactly from insertion and put to retirement. */
  predicate StoredOk(c: Config, s: State, q: nat)
    requires Shaped(c, s)
  {
    var i := Slot(c.n, q);
    (q < Accepted(s) && (q < Published(s) || !s.xmit.XTaken?) ==> s.mem[i] == s.accepted[q]) &&
    s.echo[i] == if Retired(s) <= q < Echoed(s) && q < Accepted(s) then Some(s.accepted[q]) else None
  }

  /** Finished buffers are a prefix of the window, ready ones follow, the rest is empty. */
  predicate BufferOk(c: Config, s: State, q: nat)
    requires Shaped(c, s)
  {
    var b := s.buf[Slot(c.n, q)];
    if q < Completed(s) then b == Done(s.sent[q].1)
    else if q < Published(s) then b.Rdy? || (b.Tran? && q == Completed(s))
    else b.Ety?
  }

  predicate Slots(c: Config, s: State)
    requires Shaped(c, s)
  {
    forall q: nat :: Oldest(s) <= q < Oldest(s) + c.n ==> BufferOk(c, s, q) && StoredOk(c, s, q)
  }

  predicate XmitOk(c: Config, s: State)
    requires c.Valid()
  {
    match s.xmit
    case XIdle => true
    case XChecked(_) => Accepted(s) < Oldest(s) + c.n
    case XTaken(f, id) => OwnsLast(c, s, f, id)
    case XInserted(f, id) => OwnsLast(c, s, f, id)
    case XEchoed(f, id) => OwnsLast(c, s, f, id)
  }

  predicate OwnsLast(c: Config, s: State, f: Frame, id: nat)
    requires c.Valid()
  {
    0 < Accepted(s) && f == s.accepted[Accepted(s) - 1] && id == Slot(c.n, Accepted(s) - 1)
  }

  /** The buffer at the tail has completed and is not yet retired. */
  predicate TailFinished(s: State) {
    Retired(s) < Completed(s)
  }

  predicate IrqOk(c: Config, s: State)
    requires c.Valid()
  {
    match s.irq
    case IIdle => s.txbhci ==> TailFinished(s)
    case ISeen => TailFinished(s)
    case IGuard(first, processed) =>
      (first ==> TailFinished(s) && !processed) && (!processed && s.txbhci ==> TailFinished(s))
    case IStatus(first, processed, idx) =>
      (first ==> TailFinished(s) && !processed) && (!processed && s.txbhci ==> TailFinished(s)) &&
      Retired(s) < Accepted(s) && idx == Slot(c.n, Retired(s))
    case IFinished(idx, o) =>
      TailFinished(s) && idx == Slot(c.n, Retired(s)) && o == s.sent[Retired(s)].1
    case ITail(idx) => 0 < Retired(s) && idx == Slot(c.n, Retired(s) - 1)
    case IEmpty(idx) => 0 < Retired(s) && idx == Slot(c.n, Retired(s) - 1)
    case IClear(processed) => !processed ==> (s.txbhci <==> TailFinished(s))
  }

  /** With the idle clear skipped, a finished frame outside the handler always has its interrupt pending. */
  predicate NothingStranded(s: State) {
    s.irq.IIdle? && TailFinished(s) ==> s.txbhci
  }

  /** The priority register holds the initial word rotated once per rotation. */
  predicate PrioOk(c: Config, s: State)
    requires c.Valid()
  {
    s.prio == Rotated(c.n, s.rotations)
  }

  /** The part of the invariant about counters, logs and control points. */
  predicate Numbers(c: Config, s: State)
    requires c.Valid()
  {
    CountersOk(c, s) && LogsOk(s) && XmitOk(c, s) && IrqOk(c, s) && s.bugs == {} &&
    (c.skipIdleClear ==> NothingStranded(s))
  }

  predicate Ring(c: Config, s: State) {
    Shaped(c, s) && Numbers(c, s) && Slots(c, s)
  }

  predicate Inv(c: Config, s: State) {
    Ring(c, s) && PrioOk(c, s)
  }

  // ---------------------------------------------------------------- arithmetic of the wrapping counters

  /** The masked 32-bit counter names the same buffer as the unbounded one, through any number of wraps. */
  lemma WrappedSlot(n: nat, k: nat)
    requires RingCount(n)
    ensures Slot(n, Wrap(k)) == Slot(n, k)
  {
    var m := k / TWO_32;
    assert k == Wrap(k) + TWO_32 * m;
    hide Wrap;
    hide Slot;
    if n == 1 {
      SlotIsPeriodic(1, Wrap(k), TWO_32 * m);
    } else if n == 2 {
      SlotIsPeriodic(2, Wrap(k), 0x8000_0000 * m);
    } else {
      SlotIsPeriodic(4, Wrap(k), 0x4000_0000 * m);
    }
  }

  lemma WrappedNext(k: nat)
    ensures Wrap(Wrap(k) + 1) == Wrap(k + 1)
  {
  }

  /** The 32-bit difference of the counters is the true window size. */
  lemma WrappedWindow(a: nat, r: nat)
    requires r <= a < r + TWO_32
    ensures Wrap(Wrap(a) - Wrap(r)) == a - r
  {
  }

  /** The signed-difference test agrees with the unbounded comparison while the window is small. */
  lemma WrappedDifference(a: nat, r: nat)
    requires r <= a < r + 0x8000_0000
    ensures SignedPositive(Wrap(a), Wrap(r)) <==> r < a
  {
    WrappedWindow(a, r);
  }

  // ---------------------------------------------------------------- slots and frame numbers

  /** The frame number that slot `i` carries in the window starting at `base`. */
  lemma {:induction false} SlotOwner(n: nat, base: nat, i: nat) returns (q: nat)
    requires RingCount(n) && i < n
    ensures base <= q < base + n && Slot(n, q) == i
  {
    if n <= base {
      var p := SlotOwner(n, base - n, i);
      q := p + n;
    } else {
      q := if base <= i then i else i + n;
    }
  }

  /** Two different frame numbers of one window use two different buffers. */
  lemma Apart(n: nat, base: nat, p: nat, q: nat)
    requires RingCount(n) && base <= p < base + n && base <= q < base + n
    ensures p != q ==> Slot(n, p) != Slot(n, q)
  {
    if p < q { DistinctSlots(n, p, q); } else if q < p { DistinctSlots(n, q, p); }
  }

  // ---------------------------------------------------------------- every step keeps the invariant

  lemma InitKeeps(c: Config)
    requires c.Valid()
    ensures Inv(c, Init(c))
  {
  }

  /** Same ring contents and same frame numbers: the slots stay as they were. */
  lemma SameSlots(c: Config, s: State, t: State)
    requires Shaped(c, s) && Shaped(c, t) && Slots(c, s)
    requires t.buf == s.buf && t.mem == s.mem && t.echo == s.echo && t.sent == s.sent && t.accepted == s.accepted
    requires t.xmit == s.xmit && Retired(t) == Retired(s) && 0 <= Oldest(t) == Oldest(s)
    ensures Slots(c, t)
  {
    forall q: nat | Oldest(t) <= q < Oldest(t) + c.n
      ensures BufferOk(c, t, q) && StoredOk(c, t, q)
    {
      assert BufferOk(c, s, q) && StoredOk(c, s, q);
    }
  }

  lemma CheckNumbers(c: Config, s: State, f: Frame)
    requires Shaped(c, s) && Numbers(c, s) && s.xmit.XIdle? && (NotFull(s) ==> Accepted(s) < Oldest(s) + c.n)
    ensures Numbers(c, DoCheck(c, s, f))
  {
  }

  lemma NotFullMeansRoom(c: Config, s: State)
    requires Ring(c, s) && s.xmit.XIdle? && NotFull(s)
    ensures Accepted(s) < Oldest(s) + c.n
  {
    var i :| 0 <= i < |s.buf| && s.buf[i].Ety?;
    var p := SlotOwner(c.n, Oldest(s), i);
    assert BufferOk(c, s, p);
  }

  lemma CheckKeeps(c: Config, s: State, f: Frame)
    requires Ring(c, s) && s.xmit.XIdle?
    ensures Ring(c, DoCheck(c, s, f))
  {
    if NotFull(s) {
      var t := DoCheck(c, s, f);
      NotFullMeansRoom(c, s);
      CheckNumbers(c, s, f);
      forall q: nat | Oldest(t) <= q < Oldest(t) + c.n
        ensures BufferOk(c, t, q) && StoredOk(c, t, q)
      {
        assert BufferOk(c, s, q) && StoredOk(c, s, q);
      }
    }
  }

  lemma TakeHeadNumbers(c: Config, s: State)
    requires Shaped(c, s) && Numbers(c, s) && s.xmit.XChecked?
    ensures Numbers(c, DoTakeHead(c, s))
  {
    WrappedSlot(c.n, Accepted(s));
    WrappedNext(Accepted(s));
  }

  lemma TakeHeadKeeps(c: Config, s: State)
    requires Ring(c, s) && s.xmit.XChecked?
    ensures Ring(c, DoTakeHead(c, s))
  {
    var t := DoTakeHead(c, s);
    TakeHeadNumbers(c, s);
    forall q: nat | Oldest(t) <= q < Oldest(t) + c.n
      ensures BufferOk(c, t, q) && StoredOk(c, t, q)
    {
      assert BufferOk(c, s, q) && StoredOk(c, s, q);
    }
  }

  /** insert_frame finds the buffer at the head empty, so it never takes its BUG branch. */
  lemma HeadIsEmpty(c: Config, s: State)
    requires Ring(c, s) && s.xmit.XTaken?
    ensures s.buf[s.xmit.id].Ety?
  {
    assert BufferOk(c, s, Accepted(s) - 1);
  }

  lemma InsertNumbers(c: Config, s: State)
    requires Shaped(c, s) && Numbers(c, s) && s.xmit.XTaken? && s.buf[s.xmit.id].Ety?
    ensures Numbers(c, DoInsert(c, s))
  {
  }

  lemma InsertKeeps(c: Config, s: State)
    requires Ring(c, s) && s.xmit.XTaken?
    ensures Ring(c, DoInsert(c, s))
  {
    HeadIsEmpty(c, s);
    InsertNumbers(c, s);
    InsertSlots(c, s);
  }

  lemma InsertSlots(c: Config, s: State)
    requires Ring(c, s) && s.xmit.XTaken? && s.buf[s.xmit.id].Ety?
    ensures Slots(c, DoInsert(c, s))
  {
    var t := DoInsert(c, s);
    forall q: nat | Oldest(t) <= q < Oldest(t) + c.n
      ensures BufferOk(c, t, q) && StoredOk(c, t, q)
    {
      assert BufferOk(c, s, q) && StoredOk(c, s, q);
      Apart(c.n, Oldest(s), q, Accepted(s) - 1);
    }
  }

  lemma PutEchoNumbers(c: Config, s: State)
    requires Shaped(c, s) && Numbers(c, s) && s.xmit.XInserted? && s.echo[s.xmit.id].None?
    ensures Numbers(c, DoPutEcho(c, s))
  {
  }

  lemma PutEchoSlots(c: Config, s: State)
    requires Ring(c, s) && s.xmit.XInserted? && s.echo[s.xmit.id].None?
    ensures Slots(c, DoPutEcho(c, s))
  {
    var t := DoPutEcho(c, s);
    forall q: nat | Oldest(t) <= q < Oldest(t) + c.n
      ensures BufferOk(c, t, q) && StoredOk(c, t, q)
    {
      assert BufferOk(c, s, q) && StoredOk(c, s, q);
      Apart(c.n, Oldest(s), q, Accepted(s) - 1);
    }
  }

  lemma PutEchoKeeps(c: Config, s: State)
    requires Ring(c, s) && s.xmit.XInserted?
    ensures Ring(c, DoPutEcho(c, s))
  {
    assert StoredOk(c, s, Accepted(s) - 1);
    PutEchoNumbers(c, s);
    PutEchoSlots(c, s);
  }

  lemma SetReadyNumbers(c: Config, s: State)
    requires Shaped(c, s) && Numbers(c, s) && s.xmit.XEchoed?
    ensures Numbers(c, DoSetReady(c, s))
  {
  }

  lemma SetReadyKeeps(c: Config, s: State)
    requires Ring(c, s) && s.xmit.XEchoed?
    ensures Ring(c, DoSetReady(c, s))
  {
    var t := DoSetReady(c, s);
    SetReadyNumbers(c, s);
    forall q: nat | Oldest(t) <= q < Oldest(t) + c.n
      ensures BufferOk(c, t, q) && StoredOk(c, t, q)
    {
      assert BufferOk(c, s, q) && StoredOk(c, s, q);
      Apart(c.n, Oldest(s), q, Accepted(s) - 1);
    }
  }

  lemma ReadIntStatKeeps(c: Config, s: State)
    requires Ring(c, s) && s.irq.IIdle?
    ensures Ring(c, DoReadIntStat(c, s))
  {
    SameSlots(c, s, DoReadIntStat(c, s));
  }

  lemma AckIntKeeps(c: Config, s: State)
    requires Ring(c, s) && s.irq.ISeen?
    ensures Ring(c, DoAckInt(c, s))
  {
    SameSlots(c, s, DoAckInt(c, s));
  }

  lemma GuardKeeps(c: Config, s: State)
    requires Ring(c, s) && s.irq.IGuard?
    ensures Ring(c, DoTestGuard(c, s))
  {
    SameSlots(c, s, DoTestGuard(c, s));
    WrappedDifference(Accepted(s), Retired(s));
    WrappedSlot(c.n, Retired(s));
  }

  /** The status read of the buffer at the tail tells exactly whether that frame has completed. */
  lemma StatusOfTail(c: Config, s: State)
    requires Ring(c, s) && s.irq.IStatus?
    ensures s.buf[s.irq.idx].Done? <==> TailFinished(s)
    ensures TailFinished(s) ==> s.buf[s.irq.idx] == Done(s.sent[Retired(s)].1)
  {
    assert BufferOk(c, s, Retired(s));
  }

  lemma StatusNumbers(c: Config, s: State)
    requires Shaped(c, s) && Numbers(c, s) && s.irq.IStatus?
    requires s.buf[s.irq.idx].Done? <==> TailFinished(s)
    requires TailFinished(s) ==> s.buf[s.irq.idx] == Done(s.sent[Retired(s)].1)
    ensures Numbers(c, DoReadStatus(c, s))
  {
  }

  lemma StatusKeeps(c: Config, s: State)
    requires Ring(c, s) && s.irq.IStatus?
    ensures Ring(c, DoReadStatus(c, s))
  {
    StatusOfTail(c, s);
    StatusNumbers(c, s);
    SameSlots(c, s, DoReadStatus(c, s));
  }

  lemma RetireNext(s: State, e: Completion)
    requires LogsOk(s) && TailFinished(s) && e == s.sent[Retired(s)]
    ensures s.retired + [e] == s.sent[..Retired(s) + 1]
    ensures CountTok(s.retired + [e]) == CountTok(s.retired) + if e.1.Tok? then 1 else 0
  {
    assert (s.retired + [e])[..Retired(s)] == s.retired;
  }

  lemma AccountNumbers(c: Config, s: State)
    requires Shaped(c, s) && Numbers(c, s) && s.irq.IFinished? && StoredOk(c, s, Retired(s))
    ensures Numbers(c, DoAccount(c, s))
  {
    hide Slot;
    hide CountTok;
    WrappedNext(Retired(s));
    hide Wrap;
    RetireNext(s, (s.accepted[Retired(s)], s.irq.outcome));
  }

  lemma AccountKeeps(c: Config, s: State)
    requires Ring(c, s) && s.irq.IFinished?
    ensures Ring(c, DoAccount(c, s))
  {
    assert StoredOk(c, s, Retired(s));
    AccountNumbers(c, s);
    AccountSlots(c, s);
    hide Numbers;
    hide Slots;
  }

  lemma AccountSlots(c: Config, s: State)
    requires Ring(c, s) && s.irq.IFinished?
    ensures Slots(c, DoAccount(c, s))
  {
    var t := DoAccount(c, s);
    assert StoredOk(c, s, Retired(s));
    forall q: nat | Oldest(t) <= q < Oldest(t) + c.n
      ensures BufferOk(c, t, q) && StoredOk(c, t, q)
    {
      assert BufferOk(c, s, q) && StoredOk(c, s, q);
      Apart(c.n, Oldest(s), q, Oldest(s));
    }
  }

  lemma RotateKeeps(c: Config, s: State)
    requires Ring(c, s) && s.irq.ITail?
    ensures Ring(c, DoRotate(c, s))
  {
    SameSlots(c, s, DoRotate(c, s));
  }

  lemma SetEmptyNumbers(c: Config, s: State)
    requires Shaped(c, s) && Numbers(c, s) && s.irq.IEmpty?
    ensures Numbers(c, DoSetEmpty(c, s))
  {
  }

  lemma SetEmptyKeeps(c: Config, s: State)
    requires Ring(c, s) && s.irq.IEmpty?
    ensures Ring(c, DoSetEmpty(c, s))
  {
    var t := DoSetEmpty(c, s);
    var r := Oldest(s);
    SetEmptyNumbers(c, s);
    assert Slot(c.n, r + c.n) == Slot(c.n, r);
    assert StoredOk(c, s, r);
    forall q: nat | Oldest(t) <= q < Oldest(t) + c.n
      ensures BufferOk(c, t, q) && StoredOk(c, t, q)
    {
      if q < r + c.n {
        assert BufferOk(c, s, q) && StoredOk(c, s, q);
        Apart(c.n, r, q, r);
      }
    }
  }

  lemma ClearKeeps(c: Config, s: State)
    requires Ring(c, s) && s.irq.IClear?
    ensures Ring(c, DoClearInt(c, s))
  {
    SameSlots(c, s, DoClearInt(c, s));
  }

  /** The core always picks the oldest incomplete frame: rotation keeps the window ranked. */
  lemma SelectsOldest(c: Config, s: State, i: nat)
    requires Inv(c, s) && HighestReady(s, i) && forall j :: 0 <= j < |s.buf| ==> !s.buf[j].Tran?
    ensures Completed(s) < Published(s) && i == Slot(c.n, Completed(s))
  {
    var q := SlotOwner(c.n, Oldest(s), i);
    assert BufferOk(c, s, q);
    var first := Completed(s);
    assert BufferOk(c, s, first);
    if q != first {
      StrictRanking(c.n, s.rotations, first, q);
      assert false;
    }
  }

  lemma TransmittingIsOldest(c: Config, s: State, i: nat)
    requires Ring(c, s) && i < c.n && s.buf[i].Tran?
    ensures Completed(s) < Published(s) && i == Slot(c.n, Completed(s))
  {
    var q := SlotOwner(c.n, Oldest(s), i);
    assert BufferOk(c, s, q);
  }

  lemma MoveNumbers(c: Config, s: State, i: nat, b: BufState)
    requires Shaped(c, s) && Numbers(c, s) && i < c.n
    ensures Numbers(c, DoMove(c, s, i, b))
  {
  }

  lemma MoveKeeps(c: Config, s: State, i: nat, b: BufState)
    requires Ring(c, s) && (b.Rdy? || b.Tran?)
    requires Completed(s) < Published(s) && i == Slot(c.n, Completed(s))
    ensures Ring(c, DoMove(c, s, i, b))
  {
    var t := DoMove(c, s, i, b);
    MoveNumbers(c, s, i, b);
    forall q: nat | Oldest(t) <= q < Oldest(t) + c.n
      ensures BufferOk(c, t, q) && StoredOk(c, t, q)
    {
      assert BufferOk(c, s, q) && StoredOk(c, s, q);
      Apart(c.n, Oldest(s), q, Completed(s));
    }
  }

  /** The completed frame is the next one of the log. */
  lemma DoneLogs(c: Config, s: State, i: nat, o: Outcome)
    requires Shaped(c, s) && LogsOk(s) && Completed(s) < |s.accepted|
    requires i < c.n && s.mem[i] == s.accepted[Completed(s)]
    ensures LogsOk(DoDone(c, s, i, o))
  {
    var t := DoDone(c, s, i, o);
    assert t.sent[..|s.sent|] == s.sent;
    assert t.sent[..|t.retired|] == s.sent[..|s.retired|];
  }

  lemma DoneNumbers(c: Config, s: State, i: nat, o: Outcome)
    requires Shaped(c, s) && Numbers(c, s) && Completed(s) < Published(s)
    requires i == Slot(c.n, Completed(s)) && s.mem[i] == s.accepted[Completed(s)]
    ensures Numbers(c, DoDone(c, s, i, o))
  {
    DoneLogs(c, s, i, o);
    DoneCounters(c, s, i, o);
    DoneIrq(c, s, i, o);
    hide LogsOk;
    hide CountersOk;
    hide XmitOk;
    hide IrqOk;
    hide NothingStranded;
    hide Slot;
  }

  lemma DoneCounters(c: Config, s: State, i: nat, o: Outcome)
    requires Shaped(c, s) && CountersOk(c, s) && XmitOk(c, s) && Completed(s) < Published(s) && i < c.n
    ensures CountersOk(c, DoDone(c, s, i, o)) && XmitOk(c, DoDone(c, s, i, o))
  {
    hide Slot;
    hide Wrap;
    hide CountTok;
  }

  /** A completion at the tail comes with its interrupt. */
  lemma DoneIrq(c: Config, s: State, i: nat, o: Outcome)
    requires Shaped(c, s) && Retired(s) <= Completed(s) && IrqOk(c, s) && i < c.n
    ensures IrqOk(c, DoDone(c, s, i, o)) && NothingStranded(DoDone(c, s, i, o))
  {
    hide Slot;
  }

  lemma DoneSlots(c: Config, s: State, i: nat, o: Outcome)
    requires Ring(c, s) && Completed(s) < Published(s) && i == Slot(c.n, Completed(s))
    ensures Slots(c, DoDone(c, s, i, o))
  {
    var t := DoDone(c, s, i, o);
    forall q: nat | Oldest(t) <= q < Oldest(t) + c.n
      ensures BufferOk(c, t, q) && StoredOk(c, t, q)
    {
      assert BufferOk(c, s, q) && StoredOk(c, s, q);
      Apart(c.n, Oldest(s), q, Completed(s));
    }
  }

  lemma DoneKeeps(c: Config, s: State, i: nat, o: Outcome)
    requires Ring(c, s) && Completed(s) < Published(s) && i == Slot(c.n, Completed(s))
    ensures Ring(c, DoDone(c, s, i, o))
  {
    assert StoredOk(c, s, Completed(s));
    DoneNumbers(c, s, i, o);
    DoneSlots(c, s, i, o);
  }

  lemma RingKeeps(c: Config, s: State, a: Action)
    requires Inv(c, s) && Enabled(c, s, a)
    ensures Ring(c, Step(c, s, a))
  {
    match a
    case CheckNotFull(f) => CheckKeeps(c, s, f);
    case TakeHead => TakeHeadKeeps(c, s);
    case InsertFrame => InsertKeeps(c, s);
    case PutEcho => PutEchoKeeps(c, s);
    case SetReady => SetReadyKeeps(c, s);
    case ReadIntStat => ReadIntStatKeeps(c, s);
    case AckInt => AckIntKeeps(c, s);
    case TestGuard => GuardKeeps(c, s);
    case ReadStatus => StatusKeeps(c, s);
    case Account => AccountKeeps(c, s);
    case RotatePriority => RotateKeeps(c, s);
    case SetEmpty => SetEmptyKeeps(c, s);
    case ClearInt => ClearKeeps(c, s);
    case HwSelect(i) => SelectsOldest(c, s, i); MoveKeeps(c, s, i, Tran);
    case HwDone(i, o) => TransmittingIsOldest(c, s, i); DoneKeeps(c, s, i, o);
    case HwRetry(i) => TransmittingIsOldest(c, s, i); MoveKeeps(c, s, i, Rdy);
  }

  lemma PrioKeeps(c: Config, s: State, a: Action)
    requires Shaped(c, s) && Enabled(c, s, a) && PrioOk(c, s)
    ensures PrioOk(c, Step(c, s, a))
  {
  }

  lemma {:induction false} RunKeeps(c: Config, s: State, acts: seq<Action>)
    requires Inv(c, s) && CanRun(c, s, acts)
    ensures Inv(c, Run(c, s, acts))
    decreases |acts|
  {
    if acts == [] {
    } else {
      RingKeeps(c, s, acts[0]);
      PrioKeeps(c, s, acts[0]);
      RunKeeps(c, Step(c, s, acts[0]), acts[1..]);
    }
  }
}
