/**
 * The TX buffer ring as a step system: ctucan_start_xmit, the TX part of ctucan_interrupt,
 * ctucan_tx_interrupt and the core, interleaved at register-access granularity.
 */
module TxRing {
  import opened Words
  import opened TxPriority

  /** Final states of a TXT buffer. */
  datatype Outcome = Tok | Err | Abt

  datatype BufState = Ety | Rdy | Tran | Abtp | Done(outcome: Outcome)

  /** The identity of a socket buffer. */
  type Frame = nat

  type Completion = (Frame, Outcome)

  /** TX_STATUS and TX_COMMAND decode four buffers, so a ring has 1, 2 or 4 of them. */
  predicate RingCount(n: nat) {
    n == 1 || n == 2 || n == 4
  }

  /**
   * `skipIdleClear` selects the variant of ctucan_tx_interrupt that leaves TXBHCI alone in a pass
   * that processed nothing; the driver itself is the instance with `skipIdleClear == false`.
   */
  datatype Config = Config(n: nat, skipIdleClear: bool) {
    predicate Valid() { RingCount(n) }
  }

  /** Control points of ctucan_start_xmit between register accesses. */
  datatype XmitPc =
    | XIdle
    | XChecked(frame: Frame)               // TXTNF was set
    | XTaken(frame: Frame, id: nat)        // txb_head incremented
    | XInserted(frame: Frame, id: nat)     // frame words written
    | XEchoed(frame: Frame, id: nat)       // echo skb stored

  /** Control points of ctucan_interrupt and ctucan_tx_interrupt between register accesses. */
  datatype IrqPc =
    | IIdle
    | ISeen                                             // INT_STAT read with TXBHCI set
    | IGuard(first: bool, processed: bool)              // at the test of the inner loop
    | IStatus(first: bool, processed: bool, idx: nat)   // about to read TX_STATUS
    | IFinished(idx: nat, outcome: Outcome)             // a final state was read
    | ITail(idx: nat)                                   // txb_tail incremented
    | IEmpty(idx: nat)                                  // priorities rotated
    | IClear(processed: bool)                           // at label clear

  datatype Bug = TailNotFinished | CannotInsert | EchoOccupied | EchoMissing

  /** Driver fields, device registers, and the history: rotations done, frames accepted, completed and retired, BUG branches hit. */
  datatype State = State(
    head: u32,
    tail: u32,
    prio: bv32,
    buf: seq<BufState>,
    mem: seq<Frame>,
    txbhci: bool,
    echo: seq<Option<Frame>>,
    txPackets: nat,
    txDropped: nat,
    xmit: XmitPc,
    irq: IrqPc,
    rotations: nat,
    accepted: seq<Frame>,
    sent: seq<Completion>,
    retired: seq<Completion>,
    bugs: set<Bug>)

  /** One atomic step of the transmit path, the interrupt path or the core. */
  datatype Action =
    | CheckNotFull(frame: Frame) | TakeHead | InsertFrame | PutEcho | SetReady
    | ReadIntStat | AckInt | TestGuard | ReadStatus | Account | RotatePriority | SetEmpty | ClearInt
    | HwSelect(i: nat) | HwDone(i: nat, outcome: Outcome) | HwRetry(i: nat)

  predicate IsXmit(a: Action) {
    a.CheckNotFull? || a.TakeHead? || a.InsertFrame? || a.PutEcho? || a.SetReady?
  }

  predicate IsHardware(a: Action) {
    a.HwSelect? || a.HwDone? || a.HwRetry?
  }

  predicate IsIrq(a: Action) {
    !IsXmit(a) && !IsHardware(a)
  }

  /** The state ctucan_chip_start leaves: an empty ring with the initial priorities. */
  function Init(c: Config): State
    requires c.Valid()
  {
    State(0, 0, INITIAL_PRIORITY, seq(c.n, i => Ety), seq(c.n, i => 0), false, seq(c.n, i => None),
          0, 0, XIdle, IIdle, 0, [], [], [], {})
  }

  /** Status bit TXTNF: some TXT buffer is empty. */
  predicate NotFull(s: State) {
    exists i :: 0 <= i < |s.buf| && s.buf[i].Ety?
  }

  /** ctu_can_fd_is_txt_buf_accessible. */
  predicate Accessible(b: BufState) {
    !(b.Rdy? || b.Tran? || b.Abtp?)
  }

  /** A frame may be written exactly while the core has nothing to do with the buffer: empty, or finished in any way. */
  lemma AccessibleStates(b: BufState)
    ensures Accessible(b) <==> b.Ety? || b.Done?
  {
  }

  /** The C test (int)(head - tail) > 0 on 32-bit counters. */
  predicate SignedPositive(head: u32, tail: u32) {
    0 < Wrap(head - tail) < 0x8000_0000
  }

  /** The buffer the core selects: ready, and no ready buffer has a higher priority. */
  predicate HighestReady(s: State, i: nat)
    requires |s.buf| <= 8
  {
    i < |s.buf| && s.buf[i].Rdy? &&
    forall j :: 0 <= j < |s.buf| && s.buf[j].Rdy? ==> PriorityOf(s.prio, j) <= PriorityOf(s.prio, i)
  }

  predicate Shaped(c: Config, s: State) {
    c.Valid() && |s.buf| == c.n && |s.mem| == c.n && |s.echo| == c.n &&
    (s.xmit.XTaken? || s.xmit.XInserted? || s.xmit.XEchoed? ==> s.xmit.id < c.n) &&
    (s.irq.IStatus? || s.irq.IFinished? || s.irq.ITail? || s.irq.IEmpty? ==> s.irq.idx < c.n)
  }

  predicate Enabled(c: Config, s: State, a: Action)
    requires Shaped(c, s)
  {
    match a
    case CheckNotFull(_) => s.xmit.XIdle?
    case TakeHead => s.xmit.XChecked?
    case InsertFrame => s.xmit.XTaken?
    case PutEcho => s.xmit.XInserted?
    case SetReady => s.xmit.XEchoed?
    case ReadIntStat => s.irq.IIdle?
    case AckInt => s.irq.ISeen?
    case TestGuard => s.irq.IGuard?
    case ReadStatus => s.irq.IStatus?
    case Account => s.irq.IFinished?
    case RotatePriority => s.irq.ITail?
    case SetEmpty => s.irq.IEmpty?
    case ClearInt => s.irq.IClear?
    case HwSelect(i) => (forall j :: 0 <= j < |s.buf| ==> !s.buf[j].Tran?) && HighestReady(s, i)
    case HwDone(i, _) => i < c.n && s.buf[i].Tran?
    case HwRetry(i) => i < c.n && s.buf[i].Tran?
  }

  // ---------------------------------------------------------------- ctucan_start_xmit

  function DoCheck(c: Config, s: State, f: Frame): (t: State)
    requires Shaped(c, s) && s.xmit.XIdle?
    ensures Shaped(c, t)
  {
    if NotFull(s) then s.(xmit := XChecked(f)) else s
  }

  function DoTakeHead(c: Config, s: State): (t: State)
    requires Shaped(c, s) && s.xmit.XChecked?
    ensures Shaped(c, t)
  {
    s.(xmit := XTaken(s.xmit.frame, Slot(c.n, s.head)), head := Wrap(s.head + 1),
       accepted := s.accepted + [s.xmit.frame])
  }

  function DoInsert(c: Config, s: State): (t: State)
    requires Shaped(c, s) && s.xmit.XTaken?
    ensures Shaped(c, t)
  {
    var id := s.xmit.id;
    if Accessible(s.buf[id])
    then s.(xmit := XInserted(s.xmit.frame, id), mem := s.mem[id := s.xmit.frame])
    else s.(xmit := XIdle, bugs := s.bugs + {CannotInsert})
  }

  function DoPutEcho(c: Config, s: State): (t: State)
    requires Shaped(c, s) && s.xmit.XInserted?
    ensures Shaped(c, t)
  {
    var id := s.xmit.id;
    if s.echo[id].None?
    then s.(xmit := XEchoed(s.xmit.frame, id), echo := s.echo[id := Some(s.xmit.frame)])
    else s.(xmit := XEchoed(s.xmit.frame, id), bugs := s.bugs + {EchoOccupied})
  }

  function DoSetReady(c: Config, s: State): (t: State)
    requires Shaped(c, s) && s.xmit.XEchoed?
    ensures Shaped(c, t)
  {
    s.(xmit := XIdle, buf := s.buf[s.xmit.id := Rdy])
  }

  // ---------------------------------------------------------------- ctucan_interrupt, ctucan_tx_interrupt

  function DoReadIntStat(c: Config, s: State): (t: State)
    requires Shaped(c, s) && s.irq.IIdle?
    ensures Shaped(c, t)
  {
    if s.txbhci then s.(irq := ISeen) else s
  }

  function DoAckInt(c: Config, s: State): (t: State)
    requires Shaped(c, s) && s.irq.ISeen?
    ensures Shaped(c, t)
  {
    s.(irq := IGuard(true, false), txbhci := false)
  }

  function DoTestGuard(c: Config, s: State): (t: State)
    requires Shaped(c, s) && s.irq.IGuard?
    ensures Shaped(c, t)
  {
    if SignedPositive(s.head, s.tail)
    then s.(irq := IStatus(s.irq.first, s.irq.processed, Slot(c.n, s.tail)))
    else s.(irq := IClear(s.irq.processed))
  }

  function DoReadStatus(c: Config, s: State): (t: State)
    requires Shaped(c, s) && s.irq.IStatus?
    ensures Shaped(c, t)
  {
    var b := s.buf[s.irq.idx];
    if b.Done? then s.(irq := IFinished(s.irq.idx, b.outcome))
    else if s.irq.first then s.(irq := IIdle, bugs := s.bugs + {TailNotFinished})
    else s.(irq := IClear(s.irq.processed))
  }

  /** Echo or free the skb, count it, and advance txb_tail. */
  function DoAccount(c: Config, s: State): (t: State)
    requires Shaped(c, s) && s.irq.IFinished?
    ensures Shaped(c, t)
  {
    var idx := s.irq.idx;
    var o := s.irq.outcome;
    var u := s.(irq := ITail(idx), tail := Wrap(s.tail + 1), echo := s.echo[idx := None],
                txPackets := if o.Tok? then s.txPackets + 1 else s.txPackets,
                txDropped := if o.Tok? then s.txDropped else s.txDropped + 1);
    if s.echo[idx].Some?
    then u.(retired := s.retired + [(s.echo[idx].value, o)])
    else u.(bugs := s.bugs + {EchoMissing})
  }

  function DoRotate(c: Config, s: State): (t: State)
    requires Shaped(c, s) && s.irq.ITail?
    ensures Shaped(c, t)
  {
    s.(irq := IEmpty(s.irq.idx), prio := Rotate(s.prio, c.n), rotations := s.rotations + 1)
  }

  function DoSetEmpty(c: Config, s: State): (t: State)
    requires Shaped(c, s) && s.irq.IEmpty?
    ensures Shaped(c, t)
  {
    s.(irq := IGuard(false, true), buf := s.buf[s.irq.idx := Ety])
  }

  function DoClearInt(c: Config, s: State): (t: State)
    requires Shaped(c, s) && s.irq.IClear?
    ensures Shaped(c, t)
  {
    s.(irq := if s.irq.processed then IGuard(false, false) else IIdle,
       txbhci := s.txbhci && c.skipIdleClear && !s.irq.processed)
  }

  // ---------------------------------------------------------------- the core

  function DoDone(c: Config, s: State, i: nat, o: Outcome): (t: State)
    requires Shaped(c, s) && i < c.n
    ensures Shaped(c, t)
  {
    s.(buf := s.buf[i := Done(o)], txbhci := true, sent := s.sent + [(s.mem[i], o)])
  }

  /** Buffer `i` moves to state `b` without completing: selection and retransmission. */
  function DoMove(c: Config, s: State, i: nat, b: BufState): (t: State)
    requires Shaped(c, s) && i < c.n
    ensures Shaped(c, t)
  {
    s.(buf := s.buf[i := b])
  }

  /** What one enabled step does; every branch of the driver code is here, including its BUG branches. */
  function Step(c: Config, s: State, a: Action): (t: State)
    requires Shaped(c, s) && Enabled(c, s, a)
    ensures Shaped(c, t)
  {
    match a
    case CheckNotFull(f) => DoCheck(c, s, f)
    case TakeHead => DoTakeHead(c, s)
    case InsertFrame => DoInsert(c, s)
    case PutEcho => DoPutEcho(c, s)
    case SetReady => DoSetReady(c, s)
    case ReadIntStat => DoReadIntStat(c, s)
    case AckInt => DoAckInt(c, s)
    case TestGuard => DoTestGuard(c, s)
    case ReadStatus => DoReadStatus(c, s)
    case Account => DoAccount(c, s)
    case RotatePriority => DoRotate(c, s)
    case SetEmpty => DoSetEmpty(c, s)
    case ClearInt => DoClearInt(c, s)
    case HwSelect(i) => DoMove(c, s, i, Tran)
    case HwDone(i, o) => DoDone(c, s, i, o)
    case HwRetry(i) => DoMove(c, s, i, Rdy)
  }

  /** `acts` can be executed from `s`, each step being enabled when it is taken. */
  predicate CanRun(c: Config, s: State, acts: seq<Action>)
    requires Shaped(c, s)
    decreases |acts|
  {
    acts == [] || (Enabled(c, s, acts[0]) && CanRun(c, Step(c, s, acts[0]), acts[1..]))
  }

  function Run(c: Config, s: State, acts: seq<Action>): (t: State)
    requires Shaped(c, s) && CanRun(c, s, acts)
    ensures Shaped(c, t)
    decreases |acts|
  {
    if acts == [] then s else Run(c, Step(c, s, acts[0]), acts[1..])
  }
}
