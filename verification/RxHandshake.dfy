/**
 * The RX interrupt handshake as a step system: frame arrivals, the level-triggered RBNEI, the RBNEI branch of
 * ctucan_interrupt, the NAPI scheduler and ctucan_rx_poll, interleaved between any two accesses.
 */
module RxHandshake {

  /** Control points of the RBNEI branch of ctucan_interrupt. */
  datatype IrqPc =
    | HIdle
    | HSeen          // INT_STAT read with RBNEI set; the RX_SCHED flag is tested next
    | HClear         // about to clear RBNEI in INT_STAT
    | HDisable       // about to clear RBNEI in INT_ENA
    | HFlag          // about to set the RX_SCHED flag
    | HSchedule      // about to call napi_schedule

  /** Control points of ctucan_rx_poll up to napi_complete_done. */
  datatype PollPc =
    | PNone
    | PCount(work: nat)               // about to read the frame count
    | PFrames(left: nat, work: nat)   // in the for loop
    | PDecide(work: nat)              // after the loops

  /**
   * A poll that got true from napi_complete_done still has to clear the flag, clear RBNEI and enable it; the next
   * poll may already be running by then, so each of these positions is a count of polls.
   */
  datatype State = State(
    frames: nat, enabled: bool, pending: bool, flag: bool, scheduled: bool, missed: bool,
    irq: IrqPc, poll: PollPc, toUnflag: nat, toClear: nat, toEnable: nat)

  datatype Action =
    | Arrive | Latch
    | ReadIntStat | TestFlag | ClearInt | DisableInt | SetFlag | Schedule
    | StartPoll | ReadCount | RxOne(gotSkb: bool) | Finish
    | Unflag | PollClear | PollEnable

  const INIT: State := State(0, true, false, false, false, false, HIdle, PNone, 0, 0, 0)

  predicate Enabled(s: State, a: Action) {
    match a
    case Arrive => true
    case Latch => s.enabled && s.frames > 0
    case ReadIntStat => s.irq.HIdle?
    case TestFlag => s.irq.HSeen?
    case ClearInt => s.irq.HClear?
    case DisableInt => s.irq.HDisable?
    case SetFlag => s.irq.HFlag?
    case Schedule => s.irq.HSchedule?
    case StartPoll => s.scheduled && s.poll.PNone?
    case ReadCount => s.poll.PCount?
    case RxOne(_) => s.poll.PFrames? && s.poll.left > 0
    case Finish => s.poll.PDecide?
    case Unflag => s.toUnflag > 0
    case PollClear => s.toClear > 0
    case PollEnable => s.toEnable > 0
  }

  function Step(quota: nat, s: State, a: Action): State
    requires Enabled(s, a)
  {
    match a
    case Arrive => s.(frames := s.frames + 1)
    case Latch => s.(pending := true)
    case ReadIntStat => if s.pending then s.(irq := HSeen) else s
    case TestFlag => s.(irq := if s.flag then HIdle else HClear)
    case ClearInt => s.(irq := HDisable, pending := false)
    case DisableInt => s.(irq := HFlag, enabled := false)
    case SetFlag => s.(irq := HSchedule, flag := true)
    case Schedule => s.(irq := HIdle, scheduled := true, missed := s.scheduled)
    case StartPoll => s.(poll := PCount(0))
    case ReadCount =>
      if s.frames > 0 && s.poll.work < quota then s.(poll := PFrames(s.frames, s.poll.work))
      else s.(poll := PDecide(s.poll.work))
    case RxOne(gotSkb) =>
      var work := s.poll.work + 1;
      s.(poll := if s.poll.left == 1 then PCount(work) else PFrames(s.poll.left - 1, work),
         frames := if gotSkb && s.frames > 0 then s.frames - 1 else s.frames)
    case Finish =>
      if s.poll.work >= quota then s.(poll := PNone)
      else if s.missed then s.(poll := PNone, missed := false)
      else s.(poll := PNone, scheduled := false, toUnflag := s.toUnflag + 1)
    case Unflag => s.(flag := false, toUnflag := s.toUnflag - 1, toClear := s.toClear + 1)
    case PollClear => s.(pending := false, toClear := s.toClear - 1, toEnable := s.toEnable + 1)
    case PollEnable => s.(enabled := true, toEnable := s.toEnable - 1)
  }

  predicate CanRun(quota: nat, s: State, acts: seq<Action>)
    decreases |acts|
  {
    acts == [] || (Enabled(s, acts[0]) && CanRun(quota, Step(quota, s, acts[0]), acts[1..]))
  }

  function Run(quota: nat, s: State, acts: seq<Action>): State
    requires CanRun(quota, s, acts)
    decreases |acts|
  {
    if acts == [] then s else Run(quota, Step(quota, s, acts[0]), acts[1..])
  }

  /** A completed poll is still to re-enable RBNEI. */
  predicate AboutToEnable(s: State) {
    s.toUnflag + s.toClear + s.toEnable > 0
  }

  /** The interrupt handler is between disabling RBNEI and scheduling NAPI. */
  predicate HandlerWindow(s: State) {
    s.irq.HFlag? || s.irq.HSchedule?
  }

  /** A frame in the FIFO raises RBNEI and the handler will not ignore it. */
  predicate Armed(s: State) {
    s.enabled && !s.flag
  }

  predicate Inv(s: State) {
    (s.flag ==> s.scheduled || s.toUnflag > 0 || s.irq.HSchedule?) &&
    (!s.enabled ==> s.scheduled || AboutToEnable(s) || HandlerWindow(s)) &&
    (!s.poll.PNone? ==> s.scheduled) &&
    (s.missed ==> s.scheduled) && (s.poll.PFrames? ==> 0 < s.poll.left <= s.frames)
  }

  lemma StepKeeps(quota: nat, s: State, a: Action)
    requires Inv(s) && Enabled(s, a)
    ensures Inv(Step(quota, s, a))
  {
  }

  lemma {:induction false} RunKeeps(quota: nat, s: State, acts: seq<Action>)
    requires Inv(s) && CanRun(quota, s, acts)
    ensures Inv(Run(quota, s, acts))
    decreases |acts|
  {
    if acts == [] {
    } else {
      StepKeeps(quota, s, acts[0]);
      RunKeeps(quota, Step(quota, s, acts[0]), acts[1..]);
    }
  }

  /**
   * No received frame is stranded: after any run, outside the handler's own window, either NAPI is scheduled (which
   * includes a poll in progress), or a completed poll is about to re-enable RBNEI, or RBNEI is enabled and the handler
   * will act on it. A poll in progress always has NAPI scheduled.
   */
  lemma NoStrandedFrame(quota: nat, acts: seq<Action>)
    requires CanRun(quota, INIT, acts)
    ensures var s := Run(quota, INIT, acts);
      (s.scheduled || AboutToEnable(s) || HandlerWindow(s) || Armed(s)) && (!s.poll.PNone? ==> s.scheduled)
  {
    RunKeeps(quota, INIT, acts);
  }

  lemma RunCons(quota: nat, s: State, a: Action, acts: seq<Action>)
    requires Enabled(s, a) && CanRun(quota, Step(quota, s, a), acts)
    ensures CanRun(quota, s, [a] + acts) && Run(quota, s, [a] + acts) == Run(quota, Step(quota, s, a), acts)
  {
    assert ([a] + acts)[1..] == acts;
  }

  // ---------------------------------------------------------------- a waiting frame can always be delivered

  /** How far the poll side is from reading a frame. */
  function Phase(quota: nat, s: State): nat {
    match s.poll
    case PFrames(_, _) => 0
    case PCount(work) => if work < quota then 1 else 4
    case PNone => if s.scheduled then 2 else 5
    case PDecide(work) => if work >= quota || s.missed then 3 else 6
  }

  function Tails(s: State): nat {
    3 * s.toUnflag + 2 * s.toClear + s.toEnable
  }

  function IrqRank(s: State): nat {
    match s.irq
    case HIdle => 6
    case HSeen => 5
    case HClear => 4
    case HDisable => 3
    case HFlag => 2
    case HSchedule => 1
  }

  /** The step that brings the next delivery closer. */
  function Closer(s: State): Action {
    match s.poll
    case PFrames(_, _) => RxOne(true)
    case PCount(_) => ReadCount
    case PDecide(_) => Finish
    case PNone =>
      if s.scheduled then StartPoll
      else if s.toUnflag > 0 then Unflag
      else if s.toClear > 0 then PollClear
      else if s.toEnable > 0 then PollEnable
      else match s.irq
        case HIdle => if s.pending then ReadIntStat else Latch
        case HSeen => TestFlag
        case HClear => ClearInt
        case HDisable => DisableInt
        case HFlag => SetFlag
        case HSchedule => Schedule
  }

  lemma CloserEnabled(quota: nat, s: State)
    requires Inv(s) && s.frames > 0
    ensures Enabled(s, Closer(s)) && !Closer(s).Arrive? && Inv(Step(quota, s, Closer(s)))
  {
    StepKeeps(quota, s, Closer(s));
  }

  /** `t` is nearer to a delivery than `s`: a frame was taken, or the measure went down lexicographically. */
  predicate Nearer(quota: nat, t: State, s: State) {
    t.frames < s.frames ||
    (t.frames == s.frames &&
     (Phase(quota, t) < Phase(quota, s) ||
      (Phase(quota, t) == Phase(quota, s) &&
       (Tails(t) < Tails(s) ||
        (Tails(t) == Tails(s) &&
         (IrqRank(t) < IrqRank(s) || (IrqRank(t) == IrqRank(s) && t.pending && !s.pending)))))))
  }

  lemma CloserWhileScheduled(quota: nat, s: State)
    requires quota > 0 && Inv(s) && s.frames > 0 && Enabled(s, Closer(s)) && (s.scheduled || !s.poll.PNone?)
    ensures Nearer(quota, Step(quota, s, Closer(s)), s)
  {
    hide Tails;
    hide IrqRank;
  }

  lemma CloserWhenIdle(quota: nat, s: State)
    requires quota > 0 && Inv(s) && s.frames > 0 && Enabled(s, Closer(s)) && !s.scheduled && s.poll.PNone?
    ensures Nearer(quota, Step(quota, s, Closer(s)), s)
  {
  }

  lemma CloserDescends(quota: nat, s: State)
    requires quota > 0 && Inv(s) && s.frames > 0 && Enabled(s, Closer(s))
    ensures Nearer(quota, Step(quota, s, Closer(s)), s)
  {
    hide Nearer;
    hide Step;
    hide Enabled;
    hide Inv;
    if s.scheduled || !s.poll.PNone? { CloserWhileScheduled(quota, s); } else { CloserWhenIdle(quota, s); }
  }

  /**
   * From every state the driver can reach with a frame in the FIFO, steps of the handler, the scheduler, the poll and
   * the interrupt line alone, with no new arrival, lead to a delivery: the handshake never locks up.
   */
  lemma {:induction false} AlwaysDeliverable(quota: nat, s: State) returns (acts: seq<Action>)
    requires quota > 0 && Inv(s) && s.frames > 0
    ensures CanRun(quota, s, acts) && Run(quota, s, acts).frames < s.frames
    ensures forall i :: 0 <= i < |acts| ==> !acts[i].Arrive?
    decreases Phase(quota, s), Tails(s), IrqRank(s), !s.pending
  {
    hide Inv;
    hide Enabled;
    hide Step;
    hide Phase;
    hide Tails;
    hide IrqRank;
    hide Closer;
    CloserEnabled(quota, s);
    CloserDescends(quota, s);
    var a := Closer(s);
    var t := Step(quota, s, a);
    if t.frames < s.frames {
      acts := [];
    } else {
      acts := AlwaysDeliverable(quota, t);
    }
    RunCons(quota, s, a, acts);
    acts := [a] + acts;
  }

  /** The same, stated for every run from the initial state. */
  lemma EveryRunCanDeliver(quota: nat, acts: seq<Action>) returns (more: seq<Action>)
    requires quota > 0 && CanRun(quota, INIT, acts) && Run(quota, INIT, acts).frames > 0
    ensures CanRun(quota, Run(quota, INIT, acts), more)
    ensures Run(quota, Run(quota, INIT, acts), more).frames < Run(quota, INIT, acts).frames
    ensures forall i :: 0 <= i < |more| ==> !more[i].Arrive?
  {
    RunKeeps(quota, INIT, acts);
    more := AlwaysDeliverable(quota, Run(quota, INIT, acts));
  }

  // ---------------------------------------------------------------- what the register writes and the flag achieve

  predicate Without(acts: seq<Action>, a: Action) {
    forall i :: 0 <= i < |acts| ==> acts[i] != a
  }

  lemma {:induction false} StaysDisabled(quota: nat, s: State, acts: seq<Action>)
    requires CanRun(quota, s, acts) && !s.enabled && Without(acts, PollEnable)
    ensures !Run(quota, s, acts).enabled
    decreases |acts|
  {
    if acts == [] {
    } else {
      StaysDisabled(quota, Step(quota, s, acts[0]), acts[1..]);
    }
  }

  /**
   * From the handler's write to INT_ENA until a poll enables RBNEI again, whatever happens, the line is off: the
   * frames still in the FIFO raise no interrupt while they wait for the poll.
   */
  lemma DisabledUntilPollEnables(quota: nat, s: State, acts: seq<Action>)
    requires Enabled(s, DisableInt) && CanRun(quota, Step(quota, s, DisableInt), acts) && Without(acts, PollEnable)
    ensures var t := Run(quota, Step(quota, s, DisableInt), acts); !t.enabled && !Enabled(t, Latch)
  {
    StaysDisabled(quota, Step(quota, s, DisableInt), acts);
  }

  lemma {:induction false} StaysClear(quota: nat, s: State, acts: seq<Action>)
    requires CanRun(quota, s, acts) && !s.pending && Without(acts, Latch)
    ensures !Run(quota, s, acts).pending
    decreases |acts|
  {
    if acts == [] {
    } else {
      StaysClear(quota, Step(quota, s, acts[0]), acts[1..]);
    }
  }

  /** After either clear of RBNEI it is pending again only if the core raised it again: no interrupt for nothing. */
  lemma ClearedUntilRaised(quota: nat, s: State, a: Action, acts: seq<Action>)
    requires (a.ClearInt? || a.PollClear?) && Enabled(s, a) && CanRun(quota, Step(quota, s, a), acts)
    requires Without(acts, Latch)
    ensures !Run(quota, Step(quota, s, a), acts).pending
  {
    StaysClear(quota, Step(quota, s, a), acts);
  }

  lemma {:induction false} StaysIdle(quota: nat, s: State, acts: seq<Action>)
    requires CanRun(quota, s, acts) && s.irq.HIdle? && !s.pending && Without(acts, Latch)
    ensures Run(quota, s, acts).irq.HIdle? && !Run(quota, s, acts).pending
    decreases |acts|
  {
    if acts == [] {
    } else {
      StaysIdle(quota, Step(quota, s, acts[0]), acts[1..]);
    }
  }

  /** Once a poll has cleared RBNEI with the handler idle, the handler stays out until the core raises it again. */
  lemma NoSpuriousHandling(quota: nat, s: State, acts: seq<Action>)
    requires Enabled(s, PollClear) && s.irq.HIdle? && CanRun(quota, Step(quota, s, PollClear), acts)
    requires Without(acts, Latch)
    ensures Run(quota, Step(quota, s, PollClear), acts).irq.HIdle?
  {
    StaysIdle(quota, Step(quota, s, PollClear), acts);
  }

  lemma {:induction false} StaysMissed(quota: nat, s: State, acts: seq<Action>)
    requires CanRun(quota, s, acts) && s.missed && s.scheduled && NoFinish(acts) && Without(acts, Schedule)
    ensures Run(quota, s, acts).missed && Run(quota, s, acts).scheduled
    decreases |acts|
  {
    if acts == [] {
    } else {
      StaysMissed(quota, Step(quota, s, acts[0]), acts[1..]);
    }
  }

  /** Scheduling a poll while one is running is not lost: when that one finishes, NAPI is still scheduled. */
  lemma ScheduleNotLost(quota: nat, s: State, acts: seq<Action>)
    requires Inv(s) && Enabled(s, Schedule) && !s.poll.PNone? && CanRun(quota, Step(quota, s, Schedule), acts)
    requires NoFinish(acts) && Without(acts, Schedule)
    ensures var t := Run(quota, Step(quota, s, Schedule), acts);
      Enabled(t, Finish) ==> Step(quota, t, Finish).scheduled
  {
    StaysMissed(quota, Step(quota, s, Schedule), acts);
  }

  /** The handler is not acting on RBNEI, except that it may still have to schedule the poll. */
  predicate HeldOff(s: State) {
    s.flag && (s.irq.HIdle? || s.irq.HSeen? || s.irq.HSchedule?)
  }

  lemma {:induction false} StaysHeldOff(quota: nat, s: State, acts: seq<Action>)
    requires CanRun(quota, s, acts) && HeldOff(s) && Without(acts, Unflag)
    ensures HeldOff(Run(quota, s, acts))
    decreases |acts|
  {
    if acts == [] {
    } else {
      StaysHeldOff(quota, Step(quota, s, acts[0]), acts[1..]);
    }
  }

  /** From setting RX_SCHED until a poll clears it, the handler ignores RBNEI: it neither clears nor disables it again. */
  lemma IgnoredWhileScheduled(quota: nat, s: State, acts: seq<Action>)
    requires Enabled(s, SetFlag) && CanRun(quota, Step(quota, s, SetFlag), acts) && Without(acts, Unflag)
    ensures var t := Run(quota, Step(quota, s, SetFlag), acts);
      HeldOff(t) && !Enabled(t, ClearInt) && !Enabled(t, DisableInt) && !Enabled(t, SetFlag)
  {
    StaysHeldOff(quota, Step(quota, s, SetFlag), acts);
  }

  // ---------------------------------------------------------------- conservation

  function Arrived(acts: seq<Action>): nat {
    if acts == [] then 0 else (if acts[0].Arrive? then 1 else 0) + Arrived(acts[1..])
  }

  function Received(acts: seq<Action>): nat {
    if acts == [] then 0 else (if acts[0] == RxOne(true) then 1 else 0) + Received(acts[1..])
  }

  lemma CountStep(quota: nat, s: State, a: Action)
    requires Inv(s) && Enabled(s, a)
    ensures Step(quota, s, a).frames + (if a == RxOne(true) then 1 else 0) == s.frames + (if a.Arrive? then 1 else 0)
  {
    if a.Arrive? || a.RxOne? {
    } else {
      FramesKept(quota, s, a);
      hide Step;
    }
  }

  lemma FramesKept(quota: nat, s: State, a: Action)
    requires Enabled(s, a) && !a.Arrive? && !a.RxOne?
    ensures Step(quota, s, a).frames == s.frames
  {
  }

  lemma {:induction false} CountsMatch(quota: nat, s: State, acts: seq<Action>)
    requires Inv(s) && CanRun(quota, s, acts)
    ensures Run(quota, s, acts).frames + Received(acts) == s.frames + Arrived(acts)
    decreases |acts|
  {
    if acts == [] {
    } else {
      StepKeeps(quota, s, acts[0]);
      CountStep(quota, s, acts[0]);
      hide Step;
      hide Inv;
      hide Enabled;
      CountsMatch(quota, Step(quota, s, acts[0]), acts[1..]);
    }
  }

  /** After every run the FIFO holds exactly the frames that arrived and were not received: a failed call takes none. */
  lemma FramesConserved(quota: nat, acts: seq<Action>)
    requires CanRun(quota, INIT, acts)
    ensures Run(quota, INIT, acts).frames == Arrived(acts) - Received(acts)
  {
    CountsMatch(quota, INIT, acts);
  }

  // ---------------------------------------------------------------- work_done and the quota

  /** The work the running poll has done or has committed itself to. */
  function Pledged(s: State): nat {
    match s.poll
    case PNone => 0
    case PCount(work) => work
    case PFrames(left, work) => work + left
    case PDecide(work) => work
  }

  /** The frame count read next exceeds what is left of the quota, and there is some left. */
  predicate CountOverruns(quota: nat, s: State) {
    s.poll.PCount? && s.poll.work < quota < s.poll.work + s.frames
  }

  /** Some read of the frame count during `acts` overruns. */
  predicate SomeCountOverruns(quota: nat, s: State, acts: seq<Action>)
    requires CanRun(quota, s, acts)
    decreases |acts|
  {
    acts != [] &&
    ((acts[0].ReadCount? && CountOverruns(quota, s)) || SomeCountOverruns(quota, Step(quota, s, acts[0]), acts[1..]))
  }

  /** Only these steps move the poll. */
  lemma PollFrame(quota: nat, s: State, a: Action)
    requires Enabled(s, a) && !a.StartPoll? && !a.ReadCount? && !a.RxOne? && !a.Finish?
    ensures Step(quota, s, a).poll == s.poll
  {
  }

  lemma PledgeStep(quota: nat, s: State, a: Action)
    requires Enabled(s, a) && !s.poll.PNone? && !a.Finish?
    ensures var t := Step(quota, s, a);
      !t.poll.PNone? && Pledged(s) <= Pledged(t) &&
      (Pledged(s) <= quota < Pledged(t) <==> a.ReadCount? && CountOverruns(quota, s))
  {
    if a.ReadCount? {
      assert s.poll.PCount?;
    } else if a.RxOne? {
      assert s.poll.PFrames?;
    } else {
      PollFrame(quota, s, a);
      hide Step;
    }
  }

  /**
   * Within one poll, whatever else happens meanwhile: the work pledged passes the quota exactly when some read of the
   * frame count returns more than the quota has left.
   */
  lemma {:induction false} QuotaOverrun(quota: nat, s: State, acts: seq<Action>)
    requires CanRun(quota, s, acts) && !s.poll.PNone? && forall i :: 0 <= i < |acts| ==> !acts[i].Finish?
    ensures var t := Run(quota, s, acts);
      !t.poll.PNone? && Pledged(s) <= Pledged(t) &&
      (Pledged(s) <= quota ==> (quota < Pledged(t) <==> SomeCountOverruns(quota, s, acts)))
    ensures quota < Pledged(s) ==> !SomeCountOverruns(quota, s, acts)
    decreases |acts|
  {
    if acts == [] {
    } else {
      PledgeStep(quota, s, acts[0]);
      QuotaOverrun(quota, Step(quota, s, acts[0]), acts[1..]);
    }
  }

  function Work(s: State): nat {
    match s.poll
    case PNone => 0
    case PCount(work) => work
    case PFrames(_, work) => work
    case PDecide(work) => work
  }

  function Calls(acts: seq<Action>): nat {
    if acts == [] then 0 else (if acts[0].RxOne? then 1 else 0) + Calls(acts[1..])
  }

  predicate NoFinish(acts: seq<Action>) {
    forall i :: 0 <= i < |acts| ==> !acts[i].Finish?
  }

  lemma {:induction false} WorkGrows(quota: nat, s: State, acts: seq<Action>)
    requires CanRun(quota, s, acts) && !s.poll.PNone? && NoFinish(acts)
    ensures Work(Run(quota, s, acts)) == Work(s) + Calls(acts)
    decreases |acts|
  {
    if acts == [] {
    } else {
      var a := acts[0];
      if a.ReadCount? || a.RxOne? {
      } else {
        PollFrame(quota, s, a);
      }
      WorkGrows(quota, Step(quota, s, a), acts[1..]);
    }
  }

  /** The work a poll reports is the number of calls of ctucan_rx since it started, successful or not. */
  lemma WorkIsCalls(quota: nat, s: State, acts: seq<Action>)
    requires Enabled(s, StartPoll) && CanRun(quota, Step(quota, s, StartPoll), acts) && NoFinish(acts)
    ensures Work(Run(quota, Step(quota, s, StartPoll), acts)) == Calls(acts)
  {
    WorkGrows(quota, Step(quota, s, StartPoll), acts);
  }

  /** Some read of the frame count during `acts` found the FIFO empty with quota left. */
  predicate FoundEmpty(quota: nat, s: State, acts: seq<Action>)
    requires CanRun(quota, s, acts)
    decreases |acts|
  {
    acts != [] &&
    ((acts[0].ReadCount? && s.frames == 0 && Work(s) < quota) || FoundEmpty(quota, Step(quota, s, acts[0]), acts[1..]))
  }

  /** A poll that has decided stays decided. */
  lemma {:induction false} Decided(quota: nat, s: State, acts: seq<Action>)
    requires CanRun(quota, s, acts) && s.poll.PDecide? && NoFinish(acts)
    ensures Run(quota, s, acts).poll == s.poll && !FoundEmpty(quota, s, acts)
    decreases |acts|
  {
    if acts == [] {
    } else {
      PollFrame(quota, s, acts[0]);
      Decided(quota, Step(quota, s, acts[0]), acts[1..]);
    }
  }

  lemma {:induction false} EndsBelowQuota(quota: nat, s: State, acts: seq<Action>)
    requires CanRun(quota, s, acts) && (s.poll.PCount? || s.poll.PFrames?) && NoFinish(acts)
    requires Run(quota, s, acts).poll.PDecide?
    ensures Run(quota, s, acts).poll.work < quota <==> FoundEmpty(quota, s, acts)
    decreases |acts|
  {
    var a := acts[0];
    var t := Step(quota, s, a);
    if a.ReadCount? {
      if t.poll.PDecide? {
        Decided(quota, t, acts[1..]);
      } else {
        EndsBelowQuota(quota, t, acts[1..]);
      }
    } else {
      if !a.RxOne? { PollFrame(quota, s, a); }
      EndsBelowQuota(quota, t, acts[1..]);
    }
  }

  /**
   * A poll hands the FIFO back to the interrupt exactly when one of its looks found the FIFO empty with quota left and
   * no interrupt scheduled it again meanwhile; otherwise it stays scheduled. Finding it empty uses up the rescheduling.
   */
  lemma CompletesExactly(quota: nat, s: State, acts: seq<Action>)
    requires CanRun(quota, s, acts) && Inv(s) && s.poll.PCount? && NoFinish(acts)
    requires Run(quota, s, acts).poll.PDecide?
    ensures var t := Run(quota, s, acts); var u := Step(quota, t, Finish);
      u.poll.PNone? &&
      (!u.scheduled <==> FoundEmpty(quota, s, acts) && !t.missed) && (FoundEmpty(quota, s, acts) ==> !u.missed) &&
      u.toUnflag == t.toUnflag + (if u.scheduled then 0 else 1)
  {
    EndsBelowQuota(quota, s, acts);
    RunKeeps(quota, s, acts);
  }

  /** A poll reports more work than its quota exactly when some read of the frame count overran. */
  lemma ReportedWork(quota: nat, s: State, acts: seq<Action>)
    requires CanRun(quota, s, acts) && s.poll == PCount(0) && forall i :: 0 <= i < |acts| ==> !acts[i].Finish?
    requires Run(quota, s, acts).poll.PDecide?
    ensures Run(quota, s, acts).poll.work > quota <==> SomeCountOverruns(quota, s, acts)
  {
    QuotaOverrun(quota, s, acts);
  }

  /** From the interrupt to the start of the poll, with two frames waiting. */
  lemma HandlerRun() returns (acts: seq<Action>, s: State)
    ensures var armed := INIT.(frames := 2, pending := true, irq := HClear);
      CanRun(1, armed, acts) && Run(1, armed, acts) == s && s.poll == PCount(0) && s.frames == 2
  {
    s := State(2, false, false, true, true, false, HIdle, PCount(0), 0, 0, 0);
    acts := [];
    assert CanRun(1, s, acts) && Run(1, s, acts) == s;
    hide CanRun;
    hide Run;
    RunCons(1, State(2, false, false, true, true, false, HIdle, PNone, 0, 0, 0), StartPoll, acts);
    acts := [StartPoll] + acts;
    RunCons(1, State(2, false, false, true, false, false, HSchedule, PNone, 0, 0, 0), Schedule, acts);
    acts := [Schedule] + acts;
    RunCons(1, State(2, false, false, false, false, false, HFlag, PNone, 0, 0, 0), SetFlag, acts);
    acts := [SetFlag] + acts;
    RunCons(1, State(2, true, false, false, false, false, HDisable, PNone, 0, 0, 0), DisableInt, acts);
    acts := [DisableInt] + acts;
    RunCons(1, State(2, true, true, false, false, false, HClear, PNone, 0, 0, 0), ClearInt, acts);
    acts := [ClearInt] + acts;
  }

  /** Two frames arrive, raise the interrupt, and the poll starts. */
  lemma TwoFramesPolled() returns (acts: seq<Action>, s: State)
    ensures CanRun(1, INIT, acts) && Run(1, INIT, acts) == s && s.poll == PCount(0) && s.frames == 2
  {
    acts, s := HandlerRun();
    hide CanRun;
    hide Run;
    RunCons(1, State(2, true, true, false, false, false, HSeen, PNone, 0, 0, 0), TestFlag, acts);
    acts := [TestFlag] + acts;
    RunCons(1, State(2, true, true, false, false, false, HIdle, PNone, 0, 0, 0), ReadIntStat, acts);
    acts := [ReadIntStat] + acts;
    RunCons(1, State(2, true, false, false, false, false, HIdle, PNone, 0, 0, 0), Latch, acts);
    acts := [Latch] + acts;
    RunCons(1, State(1, true, false, false, false, false, HIdle, PNone, 0, 0, 0), Arrive, acts);
    acts := [Arrive] + acts;
    RunCons(1, INIT, Arrive, acts);
    acts := [Arrive] + acts;
  }

  /** It does happen: with quota 1 and two frames waiting the poll reports 2. */
  lemma QuotaExceeded() returns (acts: seq<Action>)
    ensures CanRun(1, INIT, acts) && Run(1, INIT, acts).poll == PDecide(2)
  {
    var s;
    acts, s := TwoFramesPolled();
    var more := [ReadCount, RxOne(true), RxOne(true), ReadCount];
    OverrunningPoll(s);
    RunAppend(1, INIT, acts, more);
    acts := acts + more;
  }

  lemma {:induction false} RunAppend(quota: nat, s: State, a: seq<Action>, b: seq<Action>)
    requires CanRun(quota, s, a) && CanRun(quota, Run(quota, s, a), b)
    ensures CanRun(quota, s, a + b) && Run(quota, s, a + b) == Run(quota, Run(quota, s, a), b)
    decreases |a|
  {
    if a == [] {
      assert a + b == b;
    } else {
      RunAppend(quota, Step(quota, s, a[0]), a[1..], b);
      assert (a + b)[1..] == a[1..] + b;
    }
  }

  /** A poll with quota 1 that finds two frames commits itself to both. */
  lemma OverrunningPoll(s: State)
    requires s.poll == PCount(0) && s.frames == 2
    ensures var acts := [ReadCount, RxOne(true), RxOne(true), ReadCount];
      CanRun(1, s, acts) && Run(1, s, acts).poll == PDecide(2)
  {
    var s1 := Step(1, s, ReadCount);
    var s2 := Step(1, s1, RxOne(true));
    var s3 := Step(1, s2, RxOne(true));
    RunCons(1, s3, ReadCount, []);
    RunCons(1, s2, RxOne(true), [ReadCount]);
    RunCons(1, s1, RxOne(true), [RxOne(true), ReadCount]);
    RunCons(1, s, ReadCount, [RxOne(true), RxOne(true), ReadCount]);
  }
}
