/** The receive path: ctu_can_fd_read_rx_frame_ffw and ctucan_rx on the RX FIFO, with failing skb allocations. */
module RxStream {
  import opened Words
  import opened FrameCodec

  /** The RX FIFO, the buffered FRAME_FORM_W of ctucan_priv, and what went up the stack. */
  datatype View = View(
    fifo: seq<u32>, buffered: bool, firstWord: u32, delivered: seq<CanFrame>, rxPackets: nat, rxBytes: nat)

  /** The frame a run of core words stands for. */
  function FrameOf(words: seq<u32>): CanFrame
    requires |words| > 0
  {
    RxFrame(FfwOf(words[0]), words[1..])
  }

  /** One call of ctucan_rx. */
  function RxCall(v: View, gotSkb: bool): View {
    var first := if v.buffered then v.firstWord else Ahead(v.fifo, 0);
    var fifo := if v.buffered then v.fifo else After(v.fifo, 1);
    var w := FfwOf(first);
    if !gotSkb then v.(fifo := fifo, buffered := true, firstWord := first)
    else
      v.(fifo := After(fifo, RxTaken(w)), buffered := false, delivered := v.delivered + [RxFrame(w, fifo)],
         rxPackets := v.rxPackets + 1, rxBytes := v.rxBytes + RxLen(w))
  }

  /** The word a call starts from describes at most 64 payload bytes, the size of the frame buffer. */
  predicate NextFits(v: View) {
    RxLen(FfwOf(if v.buffered then v.firstWord else Ahead(v.fifo, 0))) <= 64
  }

  class Receiver {
    /** The RX FIFO of the core. */
    var fifo: seq<u32>
    /** CTUCAN_FLAG_RX_FFW_BUFFERED and rxfrm_first_word. */
    var buffered: bool
    var firstWord: u32
    var delivered: seq<CanFrame>
    var rxPackets: nat
    var rxBytes: nat

    function Value(): View
      reads this
    {
      View(fifo, buffered, firstWord, delivered, rxPackets, rxBytes)
    }

    constructor ()
      ensures Value() == View([], false, 0, [], 0, 0)
    {
      fifo, buffered, firstWord, delivered, rxPackets, rxBytes := [], false, 0, [], 0, 0;
    }

    /** A read of RX_DATA moves the read pointer. */
    method ReadRxData() returns (w: u32)
      modifies this`fifo
      ensures w == Ahead(old(fifo), 0) && fifo == After(old(fifo), 1)
    {
      if |fifo| == 0 {
        return 0;
      }
      w := fifo[0];
      fifo := fifo[1..];
    }

    /** The data loop of ctu_can_fd_read_rx_frame_ffw. */
    method ReadData(len: nat) returns (data: seq<byte>)
      requires len <= 64
      modifies this`fifo
      ensures data == RxData(old(fifo), len) && fifo == After(old(fifo), WordCount(len))
    {
      hide ByteOf;
      data := seq(64, i => 0);
      var i := 0;
      while i < len
        invariant i % 4 == 0 && 0 <= i <= 64 && i <= 4 * WordCount(len) && (i < len <==> i < 4 * WordCount(len))
        invariant fifo == After(old(fifo), i / 4)
        invariant |data| == 64
        invariant forall j :: 0 <= j < 64 ==> data[j] == if j < i then RxData(old(fifo), len)[j] else 0
      {
        var word := ReadRxData();
        data := data[i := ByteOf(word, 0)][i + 1 := ByteOf(word, 1)][i + 2 := ByteOf(word, 2)][i + 3 := ByteOf(word, 3)];
        i := i + 4;
      }
    }

    /** ctu_can_fd_read_rx_frame_ffw. */
    method ReadRxFrame(w: Ffw) returns (cf: CanFrame, ts: nat)
      requires RxLen(w) <= 64
      modifies this`fifo
      ensures cf == RxFrame(w, old(fifo)) && ts == RxStamp(old(fifo)) && fifo == After(old(fifo), RxTaken(w))
    {
      hide HwidToId;
      hide RxLen;
      hide RxData;
      var idw := ReadRxData();
      var canId := HwidToId(idw, if !w.fdf && w.rtr then RTR_FLAG else 0, w.ide);
      var low := ReadRxData();
      var high := ReadRxData();
      ts := low + TWO_32 * high;
      assert fifo == After(old(fifo), 3);
      var data := ReadData(RxLen(w));
      cf := CanFrame(canId, RxLen(w), w.fdf && w.brs, w.fdf && w.esi, data);
    }

    /** ctucan_rx; `gotSkb` says whether the skb allocation succeeded. */
    method Rx(gotSkb: bool) returns (received: nat)
      requires NextFits(Value())
      modifies this
      ensures Value() == RxCall(old(Value()), gotSkb)
      ensures received == if gotSkb then 1 else 0
    {
      hide FfwOf;
      hide RxFrame;
      var ffw: u32;
      if buffered {
        ffw := firstWord;
        buffered := false;
      } else {
        ffw := ReadRxData();
      }
      if !gotSkb {
        firstWord := ffw;
        buffered := true;
        return 0;
      }
      var cf, ts := ReadRxFrame(FfwOf(ffw));
      rxBytes := rxBytes + RxLen(FfwOf(ffw));
      rxPackets := rxPackets + 1;
      delivered := delivered + [cf];
      received := 1;
    }

    /** The core stores further frames: any number of them, each of which the reader takes whole. */
    method Arrivals(waiting: nat, ghost v: View, ghost frames: seq<seq<u32>>, ghost k: nat)
      returns (now: nat, ghost all: seq<seq<u32>>)
      requires Drained(v, frames, k, Value()) && waiting == |frames| - k
      modifies this`fifo
      ensures frames <= all && now == |all| - k && Drained(v, all, k, Value())
    {
      hide Drained;
      hide Readable;
      now, all := waiting, frames;
      var room: nat := *;
      while room > 0
        invariant frames <= all && now == |all| - k && Drained(v, all, k, Value())
      {
        var words: seq<u32> := *;
        if Readable(words) {
          DrainedGrows(v, all, k, Value(), words);
          fifo := fifo + words;
          all := all + [words];
          now := now + 1;
        }
        room := room - 1;
      }
    }

    /**
     * The for loop of ctucan_rx_poll: one call of ctucan_rx per counted frame. `waiting` is the frame count of the
     * core, which drops when the last word of a frame is read; any allocation may fail and frames may arrive before
     * every call. `all` is `frames` and what arrived.
     */
    method RxBatch(count: nat, waiting: nat, ghost frames: seq<seq<u32>>) returns (left: nat, ghost all: seq<seq<u32>>)
      requires Holds(Value(), frames) && count <= waiting == |frames|
      modifies this
      ensures frames <= all && left <= |all| <= left + count && Drained(old(Value()), all, |all| - left, Value())
    {
      hide Holds;
      hide RxCall;
      hide Drained;
      left, all := waiting, frames;
      StartsDrained(Value(), frames);
      var i := 0;
      while i < count
        invariant 0 <= i <= count && count - i <= left && frames <= all && left <= |all| <= left + i
        invariant Drained(old(Value()), all, |all| - left, Value())
      {
        left, all := Arrivals(left, old(Value()), all, |all| - left);
        var gotSkb: bool := *;
        NextCallDrains(old(Value()), all, |all| - left, Value(), gotSkb);
        var received := Rx(gotSkb);
        left := left - received;
        i := i + 1;
      }
    }

    /**
     * ctucan_rx_poll, with frames arriving at any time: those delivered are the first ones of all, in order, and the
     * poll reports less than its quota only if its last look at the FIFO found it empty.
     */
    method RxPoll(quota: nat, waiting: nat, ghost frames: seq<seq<u32>>)
      returns (workDone: nat, left: nat, ghost all: seq<seq<u32>>)
      requires Holds(Value(), frames) && waiting == |frames|
      modifies this
      ensures frames <= all && left <= |all| && Drained(old(Value()), all, |all| - left, Value())
      ensures |all| - left <= workDone && (workDone < quota ==> left == 0)
      ensures if quota == 0 then workDone == 0 else workDone < quota + |all|
    {
      hide Holds;
      hide Drained;
      workDone, left, all := 0, waiting, frames;
      StartsDrained(Value(), frames);
      left, all := Arrivals(left, old(Value()), all, 0);
      var count := left;
      while count > 0 && workDone < quota
        invariant frames <= all && count == left <= |all| && |all| - left <= workDone
        invariant Drained(old(Value()), all, |all| - left, Value())
        invariant if quota == 0 then workDone == 0 else workDone < quota + |all|
        decreases quota - workDone
      {
        ghost var done, before := |all| - left, Value();
        DrainedHolds(old(Value()), all, done, before);
        ghost var rest;
        left, rest := RxBatch(count, left, all[done..]);
        DrainedOn(old(Value()), all, done, before, rest, |rest| - left, Value());
        all := all[..done] + rest;
        workDone := workDone + count;
        left, all := Arrivals(left, old(Value()), all, |all| - left);
        count := left;
      }
    }
  }

  // ---------------------------------------------------------------- a stream of frames

  /** Words from the core that the reader takes completely: any frame that is not a remote frame announcing data. */
  predicate Readable(words: seq<u32>): (readable: bool)
    ensures readable ==> 4 <= |words|
  {
    FromCore(words) && 1 + RxTaken(FfwOf(words[0])) == |words|
  }

  function Concat(frames: seq<seq<u32>>): seq<u32> {
    if frames == [] then [] else frames[0] + Concat(frames[1..])
  }

  /** Words not yet consumed, the buffered one included. */
  function Unread(v: View): seq<u32> {
    if v.buffered then [v.firstWord] + v.fifo else v.fifo
  }

  /** The receiver is at a frame boundary of `frames`, or has only taken the first word of the first of them. */
  predicate Holds(v: View, frames: seq<seq<u32>>) {
    Unread(v) == Concat(frames) && (v.buffered ==> frames != []) &&
    forall i :: 0 <= i < |frames| ==> Readable(frames[i])
  }

  /** The reader looks no further than the words of the frame. */
  lemma FrameIsLocal(words: seq<u32>, rest: seq<u32>)
    requires Readable(words)
    ensures RxFrame(FfwOf(words[0]), words[1..] + rest) == FrameOf(words)
    ensures After(words[1..] + rest, RxTaken(FfwOf(words[0]))) == rest
  {
    hide FfwOf;
    hide HwidToId;
    hide ByteOf;
    hide RxLen;
    var w, body := FfwOf(words[0]), words[1..];
    assert Ahead(body + rest, 0) == Ahead(body, 0);
    forall i: nat | i < WordCount(RxLen(w))
      ensures Ahead(After(body + rest, 3), i) == Ahead(After(body, 3), i)
    {
    }
    assert RxData(After(body + rest, 3), RxLen(w)) == RxData(After(body, 3), RxLen(w));
  }

  /** Where one call stands: the first word of the frame, and the FIFO behind it. */
  lemma AtBoundary(v: View, frames: seq<seq<u32>>)
    requires Holds(v, frames) && frames != []
    ensures var first := if v.buffered then v.firstWord else Ahead(v.fifo, 0);
      var fifo := if v.buffered then v.fifo else After(v.fifo, 1);
      first == frames[0][0] && fifo == frames[0][1..] + Concat(frames[1..])
  {
    assert Unread(v)[0] == frames[0][0];
    assert Unread(v)[1..] == frames[0][1..] + Concat(frames[1..]);
  }

  /** A call with memory delivers the next frame and consumes exactly its words. */
  lemma DeliversNext(v: View, frames: seq<seq<u32>>)
    requires Holds(v, frames) && frames != []
    ensures NextFits(v)
    ensures var t := RxCall(v, true);
      Holds(t, frames[1..]) && t.delivered == v.delivered + [FrameOf(frames[0])] && !t.buffered &&
      t.rxPackets == v.rxPackets + 1 && t.rxBytes == v.rxBytes + FrameOf(frames[0]).len
  {
    AtBoundary(v, frames);
    FrameIsLocal(frames[0], Concat(frames[1..]));
    TakesItsWords(frames[0]);
  }

  /** A call without memory delivers nothing and loses nothing: the first word waits in the driver. */
  lemma FailureLosesNothing(v: View, frames: seq<seq<u32>>)
    requires Holds(v, frames) && frames != []
    ensures var t := RxCall(v, false);
      Holds(t, frames) && t.delivered == v.delivered && t.buffered && Unread(t) == Unread(v) &&
      t.rxPackets == v.rxPackets && t.rxBytes == v.rxBytes
  {
    AtBoundary(v, frames);
  }

  function RxCalls(v: View, schedule: seq<bool>): View
    decreases |schedule|
  {
    if schedule == [] then v else RxCalls(RxCall(v, schedule[0]), schedule[1..])
  }

  function Successes(schedule: seq<bool>): nat {
    if schedule == [] then 0 else (if schedule[0] then 1 else 0) + Successes(schedule[1..])
  }

  /** Every call finds a frame: the poll routine calls once per frame the core reports. */
  predicate Supplied(frames: seq<seq<u32>>, schedule: seq<bool>) {
    schedule == [] ||
    (frames != [] && Supplied(if schedule[0] then frames[1..] else frames, schedule[1..]))
  }

  function FramesOf(frames: seq<seq<u32>>): seq<CanFrame>
    requires forall i :: 0 <= i < |frames| ==> Readable(frames[i])
  {
    seq(|frames|, i requires 0 <= i < |frames| => assert Readable(frames[i]); FrameOf(frames[i]))
  }

  /** The payload bytes of all `frames`. */
  function Payloads(frames: seq<CanFrame>): nat {
    if frames == [] then 0 else frames[0].len + Payloads(frames[1..])
  }

  /**
   * From `v` to `t` exactly the first `k` of `frames` were delivered, in order, and counted in packets and bytes; the
   * others are untouched.
   */
  predicate Drained(v: View, frames: seq<seq<u32>>, k: nat, t: View) {
    k <= |frames| && (forall i :: 0 <= i < |frames| ==> Readable(frames[i])) && Holds(t, frames[k..]) &&
    t.delivered == v.delivered + FramesOf(frames[..k]) &&
    t.rxPackets == v.rxPackets + k && t.rxBytes == v.rxBytes + Payloads(FramesOf(frames[..k]))
  }

  lemma StartsDrained(v: View, frames: seq<seq<u32>>)
    requires Holds(v, frames)
    ensures Drained(v, frames, 0, v)
  {
    assert frames[0..] == frames;
  }

  lemma DrainedHolds(v: View, frames: seq<seq<u32>>, k: nat, t: View)
    requires Drained(v, frames, k, t)
    ensures k <= |frames| && Holds(t, frames[k..])
  {
  }

  lemma FramesOfAppend(a: seq<seq<u32>>, b: seq<seq<u32>>)
    requires forall i :: 0 <= i < |a| ==> Readable(a[i])
    requires forall i :: 0 <= i < |b| ==> Readable(b[i])
    ensures FramesOf(a + b) == FramesOf(a) + FramesOf(b)
    ensures Payloads(FramesOf(a + b)) == Payloads(FramesOf(a)) + Payloads(FramesOf(b))
  {
    hide Payloads;
    PayloadsAppend(FramesOf(a), FramesOf(b));
  }

  lemma {:induction false} PayloadsAppend(a: seq<CanFrame>, b: seq<CanFrame>)
    ensures Payloads(a + b) == Payloads(a) + Payloads(b)
  {
    if a == [] {
      assert a + b == b;
    } else {
      PayloadsAppend(a[1..], b);
      assert (a + b)[1..] == a[1..] + b;
    }
  }

  lemma DrainedTwice(v: View, frames: seq<seq<u32>>, j: nat, t: View, k: nat, u: View)
    requires Drained(v, frames, j, t) && Drained(t, frames[j..], k, u)
    ensures Drained(v, frames, j + k, u)
  {
    hide Readable;
    hide FramesOf;
    hide Unread;
    hide Concat;
    assert frames[j..][k..] == frames[j + k..];
    assert frames[..j] + frames[j..][..k] == frames[..j + k];
    FramesOfAppend(frames[..j], frames[j..][..k]);
  }

  lemma {:induction false} ConcatAppend(a: seq<seq<u32>>, b: seq<seq<u32>>)
    ensures Concat(a + b) == Concat(a) + Concat(b)
  {
    if a == [] {
      assert a + b == b;
    } else {
      ConcatAppend(a[1..], b);
      assert (a + b)[0] == a[0] && (a + b)[1..] == a[1..] + b;
      var x, y, z := a[0], Concat(a[1..]), Concat(b);
      assert x + (y + z) == (x + y) + z;
    }
  }

  /** A frame stored behind the others leaves the account as it is. */
  lemma DrainedGrows(v: View, frames: seq<seq<u32>>, k: nat, t: View, words: seq<u32>)
    requires Drained(v, frames, k, t) && Readable(words)
    ensures Drained(v, frames + [words], k, t.(fifo := t.fifo + words))
  {
    hide Readable;
    hide FramesOf;
    var all := frames + [words];
    var u := t.(fifo := t.fifo + words);
    assert all[k..] == frames[k..] + [words] && all[..k] == frames[..k];
    ConcatAppend(frames[k..], [words]);
    assert Concat([words]) == words;
    assert Unread(u) == Unread(t) + words;
  }

  /** Draining on from where an earlier call stopped, while more frames arrive. */
  lemma DrainedOn(v: View, frames: seq<seq<u32>>, j: nat, t: View, rest: seq<seq<u32>>, k: nat, u: View)
    requires Drained(v, frames, j, t) && frames[j..] <= rest && Drained(t, rest, k, u)
    ensures frames <= frames[..j] + rest && Drained(v, frames[..j] + rest, j + k, u)
  {
    hide Readable;
    hide FramesOf;
    hide Unread;
    hide Concat;
    var all := frames[..j] + rest;
    assert frames == frames[..j] + frames[j..];
    assert all[j + k..] == rest[k..] && all[..j + k] == frames[..j] + rest[..k];
    FramesOfAppend(frames[..j], rest[..k]);
  }

  /** One call drains one frame, or none if it gets no memory. */
  lemma CallDrains(v: View, frames: seq<seq<u32>>, gotSkb: bool)
    requires Holds(v, frames) && frames != []
    ensures NextFits(v) && Drained(v, frames, if gotSkb then 1 else 0, RxCall(v, gotSkb))
  {
    DeliversNext(v, frames);
    FailureLosesNothing(v, frames);
    assert Readable(frames[0]);
    hide Readable;
    hide FrameOf;
    hide RxCall;
    hide Unread;
    hide Concat;
    hide NextFits;
    if gotSkb {
      assert FramesOf(frames[..1]) == [FrameOf(frames[0])];
      assert Payloads([FrameOf(frames[0])]) == FrameOf(frames[0]).len;
    } else {
      assert frames[0..] == frames;
    }
  }

  lemma NextCallDrains(v: View, frames: seq<seq<u32>>, k: nat, t: View, gotSkb: bool)
    requires Drained(v, frames, k, t) && k < |frames|
    ensures NextFits(t) && Drained(v, frames, if gotSkb then k + 1 else k, RxCall(t, gotSkb))
  {
    DrainedHolds(v, frames, k, t);
    CallDrains(t, frames[k..], gotSkb);
    DrainedTwice(v, frames, k, t, if gotSkb then 1 else 0, RxCall(t, gotSkb));
  }

  /**
   * Whatever calls fail to allocate, the frames in the FIFO are delivered in order, one for each successful call and
   * none lost, duplicated or torn, and the receiver ends at the boundary after the last delivered frame.
   */
  lemma {:induction false} StreamDelivery(v: View, frames: seq<seq<u32>>, schedule: seq<bool>)
    requires Holds(v, frames) && Supplied(frames, schedule)
    ensures Drained(v, frames, Successes(schedule), RxCalls(v, schedule))
    decreases |schedule|
  {
    hide Drained;
    hide Holds;
    hide RxCall;
    if schedule == [] {
      StartsDrained(v, frames);
    } else {
      var t := RxCall(v, schedule[0]);
      var k := if schedule[0] then 1 else 0;
      CallDrains(v, frames, schedule[0]);
      DrainedHolds(v, frames, k, t);
      assert frames[k..] == if schedule[0] then frames[1..] else frames;
      StreamDelivery(t, frames[k..], schedule[1..]);
      DrainedTwice(v, frames, k, t, Successes(schedule[1..]), RxCalls(t, schedule[1..]));
    }
  }

  // ---------------------------------------------------------------- remote frames announcing data

  /** How many words of the next frame the reader takes with this one. */
  function Overread(words: seq<u32>): nat
    requires |words| > 0
  {
    var taken := 1 + RxTaken(FfwOf(words[0]));
    if taken < |words| then 0 else taken - |words|
  }

  lemma OverreadRange(words: seq<u32>)
    requires FromCore(words)
    ensures |words| <= 1 + RxTaken(FfwOf(words[0]))
    ensures Overread(words) <= 2 && (Overread(words) == 0 <==> Readable(words))
  {
    hide FfwOf;
    TakesItsWords(words);
  }

  lemma AfterOverread(words: seq<u32>, rest: seq<u32>)
    requires FromCore(words)
    ensures After(words[1..] + rest, RxTaken(FfwOf(words[0]))) == After(rest, Overread(words))
  {
    OverreadRange(words);
    hide FfwOf;
    hide RxTaken;
    hide FromCore;
  }

  /** Where a successful call leaves the FIFO, whatever frame it read. */
  lemma LeftBehind(v: View, words: seq<u32>, behind: seq<u32>)
    requires FromCore(words) && Unread(v) == words + behind
    ensures var t := RxCall(v, true); !t.buffered && Unread(t) == After(behind, Overread(words))
  {
    assert Unread(v)[0] == words[0];
    assert Unread(v)[1..] == words[1..] + behind;
    AfterOverread(words, behind);
    hide FfwOf;
    hide FromCore;
    hide RxTaken;
    hide RxFrame;
    hide Overread;
  }

  /**
   * That every frame must be readable is also necessary: after a frame that is not, with another one behind it, the
   * next call starts one or two words into that other frame. With none behind it, the FIFO is merely empty.
   */
  lemma StaysAtBoundary(v: View, frames: seq<seq<u32>>)
    requires frames != [] && Unread(v) == Concat(frames) && forall i :: 0 <= i < |frames| ==> FromCore(frames[i])
    ensures var t := RxCall(v, true);
      !t.buffered &&
      (Unread(t) == Concat(frames[1..]) <==> Readable(frames[0]) || |frames| == 1) &&
      (!Readable(frames[0]) && |frames| > 1 ==>
        1 <= Overread(frames[0]) <= 2 && Unread(t) == After(frames[1], Overread(frames[0])) + Concat(frames[2..]))
  {
    hide *;
    var words, behind := frames[0], Concat(frames[1..]);
    FirstOf(frames);
    LeftBehind(v, words, behind);
    OverreadRange(words);
    if |frames| == 1 {
      NoneBehind(frames[1..], Overread(words));
    } else {
      FirstOf(frames[1..]);
      assert frames[1..][1..] == frames[2..];
      MidFrame(frames[1], Concat(frames[2..]), Overread(words));
    }
  }

  lemma FirstOf(frames: seq<seq<u32>>)
    requires frames != [] && FromCore(frames[0])
    ensures Concat(frames) == frames[0] + Concat(frames[1..]) && 4 <= |frames[0]|
  {
  }

  lemma NoneBehind(frames: seq<seq<u32>>, n: nat)
    requires frames == []
    ensures After(Concat(frames), n) == Concat(frames)
  {
  }

  lemma MidFrame(next: seq<u32>, behind: seq<u32>, n: nat)
    requires n <= 2 && 4 <= |next|
    ensures After(next + behind, n) == After(next, n) + behind
    ensures After(next + behind, n) == next + behind <==> n == 0
  {
    assert |After(next + behind, n)| == |next + behind| - n;
  }
}
