/** ctu_can_fd_read_timestamp against a 64-bit counter that keeps counting between the register reads. */
module Timestamp {
  import opened Words
  import opened Division

  const TWO_64: int := 0x1_0000_0000_0000_0000

  /** TIMESTAMP_LOW and TIMESTAMP_HIGH when the counter has made `count` ticks since reset; the counter wraps at 2^64. */
  function Low(count: nat): u32 {
    count % TWO_32
  }

  function High(count: nat): u32 {
    count / TWO_32 % TWO_32
  }

  /** The value the driver puts together. */
  function Joined(high: u32, low: u32): nat {
    high * TWO_32 + low
  }

  lemma JoinedIsCount(count: nat)
    ensures Joined(High(count), Low(count)) == count % TWO_64
  {
    var h := count / TWO_32;
    var m := h / TWO_32;
    QuotientBounds(count, TWO_32);
    ExactQuotient(count, TWO_64, m, h % TWO_32 * TWO_32 + count % TWO_32);
  }

  /** What the driver returns when its four reads happen at counts c1 to c4. */
  function Result(c1: nat, c2: nat, c3: nat, c4: nat): nat {
    Joined(High(c3), if High(c1) != High(c3) then Low(c4) else Low(c2))
  }

  /** The upper word moves by at most one over less than 2^32 + 1 ticks. */
  lemma UpperMoves(a: nat, b: nat)
    requires a <= b <= a + TWO_32
    ensures a / TWO_32 <= b / TWO_32 <= a / TWO_32 + 1
  {
  }

  lemma SameHigh(a: nat, b: nat)
    requires a / TWO_32 <= b / TWO_32 <= a / TWO_32 + 1
    ensures High(a) == High(b) <==> a / TWO_32 == b / TWO_32
  {
  }

  /**
   * If the counter advances by at most 2^32 from the first read to the last, the result is the exact counter value at
   * the moment of the low read that was used: no torn value, also across a wrap of either word.
   */
  lemma NotTorn(c1: nat, c2: nat, c3: nat, c4: nat)
    requires c1 <= c2 <= c3 <= c4 <= c1 + TWO_32
    ensures Result(c1, c2, c3, c4) == (if High(c1) == High(c3) then c2 else c4) % TWO_64
  {
    UpperMoves(c1, c2);
    UpperMoves(c1, c3);
    UpperMoves(c1, c4);
    UpperMoves(c2, c3);
    UpperMoves(c3, c4);
    SameHigh(c1, c3);
    JoinedIsCount(c2);
    JoinedIsCount(c4);
  }

  /** One tick more and a torn value is possible: it matches the counter at none of the reads. */
  lemma TornBeyond()
    ensures var c1, c2, c3, c4 := TWO_32 - 1, TWO_32 - 1, TWO_32 + 7, 2 * TWO_32;
      c1 <= c2 <= c3 <= c4 == c1 + TWO_32 + 1 && Result(c1, c2, c3, c4) !in {c1, c2, c3, c4}
  {
  }

  /** The timestamp counter of the core. */
  class Counter {
    /** Ticks since reset. */
    var count: nat

    constructor (start: nat)
      ensures count == start
    {
      count := start;
    }

    /** Time passes between two register accesses. */
    method Tick()
      modifies this
      ensures count >= old(count)
    {
      var ticks: nat :| ticks >= 0;
      count := count + ticks;
    }

    /** ctu_can_fd_read_timestamp; the ghost results are the counts at its reads. */
    method ReadTimestamp() returns (ts: nat, ghost c1: nat, ghost c2: nat, ghost c3: nat, ghost c4: nat)
      modifies this
      ensures old(count) <= c1 <= c2 <= c3 <= c4 <= count
      ensures c4 <= c1 + TWO_32 ==> ts == c2 % TWO_64 || ts == c4 % TWO_64
    {
      Tick();
      c1 := count;
      var high := High(count);
      Tick();
      c2 := count;
      var low := Low(count);
      Tick();
      c3 := count;
      var high2 := High(count);
      c4 := count;
      if high != high2 {
        Tick();
        c4 := count;
        low := Low(count);
      }
      ts := Joined(high2, low);
      if c4 <= c1 + TWO_32 {
        NotTorn(c1, c2, c3, c4);
      }
    }
  }
}
