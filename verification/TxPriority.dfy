/** The packed TX_PRIORITY word and its rotation (ctucan_rotate_txb_prio). */
module TxPriority {

  /** txb_prio as ctucan_chip_start writes it. */
  const INITIAL_PRIORITY: bv32 := 0x01234567

  /** Buffer counts for which `ntxbufs - 1` is a usable mask of an 8-nibble word. */
  predicate MaskableCount(n: nat) {
    n == 1 || n == 2 || n == 4 || n == 8
  }

  /** The buffer that frame number `q` uses: q masked with n - 1, that is q modulo n. */
  function Slot(n: nat, q: nat): (i: nat)
    requires MaskableCount(n)
    ensures i < n && i < 8
  {
    if q < n then q else Slot(n, q - n)
  }

  /** word >> 4*i, by cases on the shift amount. */
  function Down(word: bv32, i: nat): bv32
    requires i < 8
  {
    if i == 0 then word
    else if i == 1 then word >> 4
    else if i == 2 then word >> 8
    else if i == 3 then word >> 12
    else if i == 4 then word >> 16
    else if i == 5 then word >> 20
    else if i == 6 then word >> 24
    else word >> 28
  }

  function Nibble(word: bv32, i: nat): bv32
    requires i < 8
  {
    Down(word, i) & 0xF
  }

  /** Shift up by one nibble and put the low nibble of `r` at the bottom. */
  function ShiftIn(word: bv32, r: bv32): bv32 {
    (word << 4) | (r & 0xF)
  }

  /** The 3-bit priority field the core reads for buffer `i`; bit 3 of each nibble is reserved. */
  function PriorityOf(word: bv32, i: nat): bv32
    requires i < 8
  {
    Nibble(word, i) & 0x7
  }

  function Rotate(word: bv32, n: nat): bv32
    requires MaskableCount(n)
  {
    ShiftIn(word, Down(word, n - 1))
  }

  /** The priority word after `k` rotations. */
  function Rotated(n: nat, k: nat): bv32
    requires MaskableCount(n)
  {
    if k == 0 then INITIAL_PRIORITY else Rotate(Rotated(n, k - 1), n)
  }

  /** The priority of the buffer `j` places past the oldest one: 7 - j. */
  function Rank(j: nat): bv32
    requires j < 8
  {
    if j == 0 then 7 else if j == 1 then 6 else if j == 2 then 5 else if j == 3 then 4
    else if j == 4 then 3 else if j == 5 then 2 else if j == 6 then 1 else 0
  }

  lemma ShiftedUp(w: bv32, r: bv32, i: nat)
    requires 0 < i < 8
    ensures Nibble(ShiftIn(w, r), i) == Nibble(w, i - 1)
  {
  }

  lemma ShiftedIn(w: bv32, r: bv32)
    ensures Nibble(ShiftIn(w, r), 0) == r & 0xF
  {
  }

  /** Rotation is a cyclic shift of the low `n` nibbles: no bit above nibble n-1 leaks back into them. */
  lemma RotateIsCyclic(w: bv32, n: nat, i: nat)
    requires MaskableCount(n) && i < n
    ensures Nibble(Rotate(w, n), if i == n - 1 then 0 else i + 1) == Nibble(w, i)
  {
    if i == n - 1 {
      ShiftedIn(w, Down(w, n - 1));
    } else {
      ShiftedUp(w, Down(w, n - 1), i + 1);
    }
  }

  /** Bit-wise and of two unsigned numbers, bit by bit from the lowest. */
  function BitAnd(a: nat, b: nat): nat {
    if a == 0 || b == 0 then 0 else a % 2 * (b % 2) + 2 * BitAnd(a / 2, b / 2)
  }

  /** A mask of one more set bit adds the lowest bit. */
  lemma MaskStep(q: nat, m: nat)
    requires m >= 1
    ensures BitAnd(q, 2 * m - 1) == q % 2 + 2 * BitAnd(q / 2, m - 1)
  {
    assert (2 * m - 1) % 2 == 1 && (2 * m - 1) / 2 == m - 1;
  }

  lemma {:induction false} MaskKeeps(n: nat, q: nat)
    requires MaskableCount(n) && q < n
    ensures BitAnd(q, n - 1) == q
  {
    if n == 1 {
    } else {
      MaskStep(q, n / 2);
      MaskKeeps(n / 2, q / 2);
    }
  }

  lemma {:induction false} MaskIsPeriodic(n: nat, q: nat)
    requires MaskableCount(n)
    ensures BitAnd(q + n, n - 1) == BitAnd(q, n - 1)
  {
    if n == 1 {
    } else {
      var m := n / 2;
      MaskStep(q, m);
      MaskStep(q + n, m);
      MaskIsPeriodic(m, q / 2);
      assert (q + n) / 2 == q / 2 + m;
    }
  }

  /** The slot is the index the driver computes: the counter and txb_mask, which is the buffer count less one. */
  lemma {:induction false} SlotIsMasked(n: nat, q: nat)
    requires MaskableCount(n)
    ensures Slot(n, q) == BitAnd(q, n - 1)
    decreases q
  {
    hide BitAnd;
    if q < n {
      MaskKeeps(n, q);
    } else {
      SlotIsMasked(n, q - n);
      MaskIsPeriodic(n, q - n);
    }
  }

  lemma {:induction false} SlotIsPeriodic(n: nat, q: nat, m: nat)
    requires MaskableCount(n)
    ensures Slot(n, q + n * m) == Slot(n, q)
  {
    if m == 0 {
    } else {
      SlotIsPeriodic(n, q, m - 1);
      assert q + n * m == q + n * (m - 1) + n;
    }
  }

  lemma {:induction false} NextSlot(n: nat, q: nat)
    requires MaskableCount(n)
    ensures Slot(n, q + 1) == if Slot(n, q) == n - 1 then 0 else Slot(n, q) + 1
  {
    if q < n {
    } else {
      NextSlot(n, q - n);
    }
  }

  /** Frame numbers less than `n` apart never share a buffer. */
  lemma {:induction false} DistinctSlots(n: nat, p: nat, q: nat)
    requires MaskableCount(n) && p < q < p + n
    ensures Slot(n, p) != Slot(n, q)
  {
    if p < n {
    } else {
      DistinctSlots(n, p - n, q - n);
    }
  }

  lemma InitialRanks(j: nat)
    requires j < 8
    ensures Nibble(INITIAL_PRIORITY, j) == Rank(j)
  {
  }

  /** After any number of rotations the buffer `j` places past the oldest one holds 7 - j. */
  lemma {:induction false} RotationInvariant(n: nat, k: nat, j: nat)
    requires MaskableCount(n) && j < n
    ensures Nibble(Rotated(n, k), Slot(n, k + j)) == Rank(j)
  {
    if k == 0 {
      InitialRanks(j);
    } else {
      RotationInvariant(n, k - 1, j);
      NextSlot(n, k - 1 + j);
      RotateIsCyclic(Rotated(n, k - 1), n, Slot(n, k - 1 + j));
    }
  }

  lemma RankedAt(n: nat, k: nat, q: nat)
    requires MaskableCount(n) && k <= q < k + n
    ensures PriorityOf(Rotated(n, k), Slot(n, q)) == Rank(q - k) & 0x7
  {
    RotationInvariant(n, k, q - k);
  }

  /** The word written after `k` rotations ranks the `n` buffers from number `k` on in strictly decreasing priority. */
  lemma StrictRanking(n: nat, k: nat, p: nat, q: nat)
    requires MaskableCount(n) && k <= p < q < k + n
    ensures PriorityOf(Rotated(n, k), Slot(n, q)) < PriorityOf(Rotated(n, k), Slot(n, p))
  {
    RankedAt(n, k, p);
    RankedAt(n, k, q);
    RankOrder(p - k, q - k);
  }

  lemma RankOrder(a: nat, b: nat)
    requires a < b < 8
    ensures Rank(b) & 0x7 < Rank(a) & 0x7
  {
  }
}
