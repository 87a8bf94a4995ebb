/** Frame words of the TXT buffers and the RX FIFO (driver/ctu_can_fd_frame.h), and the conversions of ctu_can_fd_hw.c. */
module FrameCodec {
  import opened Words
  import opened Division

  // ---------------------------------------------------------------- data length codes

  const DLC_TO_LEN: seq<nat> := [0, 1, 2, 3, 4, 5, 6, 7, 8, 12, 16, 20, 24, 32, 48, 64]

  /** can_dlc2len. */
  function DlcToLen(dlc: nat): nat {
    DLC_TO_LEN[dlc % 16]
  }

  /** can_len2dlc: the table in the code, run by run. */
  function LenToDlc(len: nat): (dlc: nat)
    ensures dlc < 16
  {
    if len > 64 then 15
    else if len <= 8 then len
    else if len <= 12 then 9
    else if len <= 16 then 10
    else if len <= 20 then 11
    else if len <= 24 then 12
    else if len <= 32 then 13
    else if len <= 48 then 14
    else 15
  }

  predicate Representable(len: nat) {
    len <= 8 || len == 12 || len == 16 || len == 20 || len == 24 || len == 32 || len == 48 || len == 64
  }

  /**
   * The code is the smallest one whose length holds `len`, or the largest if none does; lengths survive the round trip
   * exactly when representable.
   */
  lemma DlcRoundUp(len: nat)
    ensures if len <= 64 then len <= DlcToLen(LenToDlc(len)) else DlcToLen(LenToDlc(len)) == 64
    ensures forall d :: 0 <= d < LenToDlc(len) ==> DlcToLen(d) < len
    ensures DlcToLen(LenToDlc(len)) == len <==> Representable(len)
  {
    assert forall d :: 0 <= d < 16 ==> d % 16 == d;
  }

  lemma DlcRoundTrip(dlc: nat)
    requires dlc < 16
    ensures LenToDlc(DlcToLen(dlc)) == dlc
  {
    assert dlc % 16 == dlc;
  }

  // ---------------------------------------------------------------- identifiers

  const EFF_FLAG: int := 0x8000_0000
  const RTR_FLAG: int := 0x4000_0000

  predicate IsExtended(id: u32) { id / 0x8000_0000 == 1 }
  predicate IsRtr(id: u32) { id / 0x4000_0000 % 2 == 1 }

  /** ctu_can_fd_id_to_hwid: 11 base bits at bit 18, 18 extension bits below. */
  function IdToHwid(id: u32): u32 {
    if IsExtended(id) then id % 0x2000_0000 / 0x4_0000 * 0x4_0000 + id % 0x4_0000
    else id % 0x800 * 0x4_0000
  }

  /** ctu_can_fd_hwid_to_id: flags already in `id` survive for extended frames and are overwritten for base frames. */
  function HwidToId(hwid: u32, id: u32, extended: bool): u32 {
    var base := hwid / 0x4_0000 % 0x800;
    if extended then id / 0x2000_0000 % 4 * 0x2000_0000 + EFF_FLAG + base * 0x4_0000 + hwid % 0x4_0000
    else base
  }

  /** A data or remote frame identifier with no bits outside its format. */
  predicate IdInRange(id: u32) {
    var plain := if IsRtr(id) then id - RTR_FLAG else id;
    if IsExtended(id) then plain < EFF_FLAG + 0x2000_0000 else plain < 0x800
  }

  lemma ExtendedRoundTrip(x: nat, rtr: nat)
    requires x < 0x2000_0000 && rtr <= 1
    ensures var id := EFF_FLAG + rtr * RTR_FLAG + x;
      IsExtended(id) && (IsRtr(id) <==> rtr == 1) && IdToHwid(id) == x && HwidToId(x, rtr * RTR_FLAG, true) == id
  {
    var id := EFF_FLAG + rtr * RTR_FLAG + x;
    var base, ext := x / 0x4_0000, x % 0x4_0000;
    ExactQuotient(id, 0x8000_0000, 1, rtr * RTR_FLAG + x);
    ExactQuotient(id, 0x4000_0000, 2 + rtr, x);
    ExactQuotient(id, 0x2000_0000, 4 + 2 * rtr, x);
    ExactQuotient(id, 0x4_0000, 0x2000 + 0x1000 * rtr + base, ext);
    ExactQuotient(rtr * RTR_FLAG, 0x2000_0000, 2 * rtr, 0);
  }

  lemma BaseRoundTrip(x: nat, rtr: nat)
    requires x < 0x800 && rtr <= 1
    ensures var id := rtr * RTR_FLAG + x;
      !IsExtended(id) && (IsRtr(id) <==> rtr == 1) && IdToHwid(id) == x * 0x4_0000 &&
      HwidToId(x * 0x4_0000, rtr * RTR_FLAG, false) == x
  {
    var id := rtr * RTR_FLAG + x;
    ExactQuotient(id, 0x8000_0000, 0, id);
    ExactQuotient(id, 0x4000_0000, rtr, x);
    ExactQuotient(id, 0x800, 0x8_0000 * rtr, x);
    ExactQuotient(x * 0x4_0000, 0x4_0000, x, 0);
  }

  /** Reading an identifier back loses exactly the RTR flag of base-format frames. */
  lemma IdRoundTrip(id: u32)
    requires IdInRange(id)
    ensures var seed := if IsRtr(id) then RTR_FLAG else 0;
      HwidToId(IdToHwid(id), seed, IsExtended(id)) == id <==> !(IsRtr(id) && !IsExtended(id))
  {
    var rtr := if IsRtr(id) then 1 else 0;
    if IsExtended(id) {
      ExtendedRoundTrip(id - EFF_FLAG - rtr * RTR_FLAG, rtr);
    } else {
      BaseRoundTrip(id - rtr * RTR_FLAG, rtr);
    }
  }

  /** A remote frame with base identifier 0x123 comes back as a data frame. */
  lemma BaseRemoteFlagLost()
    ensures var id := RTR_FLAG + 0x123;
      IdInRange(id) && IsRtr(id) && HwidToId(IdToHwid(id), RTR_FLAG, IsExtended(id)) == 0x123
  {
    BaseRoundTrip(0x123, 1);
  }

  // ---------------------------------------------------------------- FRAME_FORM_W

  datatype Ffw = Ffw(dlc: nat, rtr: bool, ide: bool, fdf: bool, tbf: bool, brs: bool, esi: bool, rwcnt: nat)

  predicate FfwFits(f: Ffw) { f.dlc < 16 && f.rwcnt < 32 }

  function Bit(b: bool): (n: nat)
    ensures n <= 1
  {
    if b then 1 else 0
  }

  function FfwWord(f: Ffw): (w: u32)
    requires FfwFits(f)
  {
    f.dlc + 0x20 * Bit(f.rtr) + 0x40 * Bit(f.ide) + 0x80 * Bit(f.fdf) + 0x100 * Bit(f.tbf) + 0x200 * Bit(f.brs) +
    0x400 * Bit(f.esi) + 0x800 * f.rwcnt
  }

  /** The bitfield of `size` values at weight `unit`. */
  function Field(w: nat, unit: nat, size: nat): (v: nat)
    requires 0 < unit && 0 < size
    ensures v < size
  {
    w / unit % size
  }

  predicate Flag(w: nat, unit: nat)
    requires 0 < unit
  {
    Field(w, unit, 2) == 1
  }

  function FfwOf(w: u32): (f: Ffw)
    ensures FfwFits(f)
  {
    Ffw(Field(w, 1, 16), Flag(w, 0x20), Flag(w, 0x40), Flag(w, 0x80), Flag(w, 0x100), Flag(w, 0x200), Flag(w, 0x400),
        Field(w, 0x800, 32))
  }

  /** A field that holds `v` between the bits `low` below it and `high` above it reads back as `v`. */
  lemma FieldHolds(w: nat, unit: nat, size: nat, low: nat, v: nat, high: nat)
    requires low < unit && v < size && w == low + unit * (v + size * high)
    ensures Field(w, unit, size) == v
  {
    ExactQuotient(w, unit, v + size * high, low);
    ExactQuotient(v + size * high, size, high, v);
  }

  lemma FfwRoundTrip(f: Ffw)
    requires FfwFits(f)
    ensures FfwOf(FfwWord(f)) == f
  {
    var w := FfwWord(f);
    var g := Bit(f.esi) + 2 * f.rwcnt;
    var e := Bit(f.brs) + 2 * g;
    var d := Bit(f.tbf) + 2 * e;
    var c := Bit(f.fdf) + 2 * d;
    var b := Bit(f.ide) + 2 * c;
    hide Field;
    hide Bit;
    FieldHolds(w, 1, 16, 0, f.dlc, 2 * (Bit(f.rtr) + 2 * b));
    FieldHolds(w, 0x20, 2, f.dlc, Bit(f.rtr), b);
    var low := f.dlc + 0x20 * Bit(f.rtr);
    FieldHolds(w, 0x40, 2, low, Bit(f.ide), c);
    low := low + 0x40 * Bit(f.ide);
    FieldHolds(w, 0x80, 2, low, Bit(f.fdf), d);
    low := low + 0x80 * Bit(f.fdf);
    FieldHolds(w, 0x100, 2, low, Bit(f.tbf), e);
    low := low + 0x100 * Bit(f.tbf);
    FieldHolds(w, 0x200, 2, low, Bit(f.brs), g);
    low := low + 0x200 * Bit(f.brs);
    FieldHolds(w, 0x400, 2, low, Bit(f.esi), f.rwcnt);
    low := low + 0x400 * Bit(f.esi);
    FieldHolds(w, 0x800, 32, low, f.rwcnt, 0);
    BitIsOne(f.rtr); BitIsOne(f.ide); BitIsOne(f.fdf); BitIsOne(f.tbf); BitIsOne(f.brs); BitIsOne(f.esi);
  }

  lemma BitIsOne(b: bool)
    ensures Bit(b) == 1 <==> b
  {
  }

  // ---------------------------------------------------------------- payload

  /** struct canfd_frame; `data` is the whole 64-byte array. */
  datatype CanFrame = CanFrame(canId: u32, len: nat, brs: bool, esi: bool, data: seq<byte>)

  predicate ValidFrame(f: CanFrame) {
    f.len <= 64 && |f.data| == 64
  }

  function WordCount(len: nat): nat {
    (len + 3) / 4
  }

  /** The word loop runs once for each word. */
  lemma WordCountReached(len: nat, k: nat)
    ensures 4 * k < len <==> k < WordCount(len)
    ensures len <= 64 ==> WordCount(len) <= 16
  {
  }

  /** *(u32 *)(data + i) on a little-endian machine. */
  function WordAt(data: seq<byte>, i: nat): u32
    requires i + 4 <= |data|
  {
    var a: int, b: int, c: int, d: int := data[i], data[i + 1], data[i + 2], data[i + 3];
    a + 0x100 * b + 0x1_0000 * c + 0x100_0000 * d
  }

  function ByteOf(w: u32, j: nat): byte {
    if j == 0 then Field(w, 1, 0x100)
    else if j == 1 then Field(w, 0x100, 0x100)
    else if j == 2 then Field(w, 0x1_0000, 0x100)
    else Field(w, 0x100_0000, 0x100)
  }

  lemma BytesOfWord(data: seq<byte>, i: nat)
    requires i + 4 <= |data|
    ensures forall j :: 0 <= j < 4 ==> ByteOf(WordAt(data, i), j) == data[i + j]
  {
    var w := WordAt(data, i);
    var a: int, b: int, c: int, d: int := data[i], data[i + 1], data[i + 2], data[i + 3];
    hide Field;
    FieldHolds(w, 1, 0x100, 0, a, b + 0x100 * (c + 0x100 * d));
    FieldHolds(w, 0x100, 0x100, a, b, c + 0x100 * d);
    FieldHolds(w, 0x1_0000, 0x100, a + 0x100 * b, c, d);
    FieldHolds(w, 0x100_0000, 0x100, a + 0x100 * b + 0x1_0000 * c, d, 0);
  }

  // ---------------------------------------------------------------- ctu_can_fd_insert_frame

  /** FRAME_FORM_W as insert_frame fills it; RWCNT has no meaning in a TXT buffer. */
  function TxFfw(f: CanFrame, fdf: bool): (w: Ffw)
    ensures FfwFits(w)
  {
    Ffw(LenToDlc(f.len), IsRtr(f.canId), IsExtended(f.canId), fdf, true, fdf && f.brs, false, 0)
  }

  function DataWords(f: CanFrame): (ws: seq<u32>)
    requires ValidFrame(f)
    ensures |ws| == if IsRtr(f.canId) then 0 else WordCount(f.len)
  {
    if IsRtr(f.canId) then [] else seq(WordCount(f.len), i requires 0 <= i < WordCount(f.len) => WordAt(f.data, 4 * i))
  }

  function HeaderWords(f: CanFrame, ts: nat, fdf: bool): (ws: seq<u32>)
    requires ts < TWO_32 * TWO_32
    ensures |ws| == 4
  {
    [FfwWord(TxFfw(f, fdf)), IdToHwid(f.canId), ts % TWO_32, ts / TWO_32]
  }

  /** The words of a frame in a TXT buffer. */
  function Encoded(f: CanFrame, ts: nat, fdf: bool): seq<u32>
    requires ValidFrame(f) && ts < TWO_32 * TWO_32
  {
    HeaderWords(f, ts, fdf) + DataWords(f)
  }

  /**
   * What the words of a TXT buffer say, bit by bit as driver/ctu_can_fd_frame.h lays them out: DLC at bit 0, RTR at 5,
   * IDE at 6, FDF at 7, TBF at 8, BRS at 9, ESI at 10; the base identifier at bit 18 above its extension.
   */
  predicate Carries(w: seq<u32>, f: CanFrame, ts: nat, fdf: bool)
    requires |w| == 20 && ValidFrame(f)
  {
    Field(w[0], 1, 16) == LenToDlc(f.len) &&
    (Flag(w[0], 0x20) <==> IsRtr(f.canId)) && (Flag(w[0], 0x40) <==> IsExtended(f.canId)) &&
    (Flag(w[0], 0x80) <==> fdf) && Flag(w[0], 0x100) && (Flag(w[0], 0x200) <==> fdf && f.brs) && !Flag(w[0], 0x400) &&
    w[1] == (if IsExtended(f.canId) then f.canId % 0x2000_0000 else f.canId % 0x800 * 0x4_0000) &&
    ts == w[2] + TWO_32 * w[3] &&
    (!IsRtr(f.canId) ==> forall i :: 0 <= i < f.len ==> ByteOf(w[4 + i / 4], i % 4) == f.data[i])
  }

  lemma HeaderCarries(f: CanFrame, ts: nat, fdf: bool)
    requires ts < TWO_32 * TWO_32
    ensures var h := HeaderWords(f, ts, fdf);
      FfwOf(h[0]) == TxFfw(f, fdf) && ts == h[2] + TWO_32 * h[3] &&
      h[1] == if IsExtended(f.canId) then f.canId % 0x2000_0000 else f.canId % 0x800 * 0x4_0000
  {
    hide FfwOf;
    hide FfwWord;
    FfwRoundTrip(TxFfw(f, fdf));
    var x := f.canId % 0x2000_0000;
    QuotientBounds(x, 0x4_0000);
    ExtensionBits(f.canId);
    hide IsExtended;
    hide IsRtr;
    hide LenToDlc;
    QuotientBounds(ts, TWO_32);
  }

  lemma ExtensionBits(id: u32)
    ensures id % 0x2000_0000 / 0x4_0000 * 0x4_0000 + id % 0x4_0000 == id % 0x2000_0000
  {
    var q, x := id / 0x2000_0000, id % 0x2000_0000;
    var b, e := x / 0x4_0000, x % 0x4_0000;
    ExactQuotient(id, 0x4_0000, 0x800 * q + b, e);
  }

  lemma DataCarried(f: CanFrame, i: nat)
    requires ValidFrame(f) && !IsRtr(f.canId) && i < f.len
    ensures ByteOf(DataWords(f)[i / 4], i % 4) == f.data[i]
  {
    hide IsRtr;
    hide ByteOf;
    hide WordAt;
    BytesOfWord(f.data, i / 4 * 4);
  }

  /** The words of a frame carry it, whatever follows them in the buffer. */
  lemma EncodedCarries(f: CanFrame, ts: nat, fdf: bool, w: seq<u32>)
    requires ValidFrame(f) && ts < TWO_32 * TWO_32 && |w| == 20 && Encoded(f, ts, fdf) <= w
    ensures Carries(w, f, ts, fdf)
  {
    HeaderCarries(f, ts, fdf);
    WordsOf(f, ts, fdf, w);
    assert FfwOf(w[0]) == TxFfw(f, fdf);
    hide HeaderWords;
    hide DataWords;
    hide Encoded;
    hide IsRtr;
    hide IsExtended;
    hide LenToDlc;
    hide Field;
    hide ByteOf;
    if !IsRtr(f.canId) {
      forall i | 0 <= i < f.len
        ensures ByteOf(w[4 + i / 4], i % 4) == f.data[i]
      {
        WordCountReached(f.len, i / 4);
        DataCarried(f, i);
      }
    }
  }

  lemma WordsOf(f: CanFrame, ts: nat, fdf: bool, w: seq<u32>)
    requires ValidFrame(f) && ts < TWO_32 * TWO_32 && |w| == 20 && Encoded(f, ts, fdf) <= w
    ensures forall j :: 0 <= j < 4 ==> w[j] == HeaderWords(f, ts, fdf)[j]
    ensures forall j :: 0 <= j < |DataWords(f)| ==> w[4 + j] == DataWords(f)[j]
  {
    hide HeaderWords;
    hide DataWords;
    PrefixParts(HeaderWords(f, ts, fdf), DataWords(f), w);
  }

  lemma PrefixParts(a: seq<u32>, b: seq<u32>, w: seq<u32>)
    requires a + b <= w
    ensures forall j :: 0 <= j < |a| ==> w[j] == a[j]
    ensures forall j :: 0 <= j < |b| ==> w[|a| + j] == b[j]
  {
    forall j | 0 <= j < |b|
      ensures w[|a| + j] == b[j]
    {
      assert (a + b)[|a| + j] == b[j];
    }
  }

  /** CTU_CAN_FD_TXT_BUFFER_COUNT. */
  const TXT_BUFFER_COUNT: nat := 4

  /**
   * ctu_can_fd_insert_frame into `ram`, the 20 words of TXT buffer `buf`: refuses a buffer that does not exist or is
   * inaccessible and changes nothing, otherwise writes exactly the words of the frame and leaves the rest of the RAM
   * alone.
   */
  method InsertFrame(ram: array<u32>, buf: nat, accessible: bool, f: CanFrame, ts: nat, fdf: bool) returns (ok: bool)
    requires ram.Length == 20 && ValidFrame(f) && ts < TWO_32 * TWO_32
    modifies ram
    ensures ok <==> buf < 4 && accessible
    ensures !ok ==> ram[..] == old(ram[..])
    ensures ok ==> Carries(ram[..], f, ts, fdf)
    ensures ok ==> Encoded(f, ts, fdf) <= ram[..] && ram[|Encoded(f, ts, fdf)|..] == old(ram[|Encoded(f, ts, fdf)|..])
  {
    hide FfwWord;
    hide IdToHwid;
    hide WordAt;
    hide WordCount;
    hide IsRtr;
    if buf >= TXT_BUFFER_COUNT {
      return false;
    }
    if !accessible {
      return false;
    }
    ram[0] := FfwWord(TxFfw(f, fdf));
    ram[1] := IdToHwid(f.canId);
    ram[2] := ts % TWO_32;
    ram[3] := ts / TWO_32;
    if !IsRtr(f.canId) {
      WriteData(ram, f);
    }
    assert forall j :: 0 <= j < |Encoded(f, ts, fdf)| ==> ram[j] == Encoded(f, ts, fdf)[j];
    EncodedCarries(f, ts, fdf, ram[..]);
    hide Carries;
    ok := true;
  }

  /** The data loop of ctu_can_fd_insert_frame. */
  method WriteData(ram: array<u32>, f: CanFrame)
    requires ram.Length == 20 && ValidFrame(f) && !IsRtr(f.canId)
    modifies ram
    ensures |DataWords(f)| <= 16 && forall j :: 0 <= j < |DataWords(f)| ==> ram[4 + j] == DataWords(f)[j]
    ensures forall j :: 0 <= j < 4 || 4 + |DataWords(f)| <= j < 20 ==> ram[j] == old(ram[j])
  {
    hide WordAt;
    hide WordCount;
    hide IsRtr;
    var i := 0;
    ghost var k := 0;
    WordCountReached(f.len, 0);
    while i < f.len
      invariant i == 4 * k && k <= WordCount(f.len) <= 16 && (i < f.len <==> k < WordCount(f.len))
      invariant forall j :: 0 <= j < k ==> ram[4 + j] == DataWords(f)[j]
      invariant forall j :: 0 <= j < 4 || 4 + k <= j < 20 ==> ram[j] == old(ram[j])
    {
      ram[4 + i / 4] := WordAt(f.data, i);
      i := i + 4;
      k := k + 1;
      WordCountReached(f.len, k);
    }
  }

  // ---------------------------------------------------------------- reception

  /** Payload bytes of a received frame, from its data length code. */
  function Payload(w: Ffw): nat {
    if w.rtr && !w.fdf then 0
    else if w.fdf then DlcToLen(w.dlc)
    else if w.dlc <= 8 then w.dlc else 8
  }

  /** What the core stores for a frame: RWCNT counts the words after FRAME_FORM_W. */
  predicate FromCore(words: seq<u32>) {
    |words| >= 4 && FfwOf(words[0]).rwcnt == |words| - 1 == 3 + WordCount(Payload(FfwOf(words[0])))
  }

  /** A frame on its way through the bus: the header of the TXT buffer with RWCNT set, no data for remote frames. */
  function OnReceive(f: CanFrame, ts: nat, fdf: bool): seq<u32>
    requires ValidFrame(f) && ts < TWO_32 * TWO_32 && Representable(f.len)
  {
    var sent := Encoded(f, ts, fdf);
    [FfwWord(TxFfw(f, fdf).(rwcnt := |sent| - 1))] + sent[1..]
  }

  /** cf->len as ctu_can_fd_read_rx_frame_ffw computes it in 8 bits. */
  function RxLen(w: Ffw): nat {
    if w.dlc <= 8 then w.dlc
    else if w.fdf then (w.rwcnt - 3) * 4 % 256
    else 8
  }

  /** Reading RX_DATA word `i` ahead; an empty FIFO reads as zero. */
  function Ahead(fifo: seq<u32>, i: nat): u32 {
    if i < |fifo| then fifo[i] else 0
  }

  function After(fifo: seq<u32>, i: nat): seq<u32> {
    if i <= |fifo| then fifo[i..] else []
  }

  function RxId(w: Ffw, idw: u32): u32 {
    HwidToId(idw, if !w.fdf && w.rtr then RTR_FLAG else 0, w.ide)
  }

  /** The 64-byte data array after reading `len` payload bytes a word at a time into zeroed memory. */
  function RxData(fifo: seq<u32>, len: nat): (d: seq<byte>)
    ensures |d| == 64
  {
    seq(64, i requires 0 <= i < 64 => if i < 4 * WordCount(len) then ByteOf(Ahead(fifo, i / 4), i % 4) else 0)
  }

  /** The frame and timestamp read after FRAME_FORM_W `w`. */
  function RxFrame(w: Ffw, fifo: seq<u32>): CanFrame {
    CanFrame(RxId(w, Ahead(fifo, 0)), RxLen(w), w.fdf && w.brs, w.fdf && w.esi, RxData(After(fifo, 3), RxLen(w)))
  }

  function RxStamp(fifo: seq<u32>): nat {
    Ahead(fifo, 1) + TWO_32 * Ahead(fifo, 2)
  }

  /** How many words ctu_can_fd_read_rx_frame_ffw takes from the FIFO. */
  function RxTaken(w: Ffw): nat {
    3 + WordCount(RxLen(w))
  }

  /** The reader takes exactly the words of the frame, except that it reads data for remote frames too. */
  lemma TakesItsWords(words: seq<u32>)
    requires FromCore(words)
    ensures RxLen(FfwOf(words[0])) <= 64
    ensures 1 + RxTaken(FfwOf(words[0])) == |words| <==>
              !(FfwOf(words[0]).rtr && !FfwOf(words[0]).fdf && FfwOf(words[0]).dlc > 0)
  {
    hide FfwOf;
    var w := FfwOf(words[0]);
    assert w.dlc % 16 == w.dlc;
  }

  /** A remote frame that announces 8 bytes is stored as four words, and the reader takes six. */
  lemma RemoteFrameOverread(words: seq<u32>)
    requires |words| == 4 && words[0] == FfwWord(Ffw(8, true, false, false, true, false, false, 3))
    ensures FromCore(words) && 1 + RxTaken(FfwOf(words[0])) == 6
  {
    hide FfwOf;
    hide FfwWord;
    FfwRoundTrip(Ffw(8, true, false, false, true, false, false, 3));
  }

  lemma BaseAndExtension(idw: u32)
    ensures idw / 0x4_0000 % 0x800 * 0x4_0000 + idw % 0x4_0000 == idw % 0x2000_0000
  {
    var q, e := idw / 0x4_0000, idw % 0x4_0000;
    var h, b := q / 0x800, q % 0x800;
    ExactQuotient(idw, 0x2000_0000, h, b * 0x4_0000 + e);
  }

  /** What the reader makes of the words the core stores, bit by bit: identifier, flags and length. */
  lemma DeliveredHeader(words: seq<u32>, rest: seq<u32>)
    requires FromCore(words)
    ensures var w := words[0];
      var got := RxFrame(FfwOf(w), words[1..] + rest);
      var dlc := Field(w, 1, 16);
      (got.brs <==> Flag(w, 0x80) && Flag(w, 0x200)) && (got.esi <==> Flag(w, 0x80) && Flag(w, 0x400)) &&
      got.len == (if dlc <= 8 then dlc else if Flag(w, 0x80) then DLC_TO_LEN[dlc] else 8) &&
      got.canId == (if Flag(w, 0x40)
                    then 0x8000_0000 + (if Flag(w, 0x20) && !Flag(w, 0x80) then 0x4000_0000 else 0) +
                         words[1] % 0x2000_0000
                    else words[1] / 0x4_0000 % 0x800) &&
      RxStamp(words[1..] + rest) == words[2] + TWO_32 * words[3]
  {
    hide Field;
    hide RxData;
    BaseAndExtension(words[1]);
    assert Ahead(words[1..] + rest, 0) == words[1];
    LengthFromCore(FfwOf(words[0]), |words|);
  }

  lemma LengthFromCore(w: Ffw, n: nat)
    requires FfwFits(w) && w.rwcnt == n - 1 == 3 + WordCount(Payload(w))
    ensures RxLen(w) == if w.dlc <= 8 then w.dlc else if w.fdf then DLC_TO_LEN[w.dlc] else 8
  {
    assert w.dlc % 16 == w.dlc;
  }

  /** And the payload: byte `i` of the frame is byte `i` of the words behind the timestamp, lowest byte first. */
  lemma DeliveredData(words: seq<u32>, rest: seq<u32>, i: nat)
    requires FromCore(words) && i < RxLen(FfwOf(words[0])) && !(FfwOf(words[0]).rtr && !FfwOf(words[0]).fdf)
    ensures i < 64 && 4 + i / 4 < |words|
    ensures RxFrame(FfwOf(words[0]), words[1..] + rest).data[i] == ByteOf(words[4 + i / 4], i % 4)
  {
    var w, fifo := FfwOf(words[0]), words[1..] + rest;
    TakesItsWords(words);
    hide FfwOf;
    hide ByteOf;
    hide HwidToId;
    hide RxLen;
    hide FromCore;
    WordCountReached(RxLen(w), i / 4);
    assert Ahead(After(fifo, 3), i / 4) == words[4 + i / 4];
  }

  lemma ReceivedFfw(f: CanFrame, ts: nat, fdf: bool)
    requires ValidFrame(f) && ts < TWO_32 * TWO_32 && Representable(f.len)
    ensures |OnReceive(f, ts, fdf)| == 4 + |DataWords(f)| <= 20
    ensures FfwOf(OnReceive(f, ts, fdf)[0]) == TxFfw(f, fdf).(rwcnt := 3 + |DataWords(f)|)
  {
    hide FfwOf;
    hide FfwWord;
    hide IdToHwid;
    hide LenToDlc;
    hide IsRtr;
    hide IsExtended;
    FfwRoundTrip(TxFfw(f, fdf).(rwcnt := 3 + |DataWords(f)|));
  }

  /** A length that has a code comes back from its code, and from its number of words when it is longer than 8. */
  lemma LengthComesBack(len: nat)
    requires Representable(len)
    ensures var dlc := LenToDlc(len);
      DlcToLen(dlc) == len <= 64 && (dlc <= 8 <==> len <= 8) && (dlc <= 8 ==> dlc == len)
    ensures len > 8 ==> 4 * WordCount(len) == len
  {
    DlcRoundUp(len);
  }

  lemma ReceivedIsFromCore(f: CanFrame, ts: nat, fdf: bool)
    requires ValidFrame(f) && ts < TWO_32 * TWO_32 && Representable(f.len)
    requires (!fdf ==> f.len <= 8) && (IsRtr(f.canId) ==> !fdf)
    ensures FromCore(OnReceive(f, ts, fdf)) && RxLen(FfwOf(OnReceive(f, ts, fdf)[0])) == f.len
  {
    hide FfwOf;
    hide OnReceive;
    hide IsRtr;
    hide IsExtended;
    hide LenToDlc;
    hide DlcToLen;
    ReceivedFfw(f, ts, fdf);
    LengthComesBack(f.len);
    hide WordCount;
    hide Representable;
  }

  lemma DataReadBack(f: CanFrame, fifo: seq<u32>)
    requires ValidFrame(f) && !IsRtr(f.canId)
    requires DataWords(f) <= fifo
    ensures RxData(fifo, f.len)[..f.len] == f.data[..f.len]
  {
    hide ByteOf;
    hide WordAt;
    forall i | 0 <= i < f.len
      ensures RxData(fifo, f.len)[i] == f.data[i]
    {
      var k := i / 4;
      assert Ahead(fifo, k) == DataWords(f)[k] == WordAt(f.data, 4 * k);
      BytesOfWord(f.data, 4 * k);
    }
  }

  /**
   * Writing a frame with insert_frame and reading it back from the RX FIFO, whatever follows it there: length, bit
   * rate switch, timestamp and payload always come back; the identifier does exactly unless the frame is a remote
   * frame in base format; and the reader stops at the end of the frame exactly unless it is a remote frame that
   * announces data.
   */
  lemma FrameRoundTrip(f: CanFrame, ts: nat, fdf: bool, rest: seq<u32>)
    requires ValidFrame(f) && ts < TWO_32 * TWO_32 && Representable(f.len) && IdInRange(f.canId)
    requires (!fdf ==> f.len <= 8) && (IsRtr(f.canId) ==> !fdf)
    ensures var words := OnReceive(f, ts, fdf);
      var w := FfwOf(words[0]);
      var got := RxFrame(w, words[1..] + rest);
      FromCore(words) && got.len == f.len && got.brs == (fdf && f.brs) && !got.esi &&
      RxStamp(words[1..] + rest) == ts &&
      (got.canId == f.canId <==> !(IsRtr(f.canId) && !IsExtended(f.canId))) &&
      (!IsRtr(f.canId) ==> got.data[..f.len] == f.data[..f.len]) &&
      (RxTaken(w) == |words| - 1 <==> !(IsRtr(f.canId) && f.len > 0))
  {
    hide FfwOf;
    hide FfwWord;
    hide IdToHwid;
    hide HwidToId;
    hide IsRtr;
    hide IsExtended;
    hide IdInRange;
    hide RxData;
    hide WordAt;
    ReceivedFfw(f, ts, fdf);
    ReceivedIsFromCore(f, ts, fdf);
    var words := OnReceive(f, ts, fdf);
    TakesItsWords(words);
    hide FromCore;
    var fifo := words[1..] + rest;
    assert fifo[0] == IdToHwid(f.canId) && fifo[1] == ts % TWO_32 && fifo[2] == ts / TWO_32;
    assert DataWords(f) <= After(fifo, 3);
    hide DataWords;
    hide Encoded;
    IdRoundTrip(f.canId);
    if !IsRtr(f.canId) {
      DataReadBack(f, After(fifo, 3));
    }
  }
}
