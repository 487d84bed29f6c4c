/** The page checksum of src/dimserver/storage/buffer/page.h: a table-driven CRC-32.

    The reference is the bit-serial division of section 8 of RFC 1952: one message bit per step, least
    significant bit of each byte first.  `Page.CalcChecksum` runs the table-driven loops of the source
    and is proved to compute that division; burst detection is then proved about the division, for any
    data length.
 */
module PageChecksum {
  import opened ShiftRegister

  const BP_PAGE_SIZE := 8192
  const PAGE_HEADER_SIZE := 32
  const BP_PAGE_DATA_SIZE: nat := BP_PAGE_SIZE - PAGE_HEADER_SIZE
  const BP_INVALID_PAGE_NUM := -1

  // ---------- The reference: division of a bit stream ----------

  /** One step of the reflected register. */
  function BitStep(c: bv32): bv32 {
    if c & 1 == 1 then 0xEDB88320 ^ (c >> 1) else c >> 1
  }

  function Xor(a: bv32, b: bv32): bv32 {
    a ^ b
  }

  function Shift(x: bv32): bv32 {
    x << 1
  }

  predicate TopClear(x: bv32) {
    x & 0x8000_0000 == 0
  }

  /** The CRC-32 register. */
  const CRC := Register(BitStep, Xor, Shift, 0, 1, TopClear)

  function ByteBits(d: bv8): seq<bool> {
    [d & 1 != 0, d & 2 != 0, d & 4 != 0, d & 8 != 0, d & 16 != 0, d & 32 != 0, d & 64 != 0, d & 128 != 0]
  }

  function Bits(data: seq<bv8>): seq<bool> {
    Expand(ByteBits, data)
  }

  /** CRC-32 of section 8 of RFC 1952. */
  function Crc32(data: seq<bv8>): bv32 {
    !CRC.Feed(0xFFFF_FFFF, Bits(data))
  }

  // ---------- Single-step facts ----------

  lemma XorFacts(x: bv32, y: bv32, p: bv32)
    ensures (p ^ x) ^ (p ^ y) == x ^ y
    ensures (p ^ x) ^ y == p ^ (x ^ y)
    ensures x ^ (p ^ y) == p ^ (x ^ y)
  {
  }

  lemma LowBitXor(a: bv32, b: bv32)
    ensures (a ^ b) >> 1 == (a >> 1) ^ (b >> 1)
    ensures (a ^ b) & 1 == (a & 1) ^ (b & 1)
    ensures a & 1 == 1 || a & 1 == 0
  {
  }

  lemma BitStepLinear(a: bv32, b: bv32)
    ensures BitStep(a ^ b) == BitStep(a) ^ BitStep(b)
  {
    LowBitXor(a, b);
    LowBitXor(b, a);
    XorFacts(a >> 1, b >> 1, 0xEDB88320);
  }

  lemma BitStepAdditive()
    ensures Additive(BitStep, Xor)
  {
    forall a, b ensures BitStep(Xor(a, b)) == Xor(BitStep(a), BitStep(b)) {
      BitStepLinear(a, b);
    }
  }

  lemma StepToZero(x: bv32)
    ensures BitStep(x) == 0 ==> x == 0
  {
  }

  lemma XorZero(a: bv32, b: bv32)
    ensures a ^ b == 0 <==> a == b
  {
  }

  /** The step is a bijection: the top bit of the polynomial tells which branch was taken. */
  lemma StepReversible()
    ensures CRC.Reversible()
  {
    forall a, b | BitStep(a) == BitStep(b) ensures a == b {
      BitStepLinear(a, b);
      StepToZero(a ^ b);
      XorZero(a, b);
      XorZero(BitStep(a), BitStep(b));
    }
  }

  lemma XorNothing(s: bv32)
    ensures Xor(s, 0) == s
  {
  }

  lemma XorCancel(s: bv32, t: bv32, w: bv32)
    ensures Xor(s, w) == Xor(t, w) ==> s == t
    ensures Xor(w, s) == Xor(w, t) ==> s == t
  {
  }

  lemma XorIsAddition()
    ensures CRC.Unit() && CRC.Cancels()
  {
    forall x ensures Xor(x, 0) == x {
      XorNothing(x);
    }
    forall x, y, z ensures Xor(x, z) == Xor(y, z) ==> x == y {
      XorCancel(x, y, z);
    }
    forall x, y, z ensures Xor(x, y) == Xor(x, z) ==> y == z {
      XorCancel(y, z, x);
    }
  }

  lemma EvenStep(x: bv32)
    requires TopClear(x)
    ensures BitStep(Shift(x)) == x
  {
  }

  lemma XorAssoc(a: bv32, b: bv32, c: bv32)
    ensures Xor(a, Xor(b, c)) == Xor(Xor(a, c), b)
  {
  }

  lemma WordShiftsOut()
    ensures CRC.ShiftsOut()
  {
    forall s, x, m | TopClear(x) ensures BitStep(Xor(s, Xor(Shift(x), m))) == Xor(BitStep(Xor(s, m)), x) {
      OneShift(s, x, m);
    }
  }

  lemma OneShift(s: bv32, x: bv32, m: bv32)
    requires TopClear(x)
    ensures BitStep(Xor(s, Xor(Shift(x), m))) == Xor(BitStep(Xor(s, m)), x)
  {
    XorAssoc(s, Shift(x), m);
    BitStepAdditive();
    assert BitStep(Xor(Xor(s, m), Shift(x))) == Xor(BitStep(Xor(s, m)), BitStep(Shift(x)));
    EvenStep(x);
  }

  lemma PushInjective(x: bv32, y: bv32, m: bv32, n: bv32)
    requires TopClear(x) && TopClear(y) && (m == 0 || m == 1) && (n == 0 || n == 1)
    requires Xor(Shift(x), m) == Xor(Shift(y), n)
    ensures x == y && m == n
  {
  }

  lemma WordPushes()
    ensures CRC.Pushes()
  {
    forall x, y, m, n | TopClear(x) && TopClear(y) && m in {CRC.zero, CRC.one} && n in {CRC.zero, CRC.one}
         && Xor(Shift(x), m) == Xor(Shift(y), n)
      ensures x == y && m == n
    {
      PushInjective(x, y, m, n);
    }
  }

  // ---------- Words of at most 32 bits fit the register ----------

  function Grow(m: bv32): bv32 {
    (m << 1) | 1
  }

  /** n ones at the bottom. */
  function Mask(n: nat): bv32 {
    Iterate(Grow, 0, n)
  }

  predicate Within(x: bv32, m: bv32) {
    x & m == x
  }

  lemma PushWithin(x: bv32, m: bv32)
    requires Within(x, m)
    ensures Within(Xor(Shift(x), 0), Grow(m)) && Within(Xor(Shift(x), 1), Grow(m))
  {
  }

  lemma GrowNested(m: bv32)
    requires Within(m, Grow(m))
    ensures Within(Grow(m), Grow(Grow(m)))
  {
  }

  lemma {:induction false} MaskNested(n: nat)
    ensures Within(Mask(n), Grow(Mask(n)))
  {
    if n > 0 {
      MaskNested(n - 1);
      GrowNested(Mask(n - 1));
    }
  }

  lemma WithinTop(m: bv32, w: bv32)
    requires Within(m, w) && TopClear(w)
    ensures TopClear(m)
  {
  }

  lemma MaskValue()
    ensures Mask(31) == 0x7FFF_FFFF
  {
    IterateTimes(Grow, 0, 8, 8);
    IterateTimes(Grow, 0, 16, 8);
    IterateTimes(Grow, 0, 24, 7);
    IterateEight(Grow, 0);
    IterateEight(Grow, 0xFF);
    IterateEight(Grow, 0xFFFF);
    assert Mask(24) == 0xFF_FFFF;
    IterateInner(Grow, 0xFF_FFFF, 7);
    IterateEight(Grow, 0xFF_FFFF);
    assert Grow(Mask(31)) == 0xFFFF_FFFF;
  }

  lemma {:induction false} IterateTimes<G>(f: G -> G, c: G, m: nat, n: nat)
    ensures Iterate(f, c, m + n) == Iterate(f, Iterate(f, c, m), n)
  {
    if n > 0 {
      IterateTimes(f, c, m, n - 1);
    }
  }

  lemma {:induction false} MaskTop(n: nat)
    requires n <= 31
    ensures TopClear(Mask(n))
    decreases 31 - n
  {
    if n == 31 {
      MaskValue();
    } else {
      MaskNested(n);
      MaskTop(n + 1);
      WithinTop(Mask(n), Mask(n + 1));
    }
  }

  /** Fewer than 32 bits leave the top bit of the word clear. */
  lemma WordHolds(width: nat)
    requires width <= 32
    ensures CRC.Holds(width)
  {
    forall x, m | Within(x, m)
      ensures Within(Xor(Shift(x), 0), Grow(m)) && Within(Xor(Shift(x), 1), Grow(m))
    {
      PushWithin(x, m);
    }
    forall b: seq<bool> | |b| < width ensures TopClear(CRC.Collect(b)) {
      CollectRelated(CRC, Grow, Within, b);
      MaskTop(|b|);
      WithinTop(CRC.Collect(b), Mask(|b|));
    }
  }

  // ---------- Burst detection ----------

  lemma ByteBitsInjective()
    ensures forall x, y :: ByteBits(x) == ByteBits(y) ==> x == y
    ensures forall x :: |ByteBits(x)| == 8
  {
    forall a, b | ByteBits(a) == ByteBits(b) ensures a == b {
      var x, y := ByteBits(a), ByteBits(b);
      assert x[0] == y[0] && x[1] == y[1] && x[2] == y[2] && x[3] == y[3];
      assert x[4] == y[4] && x[5] == y[5] && x[6] == y[6] && x[7] == y[7];
    }
  }

  lemma Complement(a: bv32, b: bv32)
    requires !a == !b
    ensures a == b
  {
    assert !!a == a;
  }

  lemma BurstInStream(x: seq<bool>, y: seq<bool>, lo: nat, hi: nat)
    requires lo <= hi <= |x| == |y| && hi - lo <= 32
    requires x[..lo] == y[..lo] && x[hi..] == y[hi..] && x != y
    ensures CRC.Feed(0xFFFF_FFFF, x) != CRC.Feed(0xFFFF_FFFF, y)
  {
    assert x == x[..lo] + x[lo..hi] + x[hi..];
    assert y == x[..lo] + y[lo..hi] + x[hi..];
    XorIsAddition();
    StepReversible();
    WordShiftsOut();
    WordPushes();
    WordHolds(hi - lo);
    BurstSeparates(CRC, 0xFFFF_FFFF, x[..lo], x[lo..hi], y[lo..hi], x[hi..]);
  }

  /** Any change confined to 32 consecutive bits, at any bit position, changes the checksum. */
  lemma BurstChangesChecksum(a: seq<bv8>, b: seq<bv8>, k: nat)
    requires |a| == |b| && a != b
    requires |Bits(a)| == |Bits(b)|
    requires forall i :: 0 <= i < |Bits(a)| && !(k <= i < k + 32) ==> Bits(a)[i] == Bits(b)[i]
    ensures Crc32(a) != Crc32(b)
  {
    var x, y := Bits(a), Bits(b);
    var lo := if k < |x| then k else |x|;
    var hi := if k + 32 < |x| then k + 32 else |x|;
    if x == y {
      ByteBitsInjective();
      ExpandInjective(ByteBits, 8, a, b);
    }
    BurstInStream(x, y, lo, hi);
    if Crc32(a) == Crc32(b) {
      Complement(CRC.Feed(0xFFFF_FFFF, x), CRC.Feed(0xFFFF_FFFF, y));
    }
  }

  /** Any change confined to four consecutive bytes changes the checksum. */
  lemma FourByteChangeDetected(a: seq<bv8>, b: seq<bv8>, k: nat)
    requires |a| == |b| && a != b
    requires forall i :: 0 <= i < |a| && !(k <= i < k + 4) ==> a[i] == b[i]
    ensures Crc32(a) != Crc32(b)
  {
    var lo := if k < |a| then k else |a|;
    var hi := if k + 4 < |a| then k + 4 else |a|;
    assert a[..lo] == b[..lo] && a[hi..] == b[hi..];
    ByteBitsInjective();
    ExpandWindow(ByteBits, a, b, lo, hi);
    if Bits(a) == Bits(b) {
      ExpandInjective(ByteBits, 8, a, b);
    }
    BurstInStream(Bits(a), Bits(b), 8 * lo, 8 * hi);
    if Crc32(a) == Crc32(b) {
      Complement(CRC.Feed(0xFFFF_FFFF, Bits(a)), CRC.Feed(0xFFFF_FFFF, Bits(b)));
    }
  }

  // ---------- The table-driven form ----------

  function TableEntry(i: bv32): bv32 {
    Iterate(BitStep, i, 8)
  }

  /** `data[i]` is a signed char: it is widened with its sign before it is mixed in. */
  function SignExtend(d: bv8): bv32 {
    if d & 0x80 != 0 then 0xFFFF_FF00 | (d as bv32) else d as bv32
  }

  function TableIndex(crc: bv32, d: bv8): bv8 {
    ((crc ^ SignExtend(d)) & 0xFF) as bv8
  }

  lemma IndexIgnoresSign(crc: bv32, d: bv8)
    ensures TableIndex(crc, d) as bv32 == Xor(crc, d as bv32) & 0xFF
    ensures Xor(crc, d as bv32) >> 8 == crc >> 8
  {
  }

  lemma ShiftOutEven(c: bv32)
    ensures BitStep(c & 0xFFFF_FF00) == (c >> 1) & 0xFFFF_FF80
    ensures BitStep((c >> 1) & 0xFFFF_FF80) == (c >> 2) & 0xFFFF_FFC0
    ensures BitStep((c >> 2) & 0xFFFF_FFC0) == (c >> 3) & 0xFFFF_FFE0
    ensures BitStep((c >> 3) & 0xFFFF_FFE0) == (c >> 4) & 0xFFFF_FFF0
  {
  }

  lemma ShiftOutEvenMore(c: bv32)
    ensures BitStep((c >> 4) & 0xFFFF_FFF0) == (c >> 5) & 0xFFFF_FFF8
    ensures BitStep((c >> 5) & 0xFFFF_FFF8) == (c >> 6) & 0xFFFF_FFFC
    ensures BitStep((c >> 6) & 0xFFFF_FFFC) == (c >> 7) & 0xFFFF_FFFE
    ensures BitStep((c >> 7) & 0xFFFF_FFFE) == c >> 8
  {
  }

  /** The high 24 bits of the register only move down during eight steps. */
  lemma HighBitsShift(c: bv32)
    ensures Iterate(BitStep, c & 0xFFFF_FF00, 8) == c >> 8
  {
    IterateEight(BitStep, c & 0xFFFF_FF00);
    ShiftOutEven(c);
    ShiftOutEvenMore(c);
  }

  lemma SplitByte(c: bv32)
    ensures Xor(c & 0xFF, c & 0xFFFF_FF00) == c
  {
  }

  /** One lookup step equals eight division steps on the register with the byte mixed in. */
  lemma TableStep(c: bv32)
    ensures Xor(TableEntry(c & 0xFF), c >> 8) == Iterate(BitStep, c, 8)
  {
    SplitByte(c);
    BitStepAdditive();
    IterateAdditive(BitStep, Xor, c & 0xFF, c & 0xFFFF_FF00, 8);
    HighBitsShift(c);
  }

  lemma HalfDouble(w: bv32)
    ensures w & 1 == 0 ==> ((w >> 1) << 1) ^ 0 == w
    ensures w & 1 != 0 ==> ((w >> 1) << 1) ^ 1 == w
  {
  }

  lemma ShiftInBit(w: bv32)
    ensures Xor(Shift(w >> 1), CRC.Bit(w & 1 != 0)) == w
  {
    HalfDouble(w);
    if w & 1 != 0 {
      assert CRC.Bit(true) == 1;
    } else {
      assert CRC.Bit(false) == 0;
    }
  }

  lemma BitAt(d: bv8)
    ensures (d & 1 != 0) == ((d as bv32) & 1 != 0)
    ensures (d & 2 != 0) == (((d as bv32) >> 1) & 1 != 0)
    ensures (d & 4 != 0) == (((d as bv32) >> 2) & 1 != 0)
    ensures (d & 8 != 0) == (((d as bv32) >> 3) & 1 != 0)
    ensures (d & 16 != 0) == (((d as bv32) >> 4) & 1 != 0)
    ensures (d & 32 != 0) == (((d as bv32) >> 5) & 1 != 0)
    ensures (d & 64 != 0) == (((d as bv32) >> 6) & 1 != 0)
    ensures (d & 128 != 0) == (((d as bv32) >> 7) & 1 != 0)
  {
  }

  lemma ShiftChain(w: bv32)
    ensures (w >> 1) >> 1 == w >> 2 && (w >> 2) >> 1 == w >> 3 && (w >> 3) >> 1 == w >> 4 && (w >> 4) >> 1 == w >> 5
    ensures (w >> 5) >> 1 == w >> 6 && (w >> 6) >> 1 == w >> 7 && (w >> 7) >> 1 == w >> 8
    ensures w <= 0xFF ==> w >> 8 == 0
  {
  }

  lemma ByteFits(d: bv8)
    ensures d as bv32 <= 0xFF
  {
  }

  /** The word collected from a byte's bits is the byte. */
  lemma CollectByte(d: bv8)
    ensures CRC.Collect(ByteBits(d)) == d as bv32
  {
    var w := d as bv32;
    CollectEight(CRC, w & 1 != 0, (w >> 1) & 1 != 0, (w >> 2) & 1 != 0, (w >> 3) & 1 != 0,
                 (w >> 4) & 1 != 0, (w >> 5) & 1 != 0, (w >> 6) & 1 != 0, (w >> 7) & 1 != 0);
    BitAt(d);
    ByteFits(d);
    ShiftChain(w);
    ShiftInBit(w);
    ShiftInBit(w >> 1);
    ShiftInBit(w >> 2);
    ShiftInBit(w >> 3);
    ShiftInBit(w >> 4);
    ShiftInBit(w >> 5);
    ShiftInBit(w >> 6);
    ShiftInBit(w >> 7);
  }

  /** The register update of the source's byte loop. */
  function TableUpdate(crc: bv32, d: bv8): bv32 {
    Xor(TableEntry(TableIndex(crc, d) as bv32), crc >> 8)
  }

  lemma FeedByte(crc: bv32, d: bv8)
    ensures CRC.Feed(crc, ByteBits(d)) == Iterate(BitStep, Xor(crc, d as bv32), 8)
  {
    XorIsAddition();
    WordShiftsOut();
    WordHolds(8);
    FeedWord(CRC, crc, ByteBits(d));
    CollectByte(d);
  }

  /** The source's update of the register by one byte is eight steps of the bit-serial division. */
  lemma TableUpdateIsSerial(crc: bv32, d: bv8)
    ensures TableUpdate(crc, d) == CRC.Feed(crc, ByteBits(d))
  {
    FeedByte(crc, d);
    IndexIgnoresSign(crc, d);
    TableStep(Xor(crc, d as bv32));
  }

  predicate TableReady(t: seq<bv32>) {
    |t| == 256 && forall k :: 0 <= k < 256 ==> t[k] == TableEntry((k as bv8) as bv32)
  }

  lemma ByteRoundTrip(b: bv8)
    ensures (b as int) as bv8 == b
  {
  }

  /** The inner loop of the table build: eight steps on the index. */
  method EntryFor(i: bv32) returns (c: bv32)
    ensures c == TableEntry(i)
  {
    c := i;
    var j := 0;
    while j < 8
      invariant 0 <= j <= 8
      invariant c == Iterate(BitStep, i, j)
    {
      c := if c & 1 == 1 then 0xEDB88320 ^ (c >> 1) else c >> 1;
      j := j + 1;
    }
  }

  /** The function-local statics of `calc_checksum`, shared by all pages. */
  class CrcTable {
    const entries: array<bv32>
    var initialized: bool

    ghost predicate Valid()
      reads this, entries
    {
      entries.Length == 256 && (initialized ==> TableReady(entries[..]))
    }

    constructor ()
      ensures Valid() && fresh(entries) && !initialized
    {
      entries := new bv32[256];
      initialized := false;
    }

    method Initialize()
      requires Valid()
      modifies this, entries
      ensures Valid() && initialized
    {
      if !initialized {
        var i := 0;
        while i < 256
          invariant 0 <= i <= 256 && !initialized
          invariant forall k :: 0 <= k < i ==> entries[k] == TableEntry((k as bv8) as bv32)
        {
          var c := EntryFor((i as bv8) as bv32);
          entries[i] := c;
          i := i + 1;
        }
        initialized := true;
      }
    }
  }

  lemma TableAt(table: seq<bv32>, b: bv8)
    ensures TableReady(table) ==> table[b as int] == TableEntry(b as bv32)
  {
    ByteRoundTrip(b);
  }

  lemma LookUpStep(table: seq<bv32>, crc: bv32, d: bv8)
    ensures TableReady(table) ==>
              Xor(table[TableIndex(crc, d) as int], crc >> 8) == CRC.Feed(crc, ByteBits(d))
  {
    hide TableEntry, TableIndex, Xor;
    if TableReady(table) {
      TableUpdateIsSerial(crc, d);
      TableAt(table, TableIndex(crc, d));
    }
  }

  /** What one turn of the byte loop has to establish. */
  lemma NextRegister(data: seq<bv8>, i: nat, crc: bv32, table: seq<bv32>)
    requires i < |data| && crc == CRC.Feed(0xFFFF_FFFF, Bits(data[..i]))
    ensures TableReady(table) ==>
              CRC.Feed(0xFFFF_FFFF, Bits(data[..i + 1])) == Xor(table[TableIndex(crc, data[i]) as int], crc >> 8)
  {
    assert data[..i + 1] == data[..i] + [data[i]];
    FeedOneMore(data[..i], data[i]);
    LookUpStep(table, crc, data[i]);
  }

  class Page {
    var pageNum: int
    var lsn: int
    var checkSum: bv32
    var freeSpace: int
    var freeSpaceOffset: int
    var slotCount: int
    var pageType: bv8
    var flags: bv8
    var lastTrxId: int
    const data: array<bv8>

    ghost predicate Valid() {
      data.Length == BP_PAGE_DATA_SIZE
    }

    constructor ()
      ensures Valid() && fresh(data)
    {
      data := new bv8[BP_PAGE_DATA_SIZE];
    }

    method Init()
      requires Valid()
      modifies this, data
      ensures pageNum == -1 && lsn == 0 && checkSum == 0
      ensures freeSpace == data.Length == 8160 && freeSpaceOffset == 0 && slotCount == 0
      ensures pageType == 0 && flags == 0 && lastTrxId == 0
      ensures forall i :: 0 <= i < data.Length ==> data[i] == 0
    {
      pageNum, lsn, checkSum := BP_INVALID_PAGE_NUM, 0, 0;
      freeSpace, freeSpaceOffset, slotCount := BP_PAGE_DATA_SIZE, 0, 0;
      pageType, flags, lastTrxId := 0, 0, 0;
      forall i | 0 <= i < data.Length {
        data[i] := 0;
      }
    }

    /** The table-driven loop stores the CRC-32 of the data and touches nothing else of the page. */
    method CalcChecksum(t: CrcTable)
      requires Valid() && t.Valid()
      modifies this`checkSum, t, t.entries
      ensures t.Valid() && t.initialized
      ensures checkSum == Crc32(data[..])
    {
      t.Initialize();
      var crc := 0xFFFF_FFFF;
      var i := 0;
      while i < data.Length
        invariant 0 <= i <= data.Length
        invariant t.Valid() && t.initialized
        invariant crc == CRC.Feed(0xFFFF_FFFF, Bits(data[..][..i]))
      {
        NextRegister(data[..], i, crc, t.entries[..]);
        var idx := TableIndex(crc, data[i]) as int;
        crc := Xor(t.entries[idx], crc >> 8);
        i := i + 1;
      }
      assert data[..][..i] == data[..];
      checkSum := !crc;
    }

    /** Verification recomputes the checksum in place, compares, and puts the stored one back. */
    method VerifyChecksum(t: CrcTable) returns (valid: bool)
      requires Valid() && t.Valid()
      modifies this`checkSum, t, t.entries
      ensures t.Valid()
      ensures checkSum == old(checkSum)
      ensures valid <==> checkSum == Crc32(data[..])
    {
      var oldChecksum := checkSum;
      CalcChecksum(t);
      valid := oldChecksum == checkSum;
      checkSum := oldChecksum;
    }
  }

  lemma FeedOneMore(front: seq<bv8>, d: bv8)
    ensures CRC.Feed(0xFFFF_FFFF, Bits(front + [d])) == CRC.Feed(CRC.Feed(0xFFFF_FFFF, Bits(front)), ByteBits(d))
  {
    ExpandConcat(ByteBits, front, [d]);
    assert Expand(ByteBits, [d]) == ByteBits(d) + [] == ByteBits(d);
    FeedConcat(CRC, 0xFFFF_FFFF, Bits(front), ByteBits(d));
  }

  // ---------- The checksum the double-write loader uses ----------

  /** One 4-byte step of `crc32` in src/dimserver/common/math/crc.cpp: all four bytes go through the
      table for the last byte. */
  function WordUpdate(crc: bv32, word: bv32): bv32 {
    var tmp := word ^ crc;
    Xor(Xor(TableEntry((tmp >> 24) & 0xFF), TableEntry((tmp >> 16) & 0xFF)),
        Xor(TableEntry((tmp >> 8) & 0xFF), TableEntry(tmp & 0xFF)))
  }

  function WordLoop(crc: bv32, words: seq<bv32>): bv32
    decreases |words|
  {
    if words == [] then crc else WordLoop(WordUpdate(crc, words[0]), words[1..])
  }

  /** `crc32` on an aligned buffer whose length is a multiple of four. */
  function LoaderCrc32(words: seq<bv32>): bv32 {
    WordLoop(0xFFFF_FFFF, words) ^ 0xFFFF_FFFF
  }

  // ---------- What that checksum keeps of a page ----------

  /** The four bytes of a word, combined by xor. */
  function Fold(t: bv32): bv32 {
    (((t >> 24) & 0xFF) ^ ((t >> 16) & 0xFF)) ^ (((t >> 8) & 0xFF) ^ (t & 0xFF))
  }

  /** The four bytes at a word, the first one lowest. */
  function Word(a: bv8, b: bv8, c: bv8, d: bv8): bv32 {
    (a as bv32) | ((b as bv32) << 8) | ((c as bv32) << 16) | ((d as bv32) << 24)
  }

  /** Aligned data as the word loop reads it. */
  function Words(data: seq<bv8>): seq<bv32>
    requires |data| % 4 == 0
    decreases |data|
  {
    if data == [] then [] else [Word(data[0], data[1], data[2], data[3])] + Words(data[4..])
  }

  /** The one byte that the word loop carries from word to word: all that it looks at in a word is the xor
      of its bytes. */
  function Key(crc: bv32, words: seq<bv32>): bv32
    requires words != []
    decreases |words|
  {
    var k := Xor(Fold(words[0]), Fold(crc));
    if |words| == 1 then k else Key(TableEntry(k), words[1..])
  }

  lemma FoldAdditive(a: bv32, b: bv32)
    ensures Fold(a ^ b) == Xor(Fold(a), Fold(b))
  {
    ShiftsAdditive(a, b);
    XorSwap((a >> 24) & 0xFF, (a >> 16) & 0xFF, (b >> 24) & 0xFF, (b >> 16) & 0xFF);
    XorSwap((a >> 8) & 0xFF, a & 0xFF, (b >> 8) & 0xFF, b & 0xFF);
    XorSwap(((a >> 24) & 0xFF) ^ ((a >> 16) & 0xFF), ((a >> 8) & 0xFF) ^ (a & 0xFF),
            ((b >> 24) & 0xFF) ^ ((b >> 16) & 0xFF), ((b >> 8) & 0xFF) ^ (b & 0xFF));
  }

  lemma ShiftsAdditive(a: bv32, b: bv32)
    ensures ((a ^ b) >> 24) & 0xFF == ((a >> 24) & 0xFF) ^ ((b >> 24) & 0xFF)
    ensures ((a ^ b) >> 16) & 0xFF == ((a >> 16) & 0xFF) ^ ((b >> 16) & 0xFF)
    ensures ((a ^ b) >> 8) & 0xFF == ((a >> 8) & 0xFF) ^ ((b >> 8) & 0xFF)
    ensures (a ^ b) & 0xFF == (a & 0xFF) ^ (b & 0xFF)
  {
  }

  lemma XorSwap(a: bv32, b: bv32, c: bv32, d: bv32)
    ensures (a ^ c) ^ (b ^ d) == (a ^ b) ^ (c ^ d)
  {
  }

  lemma FoldIsByte(t: bv32)
    ensures Fold(t) & 0xFF == Fold(t)
  {
  }

  lemma TableAdditive(a: bv32, b: bv32)
    ensures Xor(TableEntry(a), TableEntry(b)) == TableEntry(Xor(a, b))
  {
    BitStepAdditive();
    IterateAdditive(BitStep, Xor, a, b, 8);
  }

  lemma FourLookups(a: bv32, b: bv32, c: bv32, d: bv32)
    ensures Xor(Xor(TableEntry(a), TableEntry(b)), Xor(TableEntry(c), TableEntry(d)))
            == TableEntry(Xor(Xor(a, b), Xor(c, d)))
  {
    hide TableEntry, Xor;
    TableAdditive(a, b);
    TableAdditive(c, d);
    TableAdditive(Xor(a, b), Xor(c, d));
  }

  lemma FoldParts(t: bv32)
    ensures Fold(t) == Xor(Xor((t >> 24) & 0xFF, (t >> 16) & 0xFF), Xor((t >> 8) & 0xFF, t & 0xFF))
  {
  }

  /** Four lookups in the one table are a single lookup of the folded word. */
  lemma WordUpdateFolds(crc: bv32, word: bv32)
    ensures WordUpdate(crc, word) == TableEntry(Xor(Fold(word), Fold(crc)))
  {
    var tmp := word ^ crc;
    FourLookups((tmp >> 24) & 0xFF, (tmp >> 16) & 0xFF, (tmp >> 8) & 0xFF, tmp & 0xFF);
    FoldParts(tmp);
    FoldAdditive(word, crc);
    hide TableEntry, Xor, Fold;
  }

  lemma {:induction false} WordLoopIsEntry(crc: bv32, words: seq<bv32>)
    requires words != []
    ensures WordLoop(crc, words) == TableEntry(Key(crc, words))
    decreases |words|
  {
    hide WordUpdate, TableEntry, Fold, Xor;
    WordUpdateFolds(crc, words[0]);
    if |words| > 1 {
      WordLoopIsEntry(WordUpdate(crc, words[0]), words[1..]);
    } else {
      assert words[1..] == [];
    }
  }

  lemma {:induction false} KeyIsByte(crc: bv32, words: seq<bv32>)
    requires words != []
    ensures Key(crc, words) & 0xFF == Key(crc, words)
    decreases |words|
  {
    if |words| > 1 {
      KeyIsByte(TableEntry(Xor(Fold(words[0]), Fold(crc))), words[1..]);
    } else {
      FoldAdditive(words[0], crc);
      FoldIsByte(words[0] ^ crc);
    }
  }

  /** The stamp load_pages asks for, as a number between 0 and 255. */
  function LoaderStamp(key: bv32): bv32 {
    TableEntry(key) ^ 0xFFFF_FFFF
  }

  /** load_pages accepts a slot. */
  predicate Accepts(stamp: bv32, data: seq<bv8>)
    requires |data| % 4 == 0
  {
    LoaderCrc32(Words(data)) == stamp
  }

  lemma WordsNotEmpty(data: seq<bv8>)
    requires |data| % 4 == 0 && data != []
    ensures Words(data) != []
  {
  }

  /** A page stamped by `calc_checksum` is accepted by load_pages exactly when its CRC-32 is the one of 256
      stamps that belongs to its key; no page with any other stamp is accepted, whatever its data. */
  lemma StampedPageAcceptedExactly(data: seq<bv8>)
    requires |data| % 4 == 0 && data != []
    ensures Accepts(Crc32(data), data) <==> Crc32(data) == LoaderStamp(Key(0xFFFF_FFFF, Words(data)))
    ensures Accepts(Crc32(data), data) ==> IsLoaderStamp(Crc32(data))
  {
    AcceptedStamps(Crc32(data), data);
  }

  /** One of the 256 stamps; the header alone tells. */
  ghost predicate IsLoaderStamp(stamp: bv32) {
    exists b: bv8 :: stamp == StampOf(b)
  }

  function StampOf(b: bv8): bv32 {
    LoaderStamp(b as bv32)
  }

  lemma AcceptedStamps(stamp: bv32, data: seq<bv8>)
    requires |data| % 4 == 0 && data != []
    ensures Accepts(stamp, data) <==> stamp == LoaderStamp(Key(0xFFFF_FFFF, Words(data)))
    ensures Accepts(stamp, data) ==> IsLoaderStamp(stamp)
  {
    var words := Words(data);
    WordsNotEmpty(data);
    hide TableEntry, Key, WordLoop, Words, IsLoaderStamp, LoaderStamp, LoaderCrc32;
    LoaderIsStamp(words);
    ByteStamp(words);
  }

  lemma LoaderIsStamp(words: seq<bv32>)
    requires words != []
    ensures LoaderCrc32(words) == LoaderStamp(Key(0xFFFF_FFFF, words))
  {
    hide TableEntry, Key, WordLoop;
    WordLoopIsEntry(0xFFFF_FFFF, words);
  }

  lemma ByteStamp(words: seq<bv32>)
    requires words != []
    ensures IsLoaderStamp(LoaderStamp(Key(0xFFFF_FFFF, words)))
  {
    hide LoaderStamp, Key;
    var k := Key(0xFFFF_FFFF, words);
    KeyIsByte(0xFFFF_FFFF, words);
    ByteOf(k);
    assert LoaderStamp(k) == StampOf((k & 0xFF) as bv8);
  }

  lemma ByteOf(k: bv32)
    ensures ((k & 0xFF) as bv8) as bv32 == k & 0xFF
  {
  }

  lemma {:induction false} SameFoldsSameKey(crc: bv32, a: seq<bv32>, b: seq<bv32>)
    requires |a| == |b| > 0 && forall i :: 0 <= i < |a| ==> Fold(a[i]) == Fold(b[i])
    ensures Key(crc, a) == Key(crc, b)
    decreases |a|
  {
    hide Fold, TableEntry, Xor;
    assert Fold(a[0]) == Fold(b[0]);
    if |a| > 1 {
      SameFoldsSameKey(TableEntry(Xor(Fold(a[0]), Fold(crc))), a[1..], b[1..]);
    }
  }

  /** What load_pages cannot see: two contents whose words have the same byte xors, such as a word and the
      same word with its bytes in another order, are accepted with the same stamps. */
  lemma LoaderSeesFoldsOnly(stamp: bv32, a: seq<bv8>, b: seq<bv8>)
    requires |a| % 4 == 0 && |b| % 4 == 0 && a != [] && b != [] && |Words(a)| == |Words(b)|
    requires forall i :: 0 <= i < |Words(a)| ==> Fold(Words(a)[i]) == Fold(Words(b)[i])
    ensures Accepts(stamp, a) <==> Accepts(stamp, b)
  {
    WordsNotEmpty(a);
    AcceptedStamps(stamp, a);
    AcceptedStamps(stamp, b);
    SameFoldsSameKey(0xFFFF_FFFF, Words(a), Words(b));
    hide Accepts, LoaderStamp, Key, Words, Fold;
  }

  function Zeros<T>(zero: T, n: nat): seq<T> {
    seq(n, _ => zero)
  }

  lemma XorSelf(a: bv32, b: bv32)
    requires a == b
    ensures Xor(Xor(a, a), Xor(a, b)) == 0
  {
  }

  lemma WordUpdateCollapses(crc: bv32)
    requires crc == 0 || crc == 0xFFFF_FFFF
    ensures WordUpdate(crc, 0) == 0
  {
    var tmp := 0 ^ crc;
    assert tmp == crc;
    assert (tmp >> 24) & 0xFF == tmp & 0xFF && (tmp >> 16) & 0xFF == tmp & 0xFF && (tmp >> 8) & 0xFF == tmp & 0xFF;
    XorSelf(TableEntry(tmp & 0xFF), TableEntry(tmp & 0xFF));
  }

  lemma {:induction false} WordLoopOnZeros(crc: bv32, n: nat)
    requires crc == 0 || (crc == 0xFFFF_FFFF && n > 0)
    ensures WordLoop(crc, Zeros(0, n)) == 0
    decreases n
  {
    if n > 0 {
      WordUpdateCollapses(crc);
      assert Zeros<bv32>(0, n)[1..] == Zeros(0, n - 1);
      WordLoopOnZeros(0, n - 1);
    }
  }

  lemma {:induction false} FeedZeros(n: nat)
    ensures CRC.Feed(0, Bits(Zeros(0, n))) == 0
  {
    if n > 0 {
      FeedZeros(n - 1);
      assert Zeros<bv8>(0, n) == [0] + Zeros(0, n - 1);
      FeedConcat(CRC, 0, ByteBits(0), Bits(Zeros(0, n - 1)));
      FeedByte(0, 0);
      ZeroStays();
    }
  }

  lemma ZeroStays()
    ensures Iterate(BitStep, Xor(0, 0), 8) == 0
  {
    IterateEight(BitStep, Xor(0, 0));
    assert BitStep(0) == 0;
  }

  /** On the zeroed data of a fresh page the loader's `crc32` and the page's own checksum always
      differ, so a page stamped by `calc_checksum` would be refused by `load_pages`. */
  lemma LoaderChecksumDiffers(n: nat)
    requires n > 0
    ensures LoaderCrc32(Zeros(0, n)) != Crc32(Zeros(0, 4 * n))
  {
    WordLoopOnZeros(0xFFFF_FFFF, n);
    var z := Bits(Zeros(0, 4 * n));
    FeedZeros(4 * n);
    if LoaderCrc32(Zeros(0, n)) == Crc32(Zeros(0, 4 * n)) {
      assert 0 ^ 0xFFFF_FFFF == !(0 as bv32);
      Complement(0, CRC.Feed(0xFFFF_FFFF, z));
      XorIsAddition();
      StepReversible();
      FeedInjective(CRC, 0xFFFF_FFFF, 0, z);
    }
  }
}
