/** The checksum of `PageChecksum` is the usual CRC-32: its table is the one spelled out in
    src/dimserver/common/math/crc.cpp, and the check string has the well-known value. */
module KnownChecksums {
  import opened ShiftRegister
  import opened PageChecksum

  /** crc_table of crc.cpp (lines 3-36), sixteen entries a row. */
  function Row(h: bv8): (r: seq<bv32>)
    ensures |r| == 16
  {
    if h == 0 then [
      0x0000_0000, 0x7707_3096, 0xEE0E_612C, 0x9909_51BA, 0x076D_C419, 0x706A_F48F, 0xE963_A535, 0x9E64_95A3,
      0x0EDB_8832, 0x79DC_B8A4, 0xE0D5_E91E, 0x97D2_D988, 0x09B6_4C2B, 0x7EB1_7CBD, 0xE7B8_2D07, 0x90BF_1D91]
    else if h == 1 then [
      0x1DB7_1064, 0x6AB0_20F2, 0xF3B9_7148, 0x84BE_41DE, 0x1ADA_D47D, 0x6DDD_E4EB, 0xF4D4_B551, 0x83D3_85C7,
      0x136C_9856, 0x646B_A8C0, 0xFD62_F97A, 0x8A65_C9EC, 0x1401_5C4F, 0x6306_6CD9, 0xFA0F_3D63, 0x8D08_0DF5]
    else if h == 2 then [
      0x3B6E_20C8, 0x4C69_105E, 0xD560_41E4, 0xA267_7172, 0x3C03_E4D1, 0x4B04_D447, 0xD20D_85FD, 0xA50A_B56B,
      0x35B5_A8FA, 0x42B2_986C, 0xDBBB_C9D6, 0xACBC_F940, 0x32D8_6CE3, 0x45DF_5C75, 0xDCD6_0DCF, 0xABD1_3D59]
    else if h == 3 then [
      0x26D9_30AC, 0x51DE_003A, 0xC8D7_5180, 0xBFD0_6116, 0x21B4_F4B5, 0x56B3_C423, 0xCFBA_9599, 0xB8BD_A50F,
      0x2802_B89E, 0x5F05_8808, 0xC60C_D9B2, 0xB10B_E924, 0x2F6F_7C87, 0x5868_4C11, 0xC161_1DAB, 0xB666_2D3D]
    else if h == 4 then [
      0x76DC_4190, 0x01DB_7106, 0x98D2_20BC, 0xEFD5_102A, 0x71B1_8589, 0x06B6_B51F, 0x9FBF_E4A5, 0xE8B8_D433,
      0x7807_C9A2, 0x0F00_F934, 0x9609_A88E, 0xE10E_9818, 0x7F6A_0DBB, 0x086D_3D2D, 0x9164_6C97, 0xE663_5C01]
    else if h == 5 then [
      0x6B6B_51F4, 0x1C6C_6162, 0x8565_30D8, 0xF262_004E, 0x6C06_95ED, 0x1B01_A57B, 0x8208_F4C1, 0xF50F_C457,
      0x65B0_D9C6, 0x12B7_E950, 0x8BBE_B8EA, 0xFCB9_887C, 0x62DD_1DDF, 0x15DA_2D49, 0x8CD3_7CF3, 0xFBD4_4C65]
    else if h == 6 then [
      0x4DB2_6158, 0x3AB5_51CE, 0xA3BC_0074, 0xD4BB_30E2, 0x4ADF_A541, 0x3DD8_95D7, 0xA4D1_C46D, 0xD3D6_F4FB,
      0x4369_E96A, 0x346E_D9FC, 0xAD67_8846, 0xDA60_B8D0, 0x4404_2D73, 0x3303_1DE5, 0xAA0A_4C5F, 0xDD0D_7CC9]
    else if h == 7 then [
      0x5005_713C, 0x2702_41AA, 0xBE0B_1010, 0xC90C_2086, 0x5768_B525, 0x206F_85B3, 0xB966_D409, 0xCE61_E49F,
      0x5EDE_F90E, 0x29D9_C998, 0xB0D0_9822, 0xC7D7_A8B4, 0x59B3_3D17, 0x2EB4_0D81, 0xB7BD_5C3B, 0xC0BA_6CAD]
    else if h == 8 then [
      0xEDB8_8320, 0x9ABF_B3B6, 0x03B6_E20C, 0x74B1_D29A, 0xEAD5_4739, 0x9DD2_77AF, 0x04DB_2615, 0x73DC_1683,
      0xE363_0B12, 0x9464_3B84, 0x0D6D_6A3E, 0x7A6A_5AA8, 0xE40E_CF0B, 0x9309_FF9D, 0x0A00_AE27, 0x7D07_9EB1]
    else if h == 9 then [
      0xF00F_9344, 0x8708_A3D2, 0x1E01_F268, 0x6906_C2FE, 0xF762_575D, 0x8065_67CB, 0x196C_3671, 0x6E6B_06E7,
      0xFED4_1B76, 0x89D3_2BE0, 0x10DA_7A5A, 0x67DD_4ACC, 0xF9B9_DF6F, 0x8EBE_EFF9, 0x17B7_BE43, 0x60B0_8ED5]
    else if h == 10 then [
      0xD6D6_A3E8, 0xA1D1_937E, 0x38D8_C2C4, 0x4FDF_F252, 0xD1BB_67F1, 0xA6BC_5767, 0x3FB5_06DD, 0x48B2_364B,
      0xD80D_2BDA, 0xAF0A_1B4C, 0x3603_4AF6, 0x4104_7A60, 0xDF60_EFC3, 0xA867_DF55, 0x316E_8EEF, 0x4669_BE79]
    else if h == 11 then [
      0xCB61_B38C, 0xBC66_831A, 0x256F_D2A0, 0x5268_E236, 0xCC0C_7795, 0xBB0B_4703, 0x2202_16B9, 0x5505_262F,
      0xC5BA_3BBE, 0xB2BD_0B28, 0x2BB4_5A92, 0x5CB3_6A04, 0xC2D7_FFA7, 0xB5D0_CF31, 0x2CD9_9E8B, 0x5BDE_AE1D]
    else if h == 12 then [
      0x9B64_C2B0, 0xEC63_F226, 0x756A_A39C, 0x026D_930A, 0x9C09_06A9, 0xEB0E_363F, 0x7207_6785, 0x0500_5713,
      0x95BF_4A82, 0xE2B8_7A14, 0x7BB1_2BAE, 0x0CB6_1B38, 0x92D2_8E9B, 0xE5D5_BE0D, 0x7CDC_EFB7, 0x0BDB_DF21]
    else if h == 13 then [
      0x86D3_D2D4, 0xF1D4_E242, 0x68DD_B3F8, 0x1FDA_836E, 0x81BE_16CD, 0xF6B9_265B, 0x6FB0_77E1, 0x18B7_4777,
      0x8808_5AE6, 0xFF0F_6A70, 0x6606_3BCA, 0x1101_0B5C, 0x8F65_9EFF, 0xF862_AE69, 0x616B_FFD3, 0x166C_CF45]
    else if h == 14 then [
      0xA00A_E278, 0xD70D_D2EE, 0x4E04_8354, 0x3903_B3C2, 0xA767_2661, 0xD060_16F7, 0x4969_474D, 0x3E6E_77DB,
      0xAED1_6A4A, 0xD9D6_5ADC, 0x40DF_0B66, 0x37D8_3BF0, 0xA9BC_AE53, 0xDEBB_9EC5, 0x47B2_CF7F, 0x30B5_FFE9]
    else [
      0xBDBD_F21C, 0xCABA_C28A, 0x53B3_9330, 0x24B4_A3A6, 0xBAD0_3605, 0xCDD7_0693, 0x54DE_5729, 0x23D9_67BF,
      0xB366_7A2E, 0xC461_4AB8, 0x5D68_1B02, 0x2A6F_2B94, 0xB40B_BE37, 0xC30C_8EA1, 0x5A05_DF1B, 0x2D02_EF8D]
  }

  /** crc_table[b] */
  function Literal(b: bv8): bv32 {
    LowNibble(b);
    Row(b >> 4)[(b & 15) as int]
  }

  lemma LowNibble(b: bv8)
    ensures (b & 15) as int < 16
  {
  }

  /** The entry of a byte as the sum of the entries of its bits. */
  function ByPowers(x: bv32): bv32 {
    Xor(Xor(Xor(Pick(x, 1, 0x7707_3096), Pick(x, 2, 0xEE0E_612C)),
            Xor(Pick(x, 4, 0x076D_C419), Pick(x, 8, 0x0EDB_8832))),
        Xor(Xor(Pick(x, 16, 0x1DB7_1064), Pick(x, 32, 0x3B6E_20C8)),
            Xor(Pick(x, 64, 0x76DC_4190), Pick(x, 128, 0xEDB8_8320))))
  }

  function Pick(x: bv32, bit: bv32, entry: bv32): bv32 {
    if x & bit != 0 then entry else 0
  }

  /** Eight division steps on each single bit. */
  lemma EntriesOfPowers()
    ensures TableEntry(0) == 0
    ensures TableEntry(1) == 0x7707_3096 && TableEntry(2) == 0xEE0E_612C && TableEntry(4) == 0x076D_C419
    ensures TableEntry(8) == 0x0EDB_8832 && TableEntry(16) == 0x1DB7_1064 && TableEntry(32) == 0x3B6E_20C8
    ensures TableEntry(64) == 0x76DC_4190 && TableEntry(128) == 0xEDB8_8320
  {
    IterateEight(BitStep, 0);
    IterateEight(BitStep, 1);
    IterateEight(BitStep, 2);
    IterateEight(BitStep, 4);
    IterateEight(BitStep, 8);
    IterateEight(BitStep, 16);
    IterateEight(BitStep, 32);
    IterateEight(BitStep, 64);
    IterateEight(BitStep, 128);
  }

  lemma SplitBits(x: bv32)
    requires x & 0xFF == x
    ensures x == Xor(Xor(Xor(x & 1, x & 2), Xor(x & 4, x & 8)), Xor(Xor(x & 16, x & 32), Xor(x & 64, x & 128)))
  {
  }

  lemma OneBit(x: bv32, bit: bv32)
    requires bit == 1 || bit == 2 || bit == 4 || bit == 8 || bit == 16 || bit == 32 || bit == 64 || bit == 128
    ensures TableEntry(x & bit) == Pick(x, bit, TableEntry(bit))
  {
    EntriesOfPowers();
    hide TableEntry;
    assert x & bit == 0 || x & bit == bit;
  }

  /** A table entry is the sum of the entries of the bits in its index. */
  lemma EntryByPowers(x: bv32)
    requires x & 0xFF == x
    ensures TableEntry(x) == ByPowers(x)
  {
    hide TableEntry, Xor, Pick;
    SplitBits(x);
    EntriesOfPowers();
    OneBit(x, 1);
    OneBit(x, 2);
    OneBit(x, 4);
    OneBit(x, 8);
    OneBit(x, 16);
    OneBit(x, 32);
    OneBit(x, 64);
    OneBit(x, 128);
    TableAdditive(x & 1, x & 2);
    TableAdditive(x & 4, x & 8);
    TableAdditive(x & 16, x & 32);
    TableAdditive(x & 64, x & 128);
    TableAdditive(Xor(x & 1, x & 2), Xor(x & 4, x & 8));
    TableAdditive(Xor(x & 16, x & 32), Xor(x & 64, x & 128));
    TableAdditive(Xor(Xor(x & 1, x & 2), Xor(x & 4, x & 8)), Xor(Xor(x & 16, x & 32), Xor(x & 64, x & 128)));
  }

  /** The first row with x added to every entry. */
  function Shifted(x: bv32): (r: seq<bv32>)
    ensures |r| == 16
  {
    [x ^ 0x0000_0000, x ^ 0x7707_3096, x ^ 0xEE0E_612C, x ^ 0x9909_51BA,
     x ^ 0x076D_C419, x ^ 0x706A_F48F, x ^ 0xE963_A535, x ^ 0x9E64_95A3,
     x ^ 0x0EDB_8832, x ^ 0x79DC_B8A4, x ^ 0xE0D5_E91E, x ^ 0x97D2_D988,
     x ^ 0x09B6_4C2B, x ^ 0x7EB1_7CBD, x ^ 0xE7B8_2D07, x ^ 0x90BF_1D91]
  }

  lemma RowsTo4(h: bv8)
    requires h < 4
    ensures Row(h) == Shifted(Row(h)[0])
    ensures Row(h)[0] == ByPowers((h as bv32) << 4)
  {
  }

  lemma RowsTo8(h: bv8)
    requires 4 <= h < 8
    ensures Row(h) == Shifted(Row(h)[0])
    ensures Row(h)[0] == ByPowers((h as bv32) << 4)
  {
  }

  lemma RowsTo12(h: bv8)
    requires 8 <= h < 12
    ensures Row(h) == Shifted(Row(h)[0])
    ensures Row(h)[0] == ByPowers((h as bv32) << 4)
  {
  }

  lemma RowsTo16(h: bv8)
    requires 12 <= h < 16
    ensures Row(h) == Shifted(Row(h)[0])
    ensures Row(h)[0] == ByPowers((h as bv32) << 4)
  {
  }

  lemma FirstRow()
    ensures ByPowers(0) == 0x0000_0000 && ByPowers(1) == 0x7707_3096
    ensures ByPowers(2) == 0xEE0E_612C && ByPowers(3) == 0x9909_51BA
    ensures ByPowers(4) == 0x076D_C419 && ByPowers(5) == 0x706A_F48F
    ensures ByPowers(6) == 0xE963_A535 && ByPowers(7) == 0x9E64_95A3
    ensures ByPowers(8) == 0x0EDB_8832 && ByPowers(9) == 0x79DC_B8A4
    ensures ByPowers(10) == 0xE0D5_E91E && ByPowers(11) == 0x97D2_D988
    ensures ByPowers(12) == 0x09B6_4C2B && ByPowers(13) == 0x7EB1_7CBD
    ensures ByPowers(14) == 0xE7B8_2D07 && ByPowers(15) == 0x90BF_1D91
  {
  }

  lemma ShiftedAt(x: bv32, l: bv8)
    requires l < 16
    ensures l as int < 16 && Shifted(x)[l as int] == Xor(x, ByPowers(l as bv32))
  {
    hide ByPowers;
    FirstRow();
    SmallByte(l);
  }

  lemma SmallByte(l: bv8)
    requires l < 16
    ensures l as int < 16
  {
  }

  lemma Nibbles(b: bv8)
    ensures (b >> 4) < 16 && (b & 15) < 16
    ensures Xor(((b >> 4) as bv32) << 4, (b & 15) as bv32) == b as bv32
    ensures (((b >> 4) as bv32) << 4) & 0xFF == ((b >> 4) as bv32) << 4
    ensures ((b & 15) as bv32) & 0xFF == (b & 15) as bv32
  {
  }

  /** The table that calc_checksum builds is the one spelled out in crc.cpp. */
  lemma TableIsLiteral(b: bv8)
    ensures TableEntry(b as bv32) == Literal(b)
  {
    hide Row, Shifted, ByPowers, TableEntry, Xor;
    var h, l := b >> 4, b & 15;
    Nibbles(b);
    LowNibble(b);
    if h < 4 {
      RowsTo4(h);
    } else if h < 8 {
      RowsTo8(h);
    } else if h < 12 {
      RowsTo12(h);
    } else {
      RowsTo16(h);
    }
    ShiftedAt(Row(h)[0], l);
    EntryByPowers((h as bv32) << 4);
    EntryByPowers(l as bv32);
    TableAdditive((h as bv32) << 4, l as bv32);
  }

  // ---------- The check value ----------

  /** The register after one more byte. */
  function Next(crc: bv32, d: bv8): bv32 {
    Xor(ByPowers(Xor(crc, d as bv32) & 0xFF), crc >> 8)
  }

  lemma FeedKnown(crc: bv32, d: bv8)
    ensures CRC.Feed(crc, ByteBits(d)) == Next(crc, d)
  {
    hide TableEntry, ByPowers;
    TableUpdateIsSerial(crc, d);
    IndexIgnoresSign(crc, d);
    IndexIsByte(crc, d);
    EntryByPowers(Xor(crc, d as bv32) & 0xFF);
  }

  lemma IndexIsByte(crc: bv32, d: bv8)
    ensures (Xor(crc, d as bv32) & 0xFF) & 0xFF == Xor(crc, d as bv32) & 0xFF
  {
  }

  lemma FeedNext(crc: bv32, s: seq<bv8>)
    requires s != []
    ensures CRC.Feed(crc, Bits(s)) == CRC.Feed(Next(crc, s[0]), Bits(s[1..]))
  {
    hide Next, ByteBits;
    FeedKnown(crc, s[0]);
    FeedConcat(CRC, crc, ByteBits(s[0]), Bits(s[1..]));
  }

  lemma FirstRegisters()
    ensures Next(0xFFFF_FFFF, 0x31) == 0x7C23_1048
    ensures Next(0x7C23_1048, 0x32) == 0xB0AC_BB32
    ensures Next(0xB0AC_BB32, 0x33) == 0x77B7_9C2D
    ensures Next(0x77B7_9C2D, 0x34) == 0x641C_1F5C
    ensures Next(0x641C_1F5C, 0x35) == 0x340A_C5E3
  {
  }

  lemma LastRegisters()
    ensures Next(0x340A_C5E3, 0x36) == 0xF68D_2C9E
    ensures Next(0xF68D_2C9E, 0x37) == 0xAFFC_9660
    ensures Next(0xAFFC_9660, 0x38) == 0x651F_2550
    ensures Next(0x651F_2550, 0x39) == 0x340B_C6D9
  {
  }

  /** The checksum of the nine characters "123456789" is 0xCBF43926. */
  lemma CheckValue()
    ensures Crc32([0x31, 0x32, 0x33, 0x34, 0x35, 0x36, 0x37, 0x38, 0x39]) == 0xCBF4_3926
  {
    hide Bits, Next;
    FirstRegisters();
    LastRegisters();
    var s: seq<bv8> := [0x31, 0x32, 0x33, 0x34, 0x35, 0x36, 0x37, 0x38, 0x39];
    FeedNext(0xFFFF_FFFF, s[0..]);
    assert s[0..][0] == 0x31 && s[0..][1..] == s[1..];
    FeedNext(0x7C23_1048, s[1..]);
    assert s[1..][0] == 0x32 && s[1..][1..] == s[2..];
    FeedNext(0xB0AC_BB32, s[2..]);
    assert s[2..][0] == 0x33 && s[2..][1..] == s[3..];
    FeedNext(0x77B7_9C2D, s[3..]);
    assert s[3..][0] == 0x34 && s[3..][1..] == s[4..];
    FeedNext(0x641C_1F5C, s[4..]);
    assert s[4..][0] == 0x35 && s[4..][1..] == s[5..];
    FeedNext(0x340A_C5E3, s[5..]);
    assert s[5..][0] == 0x36 && s[5..][1..] == s[6..];
    FeedNext(0xF68D_2C9E, s[6..]);
    assert s[6..][0] == 0x37 && s[6..][1..] == s[7..];
    FeedNext(0xAFFC_9660, s[7..]);
    assert s[7..][0] == 0x38 && s[7..][1..] == s[8..];
    FeedNext(0x651F_2550, s[8..]);
    assert s[8..][0] == 0x39 && s[8..][1..] == [] && s[0..] == s;
    assert CRC.Feed(0x340B_C6D9, Bits([])) == 0x340B_C6D9 by {
      NoBits();
    }
  }

  lemma NoBits()
    ensures Bits([]) == []
  {
  }

  // ---------- The words of the loader ----------

  lemma FirstWord(data: seq<bv8>)
    requires |data| % 4 == 0 && data != []
    ensures Words(data) == [Word(data[0], data[1], data[2], data[3])] + Words(data[4..])
  {
  }

  lemma {:induction false} WordCount(data: seq<bv8>)
    requires |data| % 4 == 0
    ensures |Words(data)| == |data| / 4
    decreases |data|
  {
    if data != [] {
      FirstWord(data);
      hide Words, Word;
      WordCount(data[4..]);
    }
  }

  /** There is one word for each four bytes, in their order. */
  lemma {:induction false} WordsAre(data: seq<bv8>, i: nat)
    requires |data| % 4 == 0 && 4 * i < |data|
    ensures |Words(data)| == |data| / 4
    ensures Words(data)[i] == Word(data[4 * i], data[4 * i + 1], data[4 * i + 2], data[4 * i + 3])
    decreases |data|
  {
    hide Words, Word;
    WordCount(data);
    FirstWord(data);
    if i > 0 {
      var rest := data[4..];
      WordsAre(rest, i - 1);
      var at := 4 * (i - 1);
      assert rest[at] == data[at + 4] && rest[at + 1] == data[at + 5];
      assert rest[at + 2] == data[at + 6] && rest[at + 3] == data[at + 7];
    }
  }

  /** A word is the little-endian number of its four bytes. */
  lemma WordIsNumber(a: bv8, b: bv8, c: bv8, d: bv8)
    ensures Word(a, b, c, d) ==
            (a as bv32) + 0x100 * (b as bv32) + 0x1_0000 * (c as bv32) + 0x100_0000 * (d as bv32)
  {
  }

  /** What the word loop makes of the eight characters "12345678": not their CRC-32, 0x9AE0DAAF. */
  lemma LoaderCheckValue()
    ensures LoaderCrc32(Words([0x31, 0x32, 0x33, 0x34, 0x35, 0x36, 0x37, 0x38])) == 0xA34C_95FB
  {
    var data: seq<bv8> := [0x31, 0x32, 0x33, 0x34, 0x35, 0x36, 0x37, 0x38];
    WordsAre(data, 0);
    WordsAre(data, 1);
    hide Words, WordUpdate;
    TwoWords();
    var words := Words(data);
    assert words == [0x3433_3231, 0x3837_3635];
    assert words[1..] == [0x3837_3635] && words[1..][1..] == [];
    assert WordLoop(0x5CB3_6A04, []) == 0x5CB3_6A04;
    assert WordLoop(0x076D_C419, words[1..]) == WordLoop(0x5CB3_6A04, words[1..][1..]);
  }

  lemma OneWord(crc: bv32, word: bv32, k: bv32)
    requires k == Xor(Fold(word), Fold(crc)) && k & 0xFF == k
    ensures WordUpdate(crc, word) == ByPowers(k)
  {
    hide TableEntry, ByPowers, WordUpdate;
    WordUpdateFolds(crc, word);
    EntryByPowers(k);
  }

  lemma TwoWords()
    ensures WordUpdate(0xFFFF_FFFF, 0x3433_3231) == 0x076D_C419
    ensures WordUpdate(0x076D_C419, 0x3837_3635) == 0x5CB3_6A04
  {
    hide WordUpdate;
    OneWord(0xFFFF_FFFF, 0x3433_3231, 0x04);
    OneWord(0x076D_C419, 0x3837_3635, 0xBB);
  }
}
