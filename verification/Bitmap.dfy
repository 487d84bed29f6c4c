/** The packed bitmap of src/dimserver/common/bitmap/bitmap.cpp, against a sequence of booleans. */
module Bitmap {

  /** 1 << i */
  function Mask(i: nat): bv8
    requires i < 8
  {
    if i == 0 then 0x01
    else if i == 1 then 0x02
    else if i == 2 then 0x04
    else if i == 3 then 0x08
    else if i == 4 then 0x10
    else if i == 5 then 0x20
    else if i == 6 then 0x40
    else 0x80
  }

  predicate Bit(b: bv8, i: nat)
    requires i < 8
  {
    b & Mask(i) != 0
  }

  /** Bit k of a byte string: bit k % 8 of byte k / 8. */
  predicate BitAt(bytes: seq<bv8>, k: nat)
    requires k < 8 * |bytes|
  {
    Bit(bytes[k / 8], k % 8)
  }

  function Unpacked(bytes: seq<bv8>): (bits: seq<bool>) {
    seq(8 * |bytes|, k requires 0 <= k < 8 * |bytes| => BitAt(bytes, k))
  }

  // ---------- The weight of a bit ----------

  /** The number whose bit k has weight 2^k. */
  function Binary(bits: seq<bool>): nat {
    if bits == [] then 0 else (if bits[0] then 1 else 0) + 2 * Binary(bits[1..])
  }

  /** The number whose byte k has weight 256^k. */
  function LittleEndian(bytes: seq<bv8>): nat {
    if bytes == [] then 0 else bytes[0] as int + 256 * LittleEndian(bytes[1..])
  }

  lemma ByteIsBinary(b: bv8)
    ensures b as int ==
            (if Bit(b, 0) then 1 else 0) + (if Bit(b, 1) then 2 else 0) + (if Bit(b, 2) then 4 else 0)
            + (if Bit(b, 3) then 8 else 0) + (if Bit(b, 4) then 16 else 0) + (if Bit(b, 5) then 32 else 0)
            + (if Bit(b, 6) then 64 else 0) + (if Bit(b, 7) then 128 else 0)
  {
  }

  lemma BinaryOfEight(bits: seq<bool>)
    requires |bits| >= 8
    ensures Binary(bits) ==
            (if bits[0] then 1 else 0) + (if bits[1] then 2 else 0) + (if bits[2] then 4 else 0)
            + (if bits[3] then 8 else 0) + (if bits[4] then 16 else 0) + (if bits[5] then 32 else 0)
            + (if bits[6] then 64 else 0) + (if bits[7] then 128 else 0) + 256 * Binary(bits[8..])
  {
    BinaryOfFour(bits);
    BinaryOfFour(bits[4..]);
    assert bits[4..][4..] == bits[8..];
    hide Binary;
  }

  lemma BinaryOfFour(bits: seq<bool>)
    requires |bits| >= 4
    ensures Binary(bits) ==
            (if bits[0] then 1 else 0) + (if bits[1] then 2 else 0) + (if bits[2] then 4 else 0)
            + (if bits[3] then 8 else 0) + 16 * Binary(bits[4..])
  {
    assert bits[1..][1..] == bits[2..] && bits[2..][1..] == bits[3..] && bits[3..][1..] == bits[4..];
    assert Binary(bits[3..]) == (if bits[3] then 1 else 0) + 2 * Binary(bits[4..]);
    assert Binary(bits[2..]) == (if bits[2] then 1 else 0) + 2 * Binary(bits[3..]);
    assert Binary(bits[1..]) == (if bits[1] then 1 else 0) + 2 * Binary(bits[2..]);
  }

  /** Bit k has weight 2^k in the bytes read as one little-endian number. */
  lemma {:induction false} BitsAreBinary(bytes: seq<bv8>)
    ensures Binary(Unpacked(bytes)) == LittleEndian(bytes)
  {
    hide Bit;
    if bytes != [] {
      var bits := Unpacked(bytes);
      ByteIsBinary(bytes[0]);
      BinaryOfEight(bits);
      BitsAreBinary(bytes[1..]);
      forall k | 0 <= k < 8 * (|bytes| - 1) ensures bits[8..][k] == Unpacked(bytes[1..])[k] {
        assert (k + 8) / 8 == k / 8 + 1 && (k + 8) % 8 == k % 8;
      }
      assert bits[8..] == Unpacked(bytes[1..]);
    }
  }

  // ---------- Set, clear and search ----------

  /** Or-ing a mask in sets its own bit only. */
  lemma SetChanges(b: bv8, i: nat, j: nat)
    requires i < 8 && j < 8
    ensures Bit(b | Mask(i), j) <==> i == j || Bit(b, j)
  {
    MasksApart(i, j);
    hide Mask;
    OrMask(b, Mask(i), Mask(j));
  }

  /** And-ing the complement in clears its own bit only. */
  lemma ClearChanges(b: bv8, i: nat, j: nat)
    requires i < 8 && j < 8
    ensures Bit(b & !Mask(i), j) <==> i != j && Bit(b, j)
  {
    MasksApart(i, j);
    hide Mask;
    AndMask(b, Mask(i), Mask(j));
  }

  lemma MasksApart(i: nat, j: nat)
    requires i < 8 && j < 8
    ensures Mask(i) & Mask(j) == if i == j then Mask(i) else 0
    ensures Mask(i) != 0 && Mask(j) != 0
    ensures i != j ==> Mask(i) != Mask(j)
  {
  }

  lemma OrMask(b: bv8, m: bv8, n: bv8)
    ensures n != 0 && (m == n || m & n == 0) ==> ((b | m) & n != 0 <==> m == n || b & n != 0)
  {
  }

  lemma AndMask(b: bv8, m: bv8, n: bv8)
    ensures n != 0 && (m == n || m & n == 0) ==> ((b & !m) & n != 0 <==> m != n && b & n != 0)
  {
  }

  lemma ShortCuts(b: bv8, i: nat)
    requires i < 8
    ensures b == 0xFF ==> Bit(b, i)
    ensures b == 0x00 ==> !Bit(b, i)
  {
  }

  /** Storing one byte changes the bits of that byte only. */
  lemma UnpackedStore(bytes: seq<bv8>, k: nat, b: bv8, value: bool)
    requires k < 8 * |bytes|
    requires forall j :: 0 <= j < 8 ==> (Bit(b, j) <==> if j == k % 8 then value else Bit(bytes[k / 8], j))
    ensures Unpacked(bytes[k / 8 := b]) == Unpacked(bytes)[k := value]
  {
    var s, t := Unpacked(bytes[k / 8 := b]), Unpacked(bytes)[k := value];
    forall i | 0 <= i < 8 * |bytes| ensures s[i] == t[i] {
      if i / 8 == k / 8 {
        assert i == k <==> i % 8 == k % 8;
      }
    }
  }

  /** The least bit from `start` on with the wanted value; -1 if the byte has none. */
  method FindFirst(byte: bv8, wanted: bool, start: nat) returns (i: int)
    requires start < 8
    ensures i == -1 || start <= i < 8
    ensures i == -1 ==> forall j :: start <= j < 8 ==> Bit(byte, j) != wanted
    ensures i != -1 ==> Bit(byte, i) == wanted && forall j :: start <= j < i ==> Bit(byte, j) != wanted
  {
    i := start;
    while i < 8
      invariant start <= i <= 8
      invariant forall j :: start <= j < i ==> Bit(byte, j) != wanted
    {
      if Bit(byte, i) == wanted {
        return;
      }
      i := i + 1;
    }
    i := -1;
  }

  class Bitmap {
    var size: int
    var bitmap: array<bv8>

    /** The memory covers the bits; it may be longer. */
    ghost predicate Valid()
      reads this
    {
      size <= 8 * bitmap.Length
    }

    ghost function Bits(): (bits: seq<bool>)
      reads this, bitmap
    {
      Unpacked(bitmap[..])
    }

    constructor (memory: array<bv8>, n: int)
      requires n <= 8 * memory.Length
      ensures Valid() && size == n && bitmap == memory
    {
      size, bitmap := n, memory;
    }

    method Init(memory: array<bv8>, n: int)
      requires n <= 8 * memory.Length
      modifies this
      ensures Valid() && size == n && bitmap == memory
    {
      size, bitmap := n, memory;
    }

    /** (size_ + 7) / 8, which C truncates toward zero. */
    function Bytes(): (n: int)
      reads this
      ensures size > 0 ==> 8 * (n - 1) < size <= 8 * n
      ensures -7 <= size <= 0 ==> n == 0
      ensures size < -7 ==> 8 * (n - 1) < size + 7 <= 8 * n
    {
      if size + 7 >= 0 then (size + 7) / 8 else -(-(size + 7) / 8)
    }

    method Set(index: nat)
      requires index < 8 * bitmap.Length
      modifies bitmap
      ensures Bits() == old(Bits())[index := true]
    {
      ghost var was := bitmap[..];
      var b := bitmap[index / 8] | Mask(index % 8);
      forall j: nat | j < 8 ensures Bit(b, j) <==> if j == index % 8 then true else Bit(was[index / 8], j) {
        SetChanges(was[index / 8], index % 8, j);
      }
      hide Bit, Unpacked;
      UnpackedStore(was, index, b, true);
      bitmap[index / 8] := b;
      assert bitmap[..] == was[index / 8 := b];
    }

    method Clear(index: nat)
      requires index < 8 * bitmap.Length
      modifies bitmap
      ensures Bits() == old(Bits())[index := false]
    {
      ghost var was := bitmap[..];
      var b := bitmap[index / 8] & !Mask(index % 8);
      forall j: nat | j < 8 ensures Bit(b, j) <==> if j == index % 8 then false else Bit(was[index / 8], j) {
        ClearChanges(was[index / 8], index % 8, j);
      }
      hide Bit, Unpacked;
      UnpackedStore(was, index, b, false);
      bitmap[index / 8] := b;
      assert bitmap[..] == was[index / 8 := b];
    }

    method Get(index: nat) returns (bit: bool)
      requires index < 8 * bitmap.Length
      ensures bit == Bits()[index]
    {
      bit := bitmap[index / 8] & Mask(index % 8) != 0;
    }

    /** The least zero bit from `start` on; -1 exactly when every bit in [start, size) is one. */
    method NextZeroBit(start: nat) returns (ret: int)
      requires Valid()
      ensures ret == -1 <==> forall k :: start <= k < size ==> Bits()[k]
      ensures ret != -1 ==> start <= ret < size && !Bits()[ret] && forall k :: start <= k < ret ==> Bits()[k]
    {
      ret := NextBit(start, false, 0xFF);
    }

    /** The least one bit from `start` on; -1 exactly when every bit in [start, size) is zero. */
    method NextOneBit(start: nat) returns (ret: int)
      requires Valid()
      ensures ret == -1 <==> forall k :: start <= k < size ==> !Bits()[k]
      ensures ret != -1 ==> start <= ret < size && Bits()[ret] && forall k :: start <= k < ret ==> !Bits()[k]
    {
      ret := NextBit(start, true, 0x00);
    }

    /** next_zero_bit and next_one_bit, which differ in the bit they look for and in the byte they skip. */
    method NextBit(start: nat, wanted: bool, skipped: bv8) returns (ret: int)
      requires Valid() && skipped == if wanted then 0x00 else 0xFF
      ensures ret == -1 <==> forall k :: start <= k < size ==> Bits()[k] != wanted
      ensures ret != -1 ==> start <= ret < size && Bits()[ret] == wanted
      ensures ret != -1 ==> forall k :: start <= k < ret ==> Bits()[k] != wanted
    {
      ret := -1;
      var startInByte, iter, end := start % 8, start / 8, Bytes();
      assert end <= bitmap.Length;
      while iter < end
        invariant start / 8 <= iter && (iter <= end || iter == start / 8)
        invariant startInByte == (if iter == start / 8 then start % 8 else 0)
        invariant forall k :: start <= k < 8 * iter && k < 8 * bitmap.Length ==> Bits()[k] != wanted
        invariant ret == -1
      {
        var byte := bitmap[iter];
        var indexInByte := -1;
        if byte != skipped {
          indexInByte := FindFirst(byte, wanted, startInByte);
        }
        ByteDone(bitmap[..], iter, wanted, skipped, startInByte, indexInByte);
        if indexInByte >= 0 {
          ret := iter * 8 + indexInByte;
          break;
        }
        startInByte := 0;
        iter := iter + 1;
      }
      assert ret == -1 ==> forall k :: start <= k < size ==> Bits()[k] != wanted;
      assert ret != -1 ==> start <= ret < 8 * bitmap.Length && Bits()[ret] == wanted;
      assert ret != -1 ==> forall k :: start <= k < ret ==> Bits()[k] != wanted;
      if ret >= size {
        ret := -1;
      }
    }
  }

  /** A byte-wise result in terms of the bits. */
  lemma ByteDone(bytes: seq<bv8>, iter: nat, wanted: bool, skipped: bv8, start: nat, found: int)
    requires iter < |bytes| && start < 8 && skipped == (if wanted then 0x00 else 0xFF)
    requires found == -1 || start <= found < 8
    requires bytes[iter] == skipped ==> found == -1
    requires found == -1 && bytes[iter] != skipped ==> forall j :: start <= j < 8 ==> Bit(bytes[iter], j) != wanted
    requires found != -1 ==> Bit(bytes[iter], found) == wanted
    requires found != -1 ==> forall j :: start <= j < found ==> Bit(bytes[iter], j) != wanted
    ensures forall k :: 8 * iter + start <= k < 8 * iter + (if found == -1 then 8 else found) ==>
              Unpacked(bytes)[k] != wanted
    ensures found != -1 ==> Unpacked(bytes)[8 * iter + found] == wanted
  {
    forall k | 8 * iter + start <= k < 8 * iter + (if found == -1 then 8 else found)
      ensures Unpacked(bytes)[k] != wanted
    {
      assert k / 8 == iter && k % 8 == k - 8 * iter;
      ShortCuts(bytes[iter], k % 8);
    }
    if found != -1 {
      assert (8 * iter + found) / 8 == iter;
    }
  }
}
