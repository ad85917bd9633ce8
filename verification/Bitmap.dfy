/** Bitmaps as PhysicalMemory.c, MemoryPageMap.c and SharedMemory.c keep them:
    bit n lives in byte n / 8, most significant bit first. */
module Bitmap {

  /** Bit k of one byte, counted from the most significant end. */
  predicate BitOf(b: bv8, k: nat)
    requires k < 8
  {
    (b >> (7 - k)) & 1 == 1
  }

  /** Bit 0 is the one of weight 128, bit 7 the one of weight 1. */
  lemma BitWeights(b: bv8)
    ensures BitOf(b, 0) == (b & 0x80 != 0) && BitOf(b, 1) == (b & 0x40 != 0) && BitOf(b, 2) == (b & 0x20 != 0) && BitOf(b, 3) == (b & 0x10 != 0)
    ensures BitOf(b, 4) == (b & 0x08 != 0) && BitOf(b, 5) == (b & 0x04 != 0) && BitOf(b, 6) == (b & 0x02 != 0) && BitOf(b, 7) == (b & 0x01 != 0)
  {}

  function Mask(k: nat): bv8
    requires k < 8
  {
    1 << (7 - k)
  }

  /** The bitmap as a sequence of booleans. */
  function Bits(bytes: seq<bv8>): (bits: seq<bool>)
    ensures |bits| == 8 * |bytes|
  {
    seq(8 * |bytes|, n requires 0 <= n < 8 * |bytes| => BitOf(bytes[n / 8], n % 8))
  }

  lemma ByteBits(bytes: seq<bv8>, i: nat)
    requires i < |bytes|
    ensures forall k :: 8 * i <= k < 8 * i + 8 ==> Bits(bytes)[k] == BitOf(bytes[i], k - 8 * i)
  {}

  /** The lowest set bit in [from, limit), or limit. */
  function LowestSet(bits: seq<bool>, from: nat, limit: nat): (k: nat)
    requires from <= limit <= |bits|
    ensures from <= k <= limit
    ensures forall j :: from <= j < k ==> !bits[j]
    ensures k < limit ==> bits[k]
    decreases limit - from
  {
    if from == limit || bits[from] then from else LowestSet(bits, from + 1, limit)
  }

  lemma LowestSetIs(bits: seq<bool>, from: nat, limit: nat, k: nat)
    requires from <= k < limit <= |bits| && bits[k]
    requires forall j :: from <= j < k ==> !bits[j]
    ensures LowestSet(bits, from, limit) == k
  {}

  /** The number of set bits. */
  function CountSet(bits: seq<bool>): (n: nat)
    ensures n <= |bits|
  {
    if bits == [] then 0 else (if bits[0] then 1 else 0) + CountSet(bits[1..])
  }

  lemma {:induction false} CountAfterUpdate(bits: seq<bool>, k: nat, v: bool)
    requires k < |bits|
    ensures CountSet(bits[k := v]) + (if bits[k] then 1 else 0) == CountSet(bits) + (if v then 1 else 0)
  {
    if k > 0 {
      CountAfterUpdate(bits[1..], k - 1, v);
      assert bits[k := v][1..] == bits[1..][k - 1 := v];
    } else {
      assert bits[k := v][1..] == bits[1..];
    }
  }

  lemma {:induction false} CountExtremes(bits: seq<bool>)
    ensures CountSet(bits) == 0 <==> forall k :: 0 <= k < |bits| ==> !bits[k]
    ensures CountSet(bits) == |bits| <==> forall k :: 0 <= k < |bits| ==> bits[k]
  {
    if bits != [] {
      CountExtremes(bits[1..]);
      assert forall k :: 1 <= k < |bits| ==> bits[k] == bits[1..][k - 1];
    }
  }

  lemma {:induction false} CountOfAppend(bits: seq<bool>, v: bool)
    ensures CountSet(bits + [v]) == CountSet(bits) + (if v then 1 else 0)
  {
    if bits != [] {
      CountOfAppend(bits[1..], v);
      assert (bits + [v])[1..] == bits[1..] + [v];
    }
  }

  /** OR with a mask sets exactly one bit, AND with its complement clears exactly one. */
  lemma MaskChangesOneBit(b: bv8, k: nat, j: nat)
    requires k < 8 && j < 8
    ensures BitOf(b | Mask(k), j) == (j == k || BitOf(b, j))
    ensures BitOf(b & !Mask(k), j) == (j != k && BitOf(b, j))
  {
    hide BitOf, Mask;
    MaskSets(b, k, j);
    MaskClears(b, k, j);
  }

  lemma MaskSets(b: bv8, k: nat, j: nat)
    requires k < 8 && j < 8
    ensures BitOf(b | Mask(k), j) == (j == k || BitOf(b, j))
  {
    hide BitOf, Mask;
    MaskIs(k);
    SetBitCases(b, j);
  }

  lemma MaskClears(b: bv8, k: nat, j: nat)
    requires k < 8 && j < 8
    ensures BitOf(b & !Mask(k), j) == (j != k && BitOf(b, j))
  {
    hide BitOf, Mask;
    MaskIs(k);
    ClearBitCases(b, j);
  }

  lemma MaskIs(k: nat)
    requires k < 8
    ensures Mask(k) == if k == 0 then 128 else if k == 1 then 64 else if k == 2 then 32 else if k == 3 then 16
                       else if k == 4 then 8 else if k == 5 then 4 else if k == 6 then 2 else 1
  {
    if k == 0 {} else if k == 1 {} else if k == 2 {} else if k == 3 {}
    else if k == 4 {} else if k == 5 {} else if k == 6 {} else {}
  }

  lemma SetBitCases(b: bv8, j: nat)
    requires j < 8
    ensures BitOf(b | 128, j) == (j == 0 || BitOf(b, j))
    ensures BitOf(b | 64, j) == (j == 1 || BitOf(b, j))
    ensures BitOf(b | 32, j) == (j == 2 || BitOf(b, j))
    ensures BitOf(b | 16, j) == (j == 3 || BitOf(b, j))
    ensures BitOf(b | 8, j) == (j == 4 || BitOf(b, j))
    ensures BitOf(b | 4, j) == (j == 5 || BitOf(b, j))
    ensures BitOf(b | 2, j) == (j == 6 || BitOf(b, j))
    ensures BitOf(b | 1, j) == (j == 7 || BitOf(b, j))
  {
    if j == 0 {} else if j == 1 {} else if j == 2 {} else if j == 3 {}
    else if j == 4 {} else if j == 5 {} else if j == 6 {} else {}
  }

  lemma ClearBitCases(b: bv8, j: nat)
    requires j < 8
    ensures BitOf(b & !128, j) == (j != 0 && BitOf(b, j))
    ensures BitOf(b & !64, j) == (j != 1 && BitOf(b, j))
    ensures BitOf(b & !32, j) == (j != 2 && BitOf(b, j))
    ensures BitOf(b & !16, j) == (j != 3 && BitOf(b, j))
    ensures BitOf(b & !8, j) == (j != 4 && BitOf(b, j))
    ensures BitOf(b & !4, j) == (j != 5 && BitOf(b, j))
    ensures BitOf(b & !2, j) == (j != 6 && BitOf(b, j))
    ensures BitOf(b & !1, j) == (j != 7 && BitOf(b, j))
  {
    hide BitOf;
    ClearHighCases(b, j);
    ClearLowCases(b, j);
  }

  lemma ClearHighCases(b: bv8, j: nat)
    requires j < 8
    ensures BitOf(b & !128, j) == (j != 0 && BitOf(b, j))
    ensures BitOf(b & !64, j) == (j != 1 && BitOf(b, j))
    ensures BitOf(b & !32, j) == (j != 2 && BitOf(b, j))
    ensures BitOf(b & !16, j) == (j != 3 && BitOf(b, j))
  {
    if j == 0 {} else if j == 1 {} else if j == 2 {} else if j == 3 {}
    else if j == 4 {} else if j == 5 {} else if j == 6 {} else {}
  }

  lemma ClearLowCases(b: bv8, j: nat)
    requires j < 8
    ensures BitOf(b & !8, j) == (j != 4 && BitOf(b, j))
    ensures BitOf(b & !4, j) == (j != 5 && BitOf(b, j))
    ensures BitOf(b & !2, j) == (j != 6 && BitOf(b, j))
    ensures BitOf(b & !1, j) == (j != 7 && BitOf(b, j))
  {
    if j == 0 {} else if j == 1 {} else if j == 2 {} else if j == 3 {}
    else if j == 4 {} else if j == 5 {} else if j == 6 {} else {}
  }

  /** A byte is zero exactly when none of its eight bits is set. */
  lemma ZeroByte(b: bv8)
    ensures b == 0 <==> forall j :: 0 <= j < 8 ==> !BitOf(b, j)
  {
    if b != 0 {
      assert BitOf(b, 0) || BitOf(b, 1) || BitOf(b, 2) || BitOf(b, 3)
          || BitOf(b, 4) || BitOf(b, 5) || BitOf(b, 6) || BitOf(b, 7);
    } else {
      forall j | 0 <= j < 8
        ensures !BitOf(b, j)
      {
        if j == 0 {} else if j == 1 {} else if j == 2 {} else if j == 3 {}
        else if j == 4 {} else if j == 5 {} else if j == 6 {} else {}
      }
    }
  }

  lemma BitsAt(bytes: seq<bv8>)
    ensures forall n :: 0 <= n < 8 * |bytes| ==> Bits(bytes)[n] == BitOf(bytes[n / 8], n % 8)
  {
    hide BitOf;
  }

  /** Changing bit k of byte i changes bit 8 * i + k of the map and no other. */
  lemma BitInMap(bytes: seq<bv8>, i: nat, k: nat, byte: bv8, bit: bool)
    requires i < |bytes| && k < 8 && forall j :: 0 <= j < 8 ==> BitOf(byte, j) == if j == k then bit else BitOf(bytes[i], j)
    ensures Bits(bytes[i := byte]) == Bits(bytes)[8 * i + k := bit]
  {
    hide BitOf, Bits;
    BitsAt(bytes);
    var after, wanted := bytes[i := byte], Bits(bytes)[8 * i + k := bit];
    BitsAt(after);
    forall n | 0 <= n < 8 * |bytes|
      ensures Bits(after)[n] == wanted[n]
    {
      assert n == 8 * (n / 8) + n % 8;
    }
  }

  lemma SetInMap(bytes: seq<bv8>, i: nat, k: nat)
    requires i < |bytes| && k < 8
    ensures Bits(bytes[i := bytes[i] | Mask(k)]) == Bits(bytes)[8 * i + k := true]
  {
    hide BitOf, Mask, Bits;
    forall j | 0 <= j < 8 { MaskChangesOneBit(bytes[i], k, j); }
    BitInMap(bytes, i, k, bytes[i] | Mask(k), true);
  }

  lemma ClearInMap(bytes: seq<bv8>, i: nat, k: nat)
    requires i < |bytes| && k < 8
    ensures Bits(bytes[i := bytes[i] & !Mask(k)]) == Bits(bytes)[8 * i + k := false]
  {
    hide BitOf, Mask, Bits;
    forall j | 0 <= j < 8 { MaskChangesOneBit(bytes[i], k, j); }
    BitInMap(bytes, i, k, bytes[i] & !Mask(k), false);
  }

  method SetBit(bitmap: array<bv8>, n: nat)
    requires n < 8 * bitmap.Length
    modifies bitmap
    ensures Bits(bitmap[..]) == old(Bits(bitmap[..]))[n := true]
  {
    hide Mask, Bits;
    SetInMap(bitmap[..], n / 8, n % 8);
    bitmap[n / 8] := bitmap[n / 8] | Mask(n % 8);
    assert bitmap[..] == old(bitmap[..])[n / 8 := old(bitmap[..])[n / 8] | Mask(n % 8)];
  }

  method ClearBit(bitmap: array<bv8>, n: nat)
    requires n < 8 * bitmap.Length
    modifies bitmap
    ensures Bits(bitmap[..]) == old(Bits(bitmap[..]))[n := false]
  {
    hide Mask, Bits;
    ClearInMap(bitmap[..], n / 8, n % 8);
    bitmap[n / 8] := bitmap[n / 8] & !Mask(n % 8);
    assert bitmap[..] == old(bitmap[..])[n / 8 := old(bitmap[..])[n / 8] & !Mask(n % 8)];
  }

  method GetBit(bitmap: array<bv8>, n: nat) returns (bit: bool)
    requires n < 8 * bitmap.Length
    ensures bit == Bits(bitmap[..])[n]
  {
    bit := (bitmap[n / 8] >> (7 - n % 8)) & 1 == 1;
  }
}
