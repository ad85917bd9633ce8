/** calcsum: the Internet checksum over little-endian 16-bit words, in a 32-bit accumulator. */
module Checksum {
  import opened Words

  const ACCUMULATOR := 0x1_0000_0000

  function Word16(lo: Byte, hi: Byte): (w: nat)
    ensures w < 0x1_0000
  {
    lo + 256 * hi
  }

  /** Sum of the words; an odd last byte counts as a low byte. */
  function Sum(b: seq<Byte>): (s: nat)
    ensures s <= |b| * 0x8000
  {
    if b == [] then 0
    else if |b| == 1 then b[0]
    else Word16(b[0], b[1]) + Sum(b[2..])
  }

  /** High half added to the low half, the carry added again, the low half taken. */
  function Fold(sum: nat): (f: nat)
    ensures f < 0x1_0000
  {
    var once := sum / 0x1_0000 + sum % 0x1_0000;
    (once + once / 0x1_0000) % 0x1_0000
  }

  function Calc(b: seq<Byte>): (c: nat)
    ensures c < 0x1_0000
  {
    0xFFFF - Fold(Sum(b) % ACCUMULATOR)
  }

  /** Folding is the remainder by 65535, with 65535 instead of 0 for a positive sum. */
  lemma FoldIsRemainder(sum: nat)
    requires sum < ACCUMULATOR
    ensures Fold(sum) % 0xFFFF == sum % 0xFFFF && (Fold(sum) == 0 <==> sum == 0)
  {
    var hi, lo := sum / 0x1_0000, sum % 0x1_0000;
    assert sum == hi * 0xFFFF + (hi + lo);
    SameRemainder(hi + lo, hi);
    if hi + lo >= 0x1_0000 {
      assert Fold(sum) == hi + lo - 0xFFFF;
      SameRemainder(hi + lo - 0xFFFF, 1);
    }
  }

  lemma SameRemainder(x: nat, k: nat)
    ensures (x + k * 0xFFFF) % 0xFFFF == x % 0xFFFF
  {
    DivUnique(x + k * 0xFFFF, 0xFFFF, x / 0xFFFF + k, x % 0xFFFF);
  }

  /** Two folded sums with the same remainder, both zero or both positive, are equal. */
  lemma FoldedEqual(f: nat, g: nat)
    requires f < 0x1_0000 && g < 0x1_0000 && f % 0xFFFF == g % 0xFFFF && (f == 0 <==> g == 0)
    ensures f == g
  {}

  // ---------------------------------------------------------------- a checksum field makes the whole sum 0

  lemma {:induction false} SumOfUpdate(b: seq<Byte>, at: nat, lo: Byte, hi: Byte)
    requires at % 2 == 0 && at + 2 <= |b| && b[at] == 0 && b[at + 1] == 0
    ensures Sum(b[at := lo][at + 1 := hi]) == Sum(b) + Word16(lo, hi)
    decreases |b|
  {
    var c := b[at := lo][at + 1 := hi];
    if at == 0 {
      assert c[2..] == b[2..];
    } else {
      assert c[2..] == b[2..][at - 2 := lo][at - 1 := hi];
      SumOfUpdate(b[2..], at - 2, lo, hi);
    }
  }

  /** The buffer with a word stored at an offset. */
  function Stored(b: seq<Byte>, at: nat, w: nat): (c: seq<Byte>)
    requires at + 2 <= |b| && w < 0x1_0000
    ensures |c| == |b|
  {
    b[at := w % 256][at + 1 := w / 256]
  }

  /** Storing the checksum in its zeroed field makes the checksum of the whole 0, for even and odd lengths. */
  lemma StoredChecksumVerifies(b: seq<Byte>, at: nat)
    requires |b| <= 0xFFFF && at % 2 == 0 && at + 2 <= |b| && b[at] == 0 && b[at + 1] == 0
    ensures Calc(Stored(b, at, Calc(b))) == 0
  {
    hide Sum, Fold, Calc, Stored;
    var c, s := Calc(b), Sum(b);
    SumOfStored(b, at, c);
    CalcOfSum(b);
    CalcOfSum(Stored(b, at, c));
    FoldIsRemainder(s);
    FoldIsRemainder(s + c);
    ComplementCancels(s, Fold(s));
    FoldedEqual(Fold(s + c), 0xFFFF);
  }

  /** An odd number of bytes counts as if a zero byte followed. */
  lemma {:induction false} OddIsPadded(b: seq<Byte>)
    requires |b| % 2 == 1
    ensures Sum(b + [0]) == Sum(b) && Calc(b + [0]) == Calc(b)
  {
    if |b| == 1 {
      assert (b + [0])[2..] == [];
    } else {
      OddIsPadded(b[2..]);
      assert (b + [0])[2..] == b[2..] + [0];
    }
  }

  /** No sum of at most 65535 bytes wraps the accumulator. */
  lemma CalcOfSum(b: seq<Byte>)
    requires |b| <= 0xFFFF
    ensures Calc(b) == 0xFFFF - Fold(Sum(b)) && Sum(b) + 0xFFFF < ACCUMULATOR
  {
    hide Fold, Sum;
  }

  lemma SumOfStored(b: seq<Byte>, at: nat, w: nat)
    requires at % 2 == 0 && at + 2 <= |b| && b[at] == 0 && b[at + 1] == 0 && w < 0x1_0000
    ensures Sum(Stored(b, at, w)) == Sum(b) + w
  {
    hide Sum;
    SumOfUpdate(b, at, w % 256, w / 256);
  }

  lemma ComplementCancels(s: nat, f: nat)
    requires f <= 0xFFFF && f % 0xFFFF == s % 0xFFFF
    ensures (s + (0xFFFF - f)) % 0xFFFF == 0
  {
    var q, p, r := s / 0xFFFF, f / 0xFFFF, s % 0xFFFF;
    DivUnique(s + 0xFFFF - f, 0xFFFF, q + 1 - p, 0);
  }

  // ---------------------------------------------------------------- byte order

  /** Both bytes of every word exchanged. */
  function Swapped(b: seq<Byte>): (c: seq<Byte>)
    requires |b| % 2 == 0
    ensures |c| == |b|
  {
    if b == [] then [] else [b[1], b[0]] + Swapped(b[2..])
  }

  function Swap16(w: nat): (v: nat)
    requires w < 0x1_0000
    ensures v < 0x1_0000
  {
    w % 256 * 256 + w / 256
  }

  /** Exchanging bytes multiplies by 256, modulo 65535. */
  lemma SwapIsTimes256(lo: Byte, hi: Byte)
    ensures Word16(hi, lo) + hi * 0xFFFF == 256 * Word16(lo, hi)
  {}

  /** How far 256 * Sum(b) lies above the swapped sum, in units of 65535. */
  function HighBytes(b: seq<Byte>): nat
    requires |b| % 2 == 0
  {
    if b == [] then 0 else b[1] + HighBytes(b[2..])
  }

  lemma {:induction false} SumOfSwapped(b: seq<Byte>)
    requires |b| % 2 == 0
    ensures Sum(Swapped(b)) + HighBytes(b) * 0xFFFF == 256 * Sum(b) && (Sum(b) == 0 <==> Sum(Swapped(b)) == 0)
  {
    if b != [] {
      SumOfSwapped(b[2..]);
      SwapIsTimes256(b[0], b[1]);
      assert Swapped(b)[2..] == Swapped(b[2..]);
    }
  }

  lemma Times256(x: nat, y: nat)
    requires x % 0xFFFF == y % 0xFFFF
    ensures (256 * x) % 0xFFFF == (256 * y) % 0xFFFF
  {
    SameRemainder(256 * (x % 0xFFFF), 256 * (x / 0xFFFF));
    SameRemainder(256 * (y % 0xFFFF), 256 * (y / 0xFFFF));
  }

  /** On even lengths, exchanging the bytes of every word exchanges the bytes of the checksum: the machine's
      byte order does not matter. */
  lemma SwappedChecksum(b: seq<Byte>)
    requires |b| % 2 == 0 && |b| <= 0xFFFF
    ensures Calc(Swapped(b)) == Swap16(Calc(b))
  {
    hide Fold, Sum, Calc, Swapped, Swap16, HighBytes;
    CalcOfSum(b);
    CalcOfSum(Swapped(b));
    var s, t := Sum(b), Sum(Swapped(b));
    SumOfSwapped(b);
    FoldIsRemainder(s);
    FoldIsRemainder(t);
    var f, g := Fold(s), Fold(t);
    SwapFolded(f);
    SameRemainder(t, HighBytes(b));
    Times256(f, s);
    FoldedEqual(g, Swap16(f));
    SwapComplement(f);
  }

  lemma SwapFolded(f: nat)
    requires f < 0x1_0000
    ensures Swap16(f) % 0xFFFF == (256 * f) % 0xFFFF && (Swap16(f) == 0 <==> f == 0)
  {
    assert 256 * f == Swap16(f) + f / 256 * 0xFFFF;
    SameRemainder(Swap16(f), f / 256);
  }

  lemma SwapComplement(f: nat)
    requires f < 0x1_0000
    ensures Swap16(0xFFFF - f) == 0xFFFF - Swap16(f)
  {
    DivUnique(0xFFFF - f, 256, 255 - f / 256, 255 - f % 256);
  }

  // ---------------------------------------------------------------- the loop

  lemma WrapAdd(x: nat, y: nat)
    ensures (x % ACCUMULATOR + y) % ACCUMULATOR == (x + y) % ACCUMULATOR
  {
    var q, r := x / ACCUMULATOR, (x % ACCUMULATOR + y) % ACCUMULATOR;
    DivUnique(x + y, ACCUMULATOR, q + (x % ACCUMULATOR + y) / ACCUMULATOR, r);
  }

  /** The words in front of position i; reading from the other end gives the same sum. */
  lemma {:induction false} SumOfAppend(a: seq<Byte>, b: seq<Byte>)
    requires |a| % 2 == 0
    ensures Sum(a + b) == Sum(a) + Sum(b)
    decreases |a|
  {
    if a == [] {
      assert a + b == b;
    } else {
      assert (a + b)[2..] == a[2..] + b;
      SumOfAppend(a[2..], b);
    }
  }

  lemma AddWord(b: seq<Byte>, at: nat, i: nat)
    requires at <= i && i + 2 <= |b| && (i - at) % 2 == 0
    ensures Sum(b[at..i + 2]) % ACCUMULATOR == (Sum(b[at..i]) % ACCUMULATOR + Word16(b[i], b[i + 1])) % ACCUMULATOR
  {
    hide Sum, Word16;
    assert b[at..i + 2] == b[at..i] + [b[i], b[i + 1]];
    SumOfAppend(b[at..i], [b[i], b[i + 1]]);
    OneWord(b[i], b[i + 1]);
    WrapAdd(Sum(b[at..i]), Word16(b[i], b[i + 1]));
  }

  lemma AddByte(b: seq<Byte>, at: nat, i: nat)
    requires at <= i < |b| && (i - at) % 2 == 0
    ensures Sum(b[at..i + 1]) % ACCUMULATOR == (Sum(b[at..i]) % ACCUMULATOR + b[i]) % ACCUMULATOR
  {
    hide Sum;
    assert b[at..i + 1] == b[at..i] + [b[i]];
    SumOfAppend(b[at..i], [b[i]]);
    OneByte(b[i]);
    WrapAdd(Sum(b[at..i]), b[i]);
  }

  /** ~ on the folded 32-bit value, cut to 16 bits. */
  lemma Folding(sum: nat)
    requires sum < ACCUMULATOR
    ensures var once := sum / 0x1_0000 + sum % 0x1_0000; var twice := once + once / 0x1_0000;
      twice < ACCUMULATOR && (ACCUMULATOR - 1 - twice) % 0x1_0000 == 0xFFFF - Fold(sum)
  {
    var once := sum / 0x1_0000 + sum % 0x1_0000;
    var twice := once + once / 0x1_0000;
    DivUnique(ACCUMULATOR - 1 - twice, 0x1_0000, 0xFFFF - twice / 0x1_0000, 0xFFFF - twice % 0x1_0000);
  }

  /** calcsum on `length` bytes of memory from `at` on. */
  method CalcSum(buffer: array<Byte>, at: nat, length: nat) returns (c: nat)
    requires at + length <= buffer.Length
    ensures c == Calc(buffer[at..at + length])
  {
    hide Sum, Fold, Word16;
    var sum, i, left := 0, at, length;
    assert buffer[at..at] == [];
    while left > 1
      invariant at <= i && i + left == at + length && (i - at) % 2 == 0 && 0 <= left && 0 <= sum
      invariant sum == Sum(buffer[at..i]) % ACCUMULATOR
    {
      AddWord(buffer[..], at, i);
      sum := (sum + Word16(buffer[i], buffer[i + 1])) % ACCUMULATOR;
      i := i + 2;
      left := left - 2;
    }
    if left == 1 {
      AddByte(buffer[..], at, i);
      sum := (sum + buffer[i]) % ACCUMULATOR;
    }
    Folding(sum);
    sum := sum / 0x1_0000 + sum % 0x1_0000;
    sum := sum + sum / 0x1_0000;
    c := (ACCUMULATOR - 1 - sum) % 0x1_0000;
  }

  lemma OneWord(lo: Byte, hi: Byte)
    ensures Sum([lo, hi]) == Word16(lo, hi)
  {
    assert [lo, hi][2..] == [];
  }

  lemma OneByte(b: Byte)
    ensures Sum([b]) == b
  {}
}
