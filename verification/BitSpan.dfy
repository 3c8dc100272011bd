/**
 * Copying runs of bits between byte strings (uacpi/source/io.c).
 *
 * Bits are numbered from the low end of the first byte, so bit i of a byte
 * string is bit i % 8 of byte i / 8.  The copy moves up to eight bits at a
 * time through a shifted byte and a 16-bit mask.
 */
module BitSpan {

  /** The 8-bit value of a small number. */
  function Small(n: nat): bv8
    requires n < 16
  {
    if n < 8 then
      (if n < 4 then
         (if n == 0 then 0 else if n == 1 then 1 else if n == 2 then 2 else 3)
       else
         (if n == 4 then 4 else if n == 5 then 5 else if n == 6 then 6 else 7))
    else
      (if n < 12 then
         (if n == 8 then 8 else if n == 9 then 9 else if n == 10 then 10 else 11)
       else
         (if n == 12 then 12 else if n == 13 then 13 else if n == 14 then 14 else 15))
  }

  predicate TestBit(b: bv8, k: bv8)
    requires k < 8
  {
    (b >> k) & 1 == 1
  }

  /** Bit k of a byte, counting from the low end. */
  predicate BitOf(b: bv8, k: nat) {
    k < 8 && TestBit(b, Small(k))
  }

  /** Bit i of a byte string; past its end every bit is clear. */
  predicate Bit(s: seq<bv8>, i: int) {
    0 <= i < 8 * |s| && BitOf(s[i / 8], i % 8)
  }

  // ----- one step of the copy, on bytes -----

  /** The low `count` bits of a byte. */
  function LowMask(count: bv8): bv8
    requires count <= 8
  {
    if count < 8 then (1 << count) - 1 else 0xFF
  }

  /** Up to eight bits taken from two neighbouring bytes, starting at bit `shift` of the first. */
  function Gather(lo: bv8, hi: bv8, shift: bv8, count: bv8): bv8
    requires shift < 8 && count <= 8
  {
    ((lo >> shift) | (if shift != 0 && count > 8 - shift then hi << (8 - shift) else 0)) & LowMask(count)
  }

  function DstMask(shift: bv8, count: bv8): bv16
    requires shift < 8 && count <= 8
  {
    (LowMask(count) as bv16) << shift
  }

  /** The first byte a step stores. */
  function ScatterLow(d: bv8, bits: bv8, shift: bv8, count: bv8): bv8
    requires shift < 8 && count <= 8
  {
    var mask := DstMask(shift, count);
    (((d as bv16 & !mask) | (((bits as bv16) << shift) & mask)) & 0xFF) as bv8
  }

  /** The second byte, when the step spills over. */
  function ScatterHigh(d: bv8, bits: bv8, shift: bv8, count: bv8): bv8
    requires 0 < shift < 8 && count <= 8
  {
    var mask := DstMask(shift, count) >> 8;
    (((d as bv16 & !mask) | (((bits >> (8 - shift)) as bv16) & mask)) & 0xFF) as bv8
  }

  lemma GatherBit(lo: bv8, hi: bv8, shift: bv8, count: bv8, k: bv8)
    requires shift < 8 && count <= 8 && k < 8
    ensures TestBit(Gather(lo, hi, shift, count), k)
         == (k < count && if shift + k < 8 then TestBit(lo, shift + k) else TestBit(hi, shift + k - 8))
  {
  }

  lemma ScatterLowBit(d: bv8, bits: bv8, shift: bv8, count: bv8, k: bv8)
    requires shift < 8 && count <= 8 && k < 8
    ensures TestBit(ScatterLow(d, bits, shift, count), k)
         == if shift <= k && k - shift < count then TestBit(bits, k - shift) else TestBit(d, k)
  {
  }

  lemma ScatterHighBit(d: bv8, bits: bv8, shift: bv8, count: bv8, k: bv8)
    requires 0 < shift < 8 && count <= 8 && k < 8
    ensures TestBit(ScatterHigh(d, bits, shift, count), k)
         == if k + 8 - shift < count then TestBit(bits, k + 8 - shift) else TestBit(d, k)
  {
  }

  // ----- the same step, on numbered bits -----

  lemma SmallOrder(a: nat, b: nat)
    requires a < 16 && b < 16
    ensures Small(a) < Small(b) <==> a < b
  {
  }

  lemma SmallNext(n: nat)
    requires n < 15
    ensures Small(n + 1) == Small(n) + 1
  {
  }

  lemma {:induction false} SmallSum(a: nat, b: nat)
    requires a + b < 16
    ensures Small(a) + Small(b) == Small(a + b)
  {
    if b == 0 {
      assert Small(0) == 0;
    } else {
      hide Small;
      SmallSum(a, b - 1);
      SmallNext(b - 1);
      SmallNext(a + b - 1);
    }
  }

  lemma GatherBits(lo: bv8, hi: bv8, shift: nat, count: nat)
    requires shift < 8 && count <= 8
    ensures Small(shift) < 8 && Small(count) <= 8
    ensures forall k: nat | k < 8 ::
              BitOf(Gather(lo, hi, Small(shift), Small(count)), k)
              == (k < count && if shift + k < 8 then BitOf(lo, shift + k) else BitOf(hi, shift + k - 8))
  {
    SmallOrder(shift, 8);
    SmallOrder(8, count);
    forall k: nat | k < 8
      ensures BitOf(Gather(lo, hi, Small(shift), Small(count)), k)
           == (k < count && if shift + k < 8 then BitOf(lo, shift + k) else BitOf(hi, shift + k - 8))
    {
      hide Small, Gather, TestBit;
      SmallOrder(k, 8);
      SmallOrder(k, count);
      SmallSum(shift, k);
      SmallOrder(shift + k, 8);
      if shift + k >= 8 {
        SmallSum(shift + k - 8, 8);
        assert Small(8) == 8 by { SmallEight(); }
        SmallOrder(shift + k - 8, 8);
      }
      GatherBit(lo, hi, Small(shift), Small(count), Small(k));
    }
  }

  lemma SmallEight()
    ensures Small(8) == 8
  {
  }

  lemma SmallDifference(a: nat, b: nat)
    requires b <= a < 16
    ensures Small(a) - Small(b) == Small(a - b)
  {
    hide Small;
    SmallSum(a - b, b);
  }

  lemma ScatterLowBitAt(d: bv8, bits: bv8, shift: nat, count: nat, k: nat)
    requires shift < 8 && count <= 8 && k < 8
    requires Small(shift) < 8 && Small(count) <= 8
    ensures BitOf(ScatterLow(d, bits, Small(shift), Small(count)), k)
         == if shift <= k < shift + count then BitOf(bits, k - shift) else BitOf(d, k)
  {
    hide Small, ScatterLow, TestBit;
    SmallOrder(k, 8);
    SmallEight();
    SmallOrder(k, shift);
    ScatterLowBit(d, bits, Small(shift), Small(count), Small(k));
    if shift <= k {
      SmallDifference(k, shift);
      SmallOrder(k - shift, count);
    }
  }

  lemma ScatterLowBits(d: bv8, bits: bv8, shift: nat, count: nat)
    requires shift < 8 && count <= 8
    ensures Small(shift) < 8 && Small(count) <= 8
    ensures forall k: nat | k < 8 ::
              BitOf(ScatterLow(d, bits, Small(shift), Small(count)), k)
              == if shift <= k < shift + count then BitOf(bits, k - shift) else BitOf(d, k)
  {
    hide Small, ScatterLow, BitOf;
    SmallEight();
    SmallOrder(shift, 8);
    SmallOrder(8, count);
    forall k: nat | k < 8 {
      ScatterLowBitAt(d, bits, shift, count, k);
    }
  }

  lemma ScatterHighBitAt(d: bv8, bits: bv8, shift: nat, count: nat, k: nat)
    requires 0 < shift < 8 && count <= 8 && k < 8
    requires 0 < Small(shift) < 8 && Small(count) <= 8
    ensures BitOf(ScatterHigh(d, bits, Small(shift), Small(count)), k)
         == if k + 8 < shift + count then BitOf(bits, k + 8 - shift) else BitOf(d, k)
  {
    hide Small, ScatterHigh, TestBit;
    SmallEight();
    SmallOrder(k, 8);
    SmallSum(k, 8);
    SmallDifference(k + 8, shift);
    SmallOrder(k + 8 - shift, count);
    ScatterHighBit(d, bits, Small(shift), Small(count), Small(k));
  }

  lemma ScatterHighBits(d: bv8, bits: bv8, shift: nat, count: nat)
    requires 0 < shift < 8 && count <= 8
    ensures 0 < Small(shift) < 8 && Small(count) <= 8
    ensures forall k: nat | k < 8 ::
              BitOf(ScatterHigh(d, bits, Small(shift), Small(count)), k)
              == if k + 8 < shift + count then BitOf(bits, k + 8 - shift) else BitOf(d, k)
  {
    SmallOrder(0, shift);
    assert Small(0) == 0;
    hide Small, ScatterHigh, BitOf;
    SmallEight();
    SmallOrder(shift, 8);
    SmallOrder(8, count);
    forall k: nat | k < 8 {
      ScatterHighBitAt(d, bits, shift, count, k);
    }
  }

  function Min(a: nat, b: nat): nat {
    if a < b then a else b
  }

  /** What one step leaves in the destination. */
  function Stored(s: seq<bv8>, p: nat, shift: nat, count: nat, bits: bv8): (r: seq<bv8>)
    requires shift < 8 && 0 < count <= 8 && 8 * p + shift + count <= 8 * |s|
    ensures |r| == |s|
  {
    ScatterLowBits(s[p], bits, shift, count);
    var low := s[p := ScatterLow(s[p], bits, Small(shift), Small(count))];
    if shift != 0 && count > 8 - shift then
      ScatterHighBits(s[p + 1], bits, shift, count);
      low[p + 1 := ScatterHigh(s[p + 1], bits, Small(shift), Small(count))]
    else
      low
  }

  lemma StoredByte(s: seq<bv8>, p: nat, shift: nat, count: nat, bits: bv8, q: nat, k: nat)
    requires shift < 8 && 0 < count <= 8 && 8 * p + shift + count <= 8 * |s|
    requires q < |s| && k < 8
    ensures BitOf(Stored(s, p, shift, count, bits)[q], k)
         == if 8 * p + shift <= 8 * q + k < 8 * p + shift + count then BitOf(bits, 8 * q + k - 8 * p - shift)
            else BitOf(s[q], k)
  {
    hide Small, ScatterLow, ScatterHigh, BitOf;
    if q == p {
      ScatterLowBits(s[p], bits, shift, count);
    } else if q == p + 1 && shift != 0 && count > 8 - shift {
      ScatterHighBits(s[p + 1], bits, shift, count);
    }
  }

  /** A step replaces exactly the bits of its window. */
  lemma StoredBitAt(s: seq<bv8>, p: nat, shift: nat, count: nat, bits: bv8, i: int)
    requires shift < 8 && 0 < count <= 8 && 8 * p + shift + count <= 8 * |s|
    ensures Bit(Stored(s, p, shift, count, bits), i)
         == if 8 * p + shift <= i < 8 * p + shift + count then BitOf(bits, i - 8 * p - shift) else Bit(s, i)
  {
    hide Stored, BitOf;
    if 0 <= i < 8 * |s| {
      StoredByte(s, p, shift, count, bits, i / 8, i % 8);
    }
  }

  method Store(dst: array<bv8>, p: nat, shift: nat, count: nat, bits: bv8)
    requires shift < 8 && 0 < count <= 8 && 8 * p + shift + count <= 8 * dst.Length
    modifies dst
    ensures dst[..] == Stored(old(dst[..]), p, shift, count, bits)
  {
    ScatterLowBits(dst[p], bits, shift, count);
    dst[p] := ScatterLow(dst[p], bits, Small(shift), Small(count));
    if shift != 0 && count > 8 - shift {
      ScatterHighBits(dst[p + 1], bits, shift, count);
      dst[p + 1] := ScatterHigh(dst[p + 1], bits, Small(shift), Small(count));
    }
  }

  /** The bits one step fetches from the source. */
  function Fetched(src: seq<bv8>, p: nat, shift: nat, count: nat): bv8
    requires shift < 8 && 0 < count && 8 * p + shift + count <= 8 * |src|
  {
    var hi := if shift != 0 && count > 8 - shift then src[p + 1] else 0;
    GatherBits(src[p], hi, shift, Min(count, 8));
    Gather(src[p], hi, Small(shift), Small(Min(count, 8)))
  }

  lemma FetchedBits(src: seq<bv8>, p: nat, shift: nat, count: nat)
    requires shift < 8 && 0 < count && 8 * p + shift + count <= 8 * |src|
    ensures forall k: nat | k < 8 ::
              BitOf(Fetched(src, p, shift, count), k) == (k < count && Bit(src, 8 * p + shift + k))
  {
    hide Small, Gather, BitOf;
    var hi := if shift != 0 && count > 8 - shift then src[p + 1] else 0;
    GatherBits(src[p], hi, shift, Min(count, 8));
    forall k: nat | k < 8
      ensures BitOf(Fetched(src, p, shift, count), k) == (k < count && Bit(src, 8 * p + shift + k))
    {
      var at := shift + k;
      assert at < 8 ==> (8 * p + at) / 8 == p && (8 * p + at) % 8 == at;
      assert at >= 8 ==> (8 * p + at) / 8 == p + 1 && (8 * p + at) % 8 == at - 8;
    }
  }

  lemma ZeroHasNoBits()
    ensures forall k: nat | k < 8 :: !BitOf(0, k)
  {
    forall k: nat | k < 8 ensures !BitOf(0, k) {
      SmallOrder(k, 8);
      ZeroBit(Small(k));
    }
  }

  lemma ZeroBit(k: bv8)
    requires k < 8
    ensures !TestBit(0, k)
  {
  }

  /** Bit i of a destination into which `done` bits of a span have been copied. */
  ghost predicate Copied(was: seq<bv8>, to: int, done: int, src: seq<bv8>, from: int, count: int, i: int) {
    if to <= i < to + done then i - to < count && Bit(src, from + i - to) else Bit(was, i)
  }

  ghost predicate IsCopy(now: seq<bv8>, was: seq<bv8>, to: int, done: int, src: seq<bv8>, from: int, count: int) {
    |now| == |was| && forall i :: Bit(now, i) == Copied(was, to, done, src, from, count, i)
  }

  lemma StepExtendsCopy(s: seq<bv8>, was: seq<bv8>, to: nat, length: nat,
                        src: seq<bv8>, from: nat, count: nat, n: nat, bits: bv8)
    requires |s| == |was| && to + length <= 8 * |s| && 8 * n < length
    requires IsCopy(s, was, to, 8 * n, src, from, count)
    requires forall k: nat | k < 8 :: BitOf(bits, k) == (k < count - 8 * n && Bit(src, from + 8 * n + k))
    ensures IsCopy(Stored(s, to / 8 + n, to % 8, Min(length - 8 * n, 8), bits), was, to,
                   Min(8 * n + 8, length), src, from, count)
  {
    hide Bit, BitOf, Stored;
    var r := Stored(s, to / 8 + n, to % 8, Min(length - 8 * n, 8), bits);
    forall i ensures Bit(r, i) == Copied(was, to, Min(8 * n + 8, length), src, from, count, i) {
      StoredBitAt(s, to / 8 + n, to % 8, Min(length - 8 * n, 8), bits, i);
    }
  }

  /**
   * Copies a span of bits: dstLength bits land at dstIndex, taken from srcIndex on
   * and filled with zeroes past srcLength; no other bit changes.
   */
  method BitCopy(dst: array<bv8>, dstIndex: nat, dstLength: nat, src: seq<bv8>, srcIndex: nat, srcLength: nat)
    requires dstIndex + dstLength <= 8 * dst.Length
    requires srcIndex + srcLength <= 8 * |src|
    modifies dst
    ensures IsCopy(dst[..], old(dst[..]), dstIndex, dstLength, src, srcIndex, srcLength)
  {
    hide Fetched, Stored, BitOf, Bit;
    var dstPtr, srcPtr := dstIndex / 8, srcIndex / 8;
    var dstCount, dstShift := dstLength, dstIndex % 8;
    var srcCount, srcShift := srcLength, srcIndex % 8;
    ghost var n := 0;
    while dstCount != 0
      invariant dstCount == if 8 * n < dstLength then dstLength - 8 * n else 0
      invariant srcCount == if 8 * n < srcLength then srcLength - 8 * n else 0
      invariant dstPtr == dstIndex / 8 + n
      invariant srcPtr <= srcIndex / 8 + n
      invariant srcCount != 0 ==> srcPtr == srcIndex / 8 + n
      invariant IsCopy(dst[..], old(dst[..]), dstIndex, Min(8 * n, dstLength), src, srcIndex, srcLength)
    {
      var bits: bv8 := 0;
      if srcCount != 0 {
        FetchedBits(src, srcPtr, srcShift, srcCount);
        bits := Fetched(src, srcPtr, srcShift, srcCount);
        if srcCount < 8 {
          srcCount := 0;
        } else {
          srcCount := srcCount - 8;
          srcPtr := srcPtr + 1;
        }
      } else {
        ZeroHasNoBits();
      }
      StepExtendsCopy(dst[..], old(dst[..]), dstIndex, dstLength, src, srcIndex, srcLength, n, bits);
      Store(dst, dstPtr, dstShift, Min(dstCount, 8), bits);
      dstCount := if dstCount > 8 then dstCount - 8 else 0;
      dstPtr := dstPtr + 1;
      n := n + 1;
    }
  }

  // ----- bytes are determined by their bits -----

  lemma SameTests(x: bv8, y: bv8)
    requires TestBit(x, 0) == TestBit(y, 0) && TestBit(x, 1) == TestBit(y, 1)
    requires TestBit(x, 2) == TestBit(y, 2) && TestBit(x, 3) == TestBit(y, 3)
    requires TestBit(x, 4) == TestBit(y, 4) && TestBit(x, 5) == TestBit(y, 5)
    requires TestBit(x, 6) == TestBit(y, 6) && TestBit(x, 7) == TestBit(y, 7)
    ensures x == y
  {
  }

  lemma SameByte(x: bv8, y: bv8)
    requires forall k: nat | k < 8 :: BitOf(x, k) == BitOf(y, k)
    ensures x == y
  {
    assert BitOf(x, 0) == BitOf(y, 0) && BitOf(x, 1) == BitOf(y, 1);
    assert BitOf(x, 2) == BitOf(y, 2) && BitOf(x, 3) == BitOf(y, 3);
    assert BitOf(x, 4) == BitOf(y, 4) && BitOf(x, 5) == BitOf(y, 5);
    assert BitOf(x, 6) == BitOf(y, 6) && BitOf(x, 7) == BitOf(y, 7);
    SameTests(x, y);
  }

  /** Two byte strings of one length are equal once all their bits are. */
  lemma SameBits(a: seq<bv8>, b: seq<bv8>)
    requires |a| == |b|
    requires forall i :: Bit(a, i) == Bit(b, i)
    ensures a == b
  {
    hide BitOf;
    forall q | 0 <= q < |a| ensures a[q] == b[q] {
      forall k: nat | k < 8 ensures BitOf(a[q], k) == BitOf(b[q], k) {
        assert (8 * q + k) / 8 == q && (8 * q + k) % 8 == k;
        assert Bit(a, 8 * q + k) == Bit(b, 8 * q + k);
      }
      SameByte(a[q], b[q]);
    }
  }
}
