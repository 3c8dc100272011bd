/**
 * Buffer fields: a run of bits inside a buffer, read and written either by
 * whole-byte copies when the run starts on a byte boundary or by the bit copy
 * otherwise (uacpi/source/io.c).  Both paths meet one bit-level contract.
 */
module BufferField {
  import opened BitSpan

  /** The bytes needed for a number of bits. */
  function RoundUpBitsToBytes(bitLength: nat): nat {
    (bitLength + 7) / 8
  }

  // ----- whole bytes -----

  function Spliced(s: seq<bv8>, at: nat, block: seq<bv8>): (r: seq<bv8>)
    requires at + |block| <= |s|
    ensures |r| == |s|
  {
    s[..at] + block + s[at + |block|..]
  }

  lemma SplicedBit(s: seq<bv8>, at: nat, block: seq<bv8>, i: int)
    requires at + |block| <= |s|
    ensures Bit(Spliced(s, at, block), i)
         == if 8 * at <= i < 8 * (at + |block|) then Bit(block, i - 8 * at) else Bit(s, i)
  {
    hide BitOf;
    if 8 * at <= i < 8 * (at + |block|) {
      assert (i - 8 * at) / 8 == i / 8 - at && (i - 8 * at) % 8 == i % 8;
    }
  }

  /** `count` bytes of a string from `from` on, zeroes where the string has run out. */
  function Padded(src: seq<bv8>, count: nat): (r: seq<bv8>)
    ensures |r| == count
  {
    if count <= |src| then src[..count] else src + seq(count - |src|, _ => 0)
  }

  lemma PaddedBit(src: seq<bv8>, count: nat, i: int)
    ensures Bit(Padded(src, count), i) == (i < 8 * count && Bit(src, i))
  {
    hide BitOf;
    ZeroHasNoBits();
  }

  lemma SliceBit(s: seq<bv8>, from: nat, to: nat, i: int)
    requires from <= to <= |s|
    ensures Bit(s[from..to], i) == (0 <= i < 8 * (to - from) && Bit(s, 8 * from + i))
  {
    hide BitOf;
    if 0 <= i < 8 * (to - from) {
      assert (8 * from + i) / 8 == from + i / 8 && (8 * from + i) % 8 == i % 8;
    }
  }

  /** memcpy_zerout: fills dst[at..at + count] from src, with zeroes past its end. */
  method CopyBytes(dst: array<bv8>, at: nat, count: nat, src: seq<bv8>)
    requires at + count <= dst.Length
    modifies dst
    ensures dst[..] == Spliced(old(dst[..]), at, Padded(src, count))
  {
    var toCopy := Min(|src|, count);
    for n := 0 to toCopy
      invariant forall j | 0 <= j < dst.Length :: dst[j] == if at <= j < at + n then src[j - at] else old(dst[j])
    {
      dst[at + n] := src[n];
    }
    for n := toCopy to count
      invariant forall j | 0 <= j < dst.Length ::
                  dst[j] == if at <= j < at + toCopy then src[j - at] else if at <= j < at + n then 0 else old(dst[j])
    {
      dst[at + n] := 0;
    }
    assert forall j | 0 <= j < dst.Length :: dst[j] == Spliced(old(dst[..]), at, Padded(src, count))[j];
  }

  // ----- trimming the last byte -----

  /** A byte with only its low bits kept. */
  function CutByte(b: bv8, remainder: bv8): bv8
    requires remainder < 8
  {
    b & ((1 << remainder) - 1)
  }

  lemma CutByteTest(b: bv8, remainder: bv8, k: bv8)
    requires remainder < 8 && k < 8
    ensures TestBit(CutByte(b, remainder), k) == (k < remainder && TestBit(b, k))
  {
  }

  lemma CutByteBit(b: bv8, remainder: nat, k: nat)
    requires remainder < 8
    ensures Small(remainder) < 8
    ensures BitOf(CutByte(b, Small(remainder)), k) == (k < remainder && BitOf(b, k))
  {
    hide CutByte, TestBit, Small;
    SmallEight();
    SmallOrder(remainder, 8);
    if k < 8 {
      SmallOrder(k, 8);
      SmallOrder(k, remainder);
      CutByteTest(b, Small(remainder), Small(k));
    }
  }

  /** Clears the bits of the last byte that lie past the end of the field. */
  method CutMisalignedTail(data: array<bv8>, offset: int, bitLength: nat)
    requires bitLength % 8 != 0 ==> 0 <= offset < data.Length
    modifies data
    ensures forall i :: Bit(data[..], i)
                        == (Bit(old(data[..]), i)
                          && !(bitLength % 8 != 0 && 8 * offset + bitLength % 8 <= i < 8 * offset + 8))
  {
    hide BitOf, CutByte, Small;
    var remainder := bitLength % 8;
    if remainder == 0 {
      return;
    }
    CutByteBit(data[offset], remainder, 0);
    data[offset] := CutByte(data[offset], Small(remainder));
    forall i
      ensures Bit(data[..], i) == (Bit(old(data[..]), i) && !(8 * offset + remainder <= i < 8 * offset + 8))
    {
      CutByteBit(old(data[offset]), remainder, i % 8);
    }
  }

  /** The write's repair of its last byte: `keep` low bits of the new byte under the rest of the old one. */
  function JoinByte(n: bv8, o: bv8, keep: bv8): bv8
    requires 0 < keep < 8
  {
    var lastShift := 8 - keep;
    ((n << lastShift) >> lastShift) | ((o >> keep) << keep)
  }

  lemma JoinByteTest(n: bv8, o: bv8, keep: bv8, k: bv8)
    requires 0 < keep < 8 && k < 8
    ensures TestBit(JoinByte(n, o, keep), k) == if k < keep then TestBit(n, k) else TestBit(o, k)
  {
  }

  lemma JoinByteBit(n: bv8, o: bv8, keep: nat, k: nat)
    requires 0 < keep < 8
    ensures 0 < Small(keep) < 8
    ensures BitOf(JoinByte(n, o, Small(keep)), k) == if k < keep then BitOf(n, k) else BitOf(o, k)
  {
    SmallOrder(0, keep);
    assert Small(0) == 0;
    hide JoinByte, TestBit, Small;
    SmallEight();
    SmallOrder(keep, 8);
    if k < 8 {
      SmallOrder(k, 8);
      SmallOrder(k, keep);
      JoinByteTest(n, o, Small(keep), Small(k));
    }
  }

  // ----- the field -----

  datatype Field = Field(bitIndex: nat, bitLength: nat)

  /** The bounds CreateField checks: a field has bits and lies within its buffer. */
  predicate Within(f: Field, size: nat) {
    f.bitLength != 0 && f.bitIndex + f.bitLength <= 8 * size
  }

  /** What a read of the field leaves in dst. */
  ghost predicate Reads(f: Field, backing: seq<bv8>, was: seq<bv8>, now: seq<bv8>) {
    IsCopy(now, was, 0, 8 * RoundUpBitsToBytes(f.bitLength), backing, f.bitIndex, f.bitLength)
  }

  /** What a write of the field does to the buffer. */
  ghost predicate Writes(f: Field, was: seq<bv8>, now: seq<bv8>, src: seq<bv8>) {
    IsCopy(now, was, f.bitIndex, f.bitLength, src, 0, 8 * |src|)
  }

  /**
   * Reads a field: its bits land at the start of dst and the rest of the last
   * byte is cleared, whichever path is taken.
   */
  method ReadBufferField(f: Field, backing: seq<bv8>, dst: array<bv8>)
    requires Within(f, |backing|) && RoundUpBitsToBytes(f.bitLength) <= dst.Length
    modifies dst
    ensures Reads(f, backing, old(dst[..]), dst[..])
  {
    hide Bit, Spliced, Padded;
    if f.bitIndex % 8 == 0 {
      var at, count := f.bitIndex / 8, RoundUpBitsToBytes(f.bitLength);
      var block := backing[at..at + count];
      CopyBytes(dst, 0, count, block);
      ghost var copied := dst[..];
      CutMisalignedTail(dst, count - 1, f.bitLength);
      forall i
        ensures Bit(dst[..], i) == Copied(old(dst[..]), 0, 8 * count, backing, f.bitIndex, f.bitLength, i)
      {
        SplicedBit(old(dst[..]), 0, Padded(block, count), i);
        PaddedBit(block, count, i);
        SliceBit(backing, at, at + count, i);
      }
      return;
    }
    BitCopy(dst, 0, 8 * RoundUpBitsToBytes(f.bitLength), backing, f.bitIndex, f.bitLength);
  }

  /**
   * Writes a field: its bits become those of src, zeroes past the end of src,
   * and no other bit of the buffer changes, whichever path is taken.
   */
  method WriteBufferField(f: Field, backing: array<bv8>, src: seq<bv8>)
    requires Within(f, backing.Length)
    modifies backing
    ensures Writes(f, old(backing[..]), backing[..], src)
  {
    hide Bit, BitOf, Spliced, Padded, Small, JoinByte;
    if f.bitIndex % 8 == 0 {
      var at, count := f.bitIndex / 8, RoundUpBitsToBytes(f.bitLength);
      var last := at + count - 1;
      var lastByte := backing[last];
      var tailShift := f.bitLength % 8;
      CopyBytes(backing, at, count, src);
      ghost var copied := backing[..];
      if tailShift != 0 {
        JoinByteBit(backing[last], lastByte, tailShift, 0);
        backing[last] := JoinByte(backing[last], lastByte, Small(tailShift));
        forall i ensures Bit(backing[..], i) == Copied(old(backing[..]), f.bitIndex, f.bitLength, src, 0, 8 * |src|, i)
        {
          JoinedBit(copied, last, lastByte, tailShift, i);
          SplicedBit(old(backing[..]), at, Padded(src, count), i);
          PaddedBit(src, count, i - 8 * at);
          ByteBit(old(backing[..]), last, i);
          BitsEnd(src, i - 8 * at);
        }
        return;
      }
      forall i ensures Bit(backing[..], i) == Copied(old(backing[..]), f.bitIndex, f.bitLength, src, 0, 8 * |src|, i)
      {
        SplicedBit(old(backing[..]), at, Padded(src, count), i);
        PaddedBit(src, count, i - 8 * at);
        BitsEnd(src, i - 8 * at);
      }
      return;
    }
    BitCopy(backing, f.bitIndex, f.bitLength, src, 0, 8 * |src|);
  }

  lemma BitsEnd(s: seq<bv8>, i: int)
    ensures Bit(s, i) ==> 0 <= i < 8 * |s|
  {
  }

  lemma ByteBit(s: seq<bv8>, q: nat, i: int)
    requires q < |s|
    ensures 8 * q <= i < 8 * q + 8 ==> Bit(s, i) == BitOf(s[q], i - 8 * q)
  {
    hide BitOf;
    if 8 * q <= i < 8 * q + 8 {
      assert i / 8 == q && i % 8 == i - 8 * q;
    }
  }

  lemma JoinedBit(s: seq<bv8>, q: nat, was: bv8, keep: nat, i: int)
    requires q < |s| && 0 < keep < 8 && 0 < Small(keep) < 8
    ensures Bit(s[q := JoinByte(s[q], was, Small(keep))], i)
         == if 8 * q + keep <= i < 8 * q + 8 then BitOf(was, i - 8 * q) else Bit(s, i)
  {
    hide BitOf, Small, JoinByte;
    if 8 * q <= i < 8 * q + 8 {
      JoinByteBit(s[q], was, keep, i - 8 * q);
    }
  }

  // ----- reads against writes -----

  /** A read gives back what was written, truncated to the field. */
  lemma ReadAfterWrite(f: Field, b0: seq<bv8>, b1: seq<bv8>, src: seq<bv8>, d0: seq<bv8>, d1: seq<bv8>)
    requires Within(f, |b0|) && Writes(f, b0, b1, src)
    requires |d0| == RoundUpBitsToBytes(f.bitLength) && Reads(f, b1, d0, d1)
    ensures forall i :: Bit(d1, i) == (0 <= i < f.bitLength && Bit(src, i))
    ensures (|src| == |d1| && forall i | f.bitLength <= i :: !Bit(src, i)) ==> d1 == src
  {
    hide BitOf;
    forall i ensures Bit(d1, i) == (0 <= i < f.bitLength && Bit(src, i)) {
      BitsEnd(d1, i);
      assert Bit(d1, i) == Copied(d0, 0, 8 * |d0|, b1, f.bitIndex, f.bitLength, i);
      assert Bit(b1, f.bitIndex + i) == Copied(b0, f.bitIndex, f.bitLength, src, 0, 8 * |src|, f.bitIndex + i);
    }
    if |src| == |d1| && forall i | f.bitLength <= i :: !Bit(src, i) {
      forall i ensures Bit(d1, i) == Bit(src, i) {
        BitsEnd(src, i);
      }
      SameBits(d1, src);
    }
  }

  /** Writing back what was read leaves the buffer as it was. */
  lemma WriteBackIsNothing(f: Field, b0: seq<bv8>, b1: seq<bv8>, d0: seq<bv8>, d1: seq<bv8>)
    requires Within(f, |b0|) && RoundUpBitsToBytes(f.bitLength) <= |d0|
    requires Reads(f, b0, d0, d1) && Writes(f, b0, b1, d1)
    ensures b1 == b0
  {
    hide BitOf, Bit;
    forall i ensures Bit(b1, i) == Bit(b0, i) {
      assert Bit(b1, i) == Copied(b0, f.bitIndex, f.bitLength, d1, 0, 8 * |d1|, i);
      assert Bit(d1, i - f.bitIndex)
          == Copied(d0, 0, 8 * RoundUpBitsToBytes(f.bitLength), b0, f.bitIndex, f.bitLength, i - f.bitIndex);
    }
    SameBits(b1, b0);
  }

  /** A write to one field is invisible to a read of any field it does not overlap. */
  lemma DisjointFieldsAreIndependent(f: Field, g: Field, b0: seq<bv8>, b1: seq<bv8>, src: seq<bv8>,
                                     was: seq<bv8>, x: seq<bv8>, y: seq<bv8>)
    requires Within(f, |b0|) && Within(g, |b0|) && Writes(f, b0, b1, src)
    requires f.bitIndex + f.bitLength <= g.bitIndex || g.bitIndex + g.bitLength <= f.bitIndex
    requires Reads(g, b0, was, x) && Reads(g, b1, was, y)
    ensures x == y
  {
    hide BitOf, Bit;
    var bits := 8 * RoundUpBitsToBytes(g.bitLength);
    forall i ensures Bit(x, i) == Bit(y, i) {
      assert Bit(x, i) == Copied(was, 0, bits, b0, g.bitIndex, g.bitLength, i);
      assert Bit(y, i) == Copied(was, 0, bits, b1, g.bitIndex, g.bitLength, i);
      assert Bit(b1, g.bitIndex + i) == Copied(b0, f.bitIndex, f.bitLength, src, 0, 8 * |src|, g.bitIndex + i);
    }
    SameBits(x, y);
  }
}
