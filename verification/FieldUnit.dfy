/**
 * Field units: a run of bits in an operation region that can only be read and
 * written in units of 1, 2, 4 or 8 bytes (uacpi/source/io.c, opregion.c).
 *
 * The region is a byte string that answers a read with what was last written.
 * A 64-bit value is its eight bytes, low byte first.
 */
module FieldUnit {
  import opened BitSpan
  import opened BufferField

  datatype UpdateRule = Preserve | WriteAsOnes | WriteAsZeroes | Reserved

  datatype Status = Ok | OutOfBounds | InvalidArgument

  datatype Unit = Unit(byteOffset: nat, bitOffset: nat, bitLength: nat, width: nat, rule: UpdateRule)

  predicate Shaped(f: Unit) {
    f.width in {1, 2, 4, 8} && f.bitOffset < 8 * f.width
  }

  /** The field's first bit within the region. */
  function Start(f: Unit): nat {
    8 * f.byteOffset + f.bitOffset
  }

  /** How many units of `width` bytes it takes to cover a number of bits. */
  function Units(bits: nat, width: nat): (n: nat)
    requires width != 0
    ensures n == 0 <==> bits == 0
  {
    if bits == 0 then 0 else if bits <= 8 * width then 1 else 1 + Units(bits - 8 * width, width)
  }

  /** The count as the code computes it: round up to whole units, then divide. */
  function UnitsByDivision(bits: nat, width: nat): nat
    requires width != 0
  {
    (bits + (8 * width - 1)) / (8 * width)
  }

  lemma Quotient(x: int, v: int, q: int)
    requires v > 0 && q * v <= x < q * v + v
    ensures x / v == q
  {
    var d := x / v - q;
    assert x == v * (x / v) + x % v;
    assert -v < v * d < v;
    assert d >= 1 ==> v * d >= v;
    assert d <= -1 ==> v * d <= -v;
  }

  lemma {:induction false} UnitsAreDivision(bits: nat, width: nat)
    requires width != 0
    ensures UnitsByDivision(bits, width) == Units(bits, width)
  {
    var v := 8 * width;
    if bits == 0 {
      Quotient(v - 1, v, 0);
    } else if bits <= v {
      Quotient(bits + (v - 1), v, 1);
    } else {
      UnitsAreDivision(bits - v, width);
      var q := (bits - v + (v - 1)) / v;
      Quotient(bits + (v - 1), v, q + 1);
    }
  }

  /** The bytes of those units. */
  function Span(bits: nat, width: nat): nat
    requires width != 0
  {
    if bits == 0 then 0 else if bits <= 8 * width then width else width + Span(bits - 8 * width, width)
  }

  /** They hold the bits, and the last of them at least one. */
  lemma {:induction false} SpanCovers(bits: nat, width: nat)
    requires width != 0
    ensures bits <= 8 * Span(bits, width) && (bits != 0 ==> 8 * Span(bits, width) < bits + 8 * width)
  {
    if bits > 8 * width {
      SpanCovers(bits - 8 * width, width);
    }
  }

  /** The first byte past the units that hold the field. */
  function End(f: Unit): nat
    requires Shaped(f)
  {
    f.byteOffset + Span(f.bitOffset + f.bitLength, f.width)
  }

  // ----- one access -----

  /** The 64-bit value of the unit at an offset, extended with zeroes. */
  function Word(region: seq<bv8>, offset: nat, width: nat): (w: seq<bv8>)
    requires offset + width <= |region| && width <= 8
    ensures |w| == 8
  {
    Padded(region[offset..offset + width], 8)
  }

  lemma WordBit(region: seq<bv8>, offset: nat, width: nat, j: int)
    requires offset + width <= |region| && width <= 8
    ensures Bit(Word(region, offset, width), j) == (0 <= j < 8 * width && Bit(region, 8 * offset + j))
  {
    hide Bit, Padded;
    PaddedBit(region[offset..offset + width], 8, j);
    SliceBit(region, offset, offset + width, j);
  }

  /** One read of the region: the unit's value, or an error past the region's end. */
  method ReadAccess(region: seq<bv8>, offset: nat, width: nat) returns (status: Status, word: seq<bv8>)
    requires width <= 8
    ensures status == if offset + width <= |region| then Ok else OutOfBounds
    ensures status.Ok? ==> |word| == 8
    ensures status.Ok? ==> forall j :: Bit(word, j) == (0 <= j < 8 * width && Bit(region, 8 * offset + j))
  {
    hide Bit, Padded;
    if |region| < offset + width {
      return OutOfBounds, [];
    }
    word := Word(region, offset, width);
    forall j ensures Bit(word, j) == (0 <= j < 8 * width && Bit(region, 8 * offset + j)) {
      WordBit(region, offset, width, j);
    }
    status := Ok;
  }

  /** One write of the region: the unit takes the low bytes of the value, or nothing happens. */
  method WriteAccess(region: array<bv8>, offset: nat, width: nat, word: seq<bv8>) returns (status: Status)
    requires |word| == 8 && width <= 8
    modifies region
    ensures status == if offset + width <= region.Length then Ok else OutOfBounds
    ensures !status.Ok? ==> region[..] == old(region[..])
    ensures status.Ok? ==> forall i :: Bit(region[..], i)
                                       == if 8 * offset <= i < 8 * (offset + width) then Bit(word, i - 8 * offset)
                                          else Bit(old(region[..]), i)
  {
    hide Bit, Padded, Spliced;
    if region.Length < offset + width {
      return OutOfBounds;
    }
    CopyBytes(region, offset, width, word);
    forall i
      ensures Bit(region[..], i) == if 8 * offset <= i < 8 * (offset + width) then Bit(word, i - 8 * offset)
                                    else Bit(old(region[..]), i)
    {
      SplicedBit(old(region[..]), offset, Padded(word, width), i);
      PaddedBit(word, width, i - 8 * offset);
    }
    status := Ok;
  }

  // ----- reading -----

  /** The value of a field, read into a byte string. */
  ghost predicate Holds(f: Unit, region: seq<bv8>, value: seq<bv8>) {
    forall i :: Bit(value, i) == (0 <= i < 8 * |value| && i < f.bitLength && Bit(region, Start(f) + i))
  }

  /** A read touches at least one unit, even of an empty field. */
  function ReadEnd(f: Unit): nat
    requires Shaped(f)
  {
    if f.bitOffset + f.bitLength == 0 then f.byteOffset + f.width else End(f)
  }

  /** The first `done` bits of a field, with zeroes behind them. */
  ghost predicate HoldsPrefix(f: Unit, region: seq<bv8>, value: seq<bv8>, done: nat) {
    forall i :: Bit(value, i) == (0 <= i < 8 * |value| && i < done && Bit(region, Start(f) + i))
  }

  lemma ReadStep(f: Unit, region: seq<bv8>, was: seq<bv8>, now: seq<bv8>, word: seq<bv8>,
                 cur: nat, index: nat, length: nat, done: nat)
    requires Shaped(f) && done + length <= f.bitLength && index + length <= 8 * f.width
    requires length != 0 ==> 8 * cur + index == Start(f) + done
    requires done == 0 || HoldsPrefix(f, region, was, done)
    requires forall j :: Bit(word, j) == (0 <= j < 8 * f.width && Bit(region, 8 * cur + j))
    requires IsCopy(now, was, Min(done, 8 * |was|), 8 * |was| - Min(done, 8 * |was|), word, index, length)
    ensures HoldsPrefix(f, region, now, done + length)
  {
    hide BitOf, Bit;
    var at := Min(done, 8 * |was|);
    forall i ensures Bit(now, i) == (0 <= i < 8 * |now| && i < done + length && Bit(region, Start(f) + i)) {
      BitsEnd(was, i);
      assert Bit(now, i) == Copied(was, at, 8 * |was| - at, word, index, length, i);
    }
  }

  /** One turn of the read: a unit of the region into the rest of the destination. */
  method ReadUnit(f: Unit, region: seq<bv8>, dst: array<bv8>, cur: nat, index: nat, length: nat,
                  dstIndex: nat, ghost done: nat) returns (status: Status)
    requires Shaped(f) && done + length <= f.bitLength && index + length <= 8 * f.width
    requires length != 0 ==> 8 * cur + index == Start(f) + done
    requires dstIndex == Min(done, 8 * dst.Length)
    requires done == 0 || HoldsPrefix(f, region, dst[..], done)
    modifies dst
    ensures status == if cur + f.width <= |region| then Ok else OutOfBounds
    ensures status.Ok? ==> HoldsPrefix(f, region, dst[..], done + length)
  {
    hide Bit, HoldsPrefix, IsCopy;
    var word;
    status, word := ReadAccess(region, cur, f.width);
    if !status.Ok? {
      return;
    }
    ghost var was := dst[..];
    BitCopy(dst, dstIndex, 8 * dst.Length - dstIndex, word, index, length);
    ReadStep(f, region, was, dst[..], word, cur, index, length, done);
  }

  /** Reads a field unit by unit. */
  method ReadMisaligned(f: Unit, region: seq<bv8>, dst: array<bv8>) returns (status: Status)
    requires Shaped(f) && f.bitOffset + f.bitLength != 0
    modifies dst
    ensures status == if ReadEnd(f) <= |region| then Ok else OutOfBounds
    ensures status.Ok? ==> Holds(f, region, dst[..])
  {
    hide Holds, HoldsPrefix, UnitsByDivision;
    var cur: nat, bitsLeft: nat, index: nat := f.byteOffset, f.bitLength, f.bitOffset;
    var dstIndex := 0;
    UnitsAreDivision(f.bitOffset + f.bitLength, f.width);
    var readsLeft := UnitsByDivision(f.bitOffset + f.bitLength, f.width);
    ghost var all := readsLeft;
    while readsLeft != 0
      invariant index < 8 * f.width && bitsLeft <= f.bitLength
      invariant readsLeft == Units(index + bitsLeft, f.width) <= all
      invariant bitsLeft != 0 ==> 8 * cur + index == Start(f) + f.bitLength - bitsLeft
      invariant cur + Span(index + bitsLeft, f.width) == End(f)
      invariant dstIndex == Min(f.bitLength - bitsLeft, 8 * dst.Length)
      invariant readsLeft == all ==> bitsLeft == f.bitLength
      invariant readsLeft < all ==> cur <= |region| && HoldsPrefix(f, region, dst[..], f.bitLength - bitsLeft)
    {
      var length := Min(bitsLeft, 8 * f.width - index);
      status := ReadUnit(f, region, dst, cur, index, length, dstIndex, f.bitLength - bitsLeft);
      if !status.Ok? {
        return;
      }
      bitsLeft := bitsLeft - length;
      index := 0;
      dstIndex := dstIndex + Min(8 * dst.Length - dstIndex, length);
      cur := cur + f.width;
      readsLeft := readsLeft - 1;
    }
    PrefixIsAll(f, region, dst[..]);
    status := Ok;
  }

  lemma PrefixIsAll(f: Unit, region: seq<bv8>, value: seq<bv8>)
    requires HoldsPrefix(f, region, value, f.bitLength)
    ensures Holds(f, region, value)
  {
  }

  lemma FastReadBits(f: Unit, region: seq<bv8>, word: seq<bv8>, copied: seq<bv8>, now: seq<bv8>, bytes: nat)
    requires f.bitOffset == 0 && bytes == RoundUpBitsToBytes(f.bitLength) <= f.width && |word| == 8
    requires forall j :: Bit(word, j) == (0 <= j < 8 * f.width && Bit(region, 8 * f.byteOffset + j))
    requires bytes <= 8 && |copied| == |now| && copied == Padded(word[..bytes], |now|)
    requires |now| < bytes ==> now == copied
    requires |now| >= bytes ==>
               forall i :: Bit(now, i) == (Bit(copied, i) && !(f.bitLength % 8 != 0
                                                               && 8 * (bytes - 1) + f.bitLength % 8 <= i < 8 * bytes))
    ensures Holds(f, region, now)
  {
    hide Bit, Padded;
    forall i ensures Bit(now, i) == (0 <= i < 8 * |now| && i < f.bitLength && Bit(region, Start(f) + i)) {
      PaddedBit(word[..bytes], |now|, i);
      SliceBit(word, 0, bytes, i);
      assert word[..bytes] == word[0..bytes];
    }
  }

  /**
   * Reads a field into dst: the field's bits, zeroes behind them, as many as fit.
   * It fails exactly when some unit of the field lies past the end of the region.
   */
  method ReadFieldUnit(f: Unit, region: seq<bv8>, dst: array<bv8>) returns (status: Status)
    requires Shaped(f)
    modifies dst
    ensures status == if ReadEnd(f) <= |region| then Ok else OutOfBounds
    ensures status.Ok? ==> Holds(f, region, dst[..])
  {
    hide Bit, Holds, Padded;
    var bytes := RoundUpBitsToBytes(f.bitLength);
    if f.bitOffset == 0 && bytes <= f.width {
      var word;
      status, word := ReadAccess(region, f.byteOffset, f.width);
      if !status.Ok? {
        return;
      }
      CopyBytes(dst, 0, dst.Length, word[..bytes]);
      ghost var copied := dst[..];
      assert copied == Padded(word[..bytes], dst.Length);
      if dst.Length >= bytes {
        CutMisalignedTail(dst, bytes - 1, f.bitLength);
      }
      FastReadBits(f, region, word, copied, dst[..], bytes);
      return;
    }
    status := ReadMisaligned(f, region, dst);
  }

  // ----- writing -----

  /** What a rule leaves in a bit that shares a unit with the field. */
  predicate Filled(rule: UpdateRule, was: bool) {
    match rule
    case Preserve => was
    case WriteAsOnes => true
    case _ => false
  }

  /** A region where the first `done` bits of a field have been written, up to byte `upTo`. */
  ghost predicate WrittenPrefix(f: Unit, was: seq<bv8>, now: seq<bv8>, src: seq<bv8>, done: nat, upTo: nat) {
    && |now| == |was|
    && forall i :: Bit(now, i) == if Start(f) <= i < Start(f) + done then Bit(src, i - Start(f))
                                  else if 8 * f.byteOffset <= i < 8 * upTo then Filled(f.rule, Bit(was, i))
                                  else Bit(was, i)
  }

  ghost predicate Written(f: Unit, was: seq<bv8>, now: seq<bv8>, src: seq<bv8>)
    requires Shaped(f)
  {
    if f.bitLength == 0 then now == was else WrittenPrefix(f, was, now, src, f.bitLength, End(f))
  }

  /** Whether a number of bits fills whole units. */
  predicate Whole(bits: nat, width: nat)
    requires width != 0
  {
    bits == 0 || (bits >= 8 * width && Whole(bits - 8 * width, width))
  }

  /** Whether every unit of the field is covered by it. */
  predicate WholeUnits(f: Unit)
    requires Shaped(f)
  {
    f.bitOffset == 0 && Whole(f.bitLength, f.width)
  }

  /** What a partly covered unit starts from. */
  method StartUnit(f: Unit, region: seq<bv8>, cur: nat, partial: bool) returns (status: Status, word: array<bv8>)
    requires Shaped(f)
    ensures fresh(word) && word.Length == 8
    ensures status == if partial && f.rule.Reserved? then InvalidArgument
                      else if partial && f.rule.Preserve? && cur + f.width > |region| then OutOfBounds
                      else Ok
    ensures status.Ok? && partial && cur + f.width <= |region| ==>
              forall j | 0 <= j < 8 * f.width :: Bit(word[..], j) == Filled(f.rule, Bit(region, 8 * cur + j))
    ensures status.Ok? && partial && f.rule.WriteAsOnes? ==> forall j | 0 <= j < 64 :: Bit(word[..], j)
    ensures status.Ok? && (partial ==> f.rule.WriteAsZeroes?) ==> forall j :: !Bit(word[..], j)
  {
    hide BitOf;
    ZeroHasNoBits();
    word := new bv8[8](_ => 0);
    status := Ok;
    if partial {
      match f.rule
      case Preserve =>
        var value;
        status, value := ReadAccess(region, cur, f.width);
        if status.Ok? {
          CopyBytes(word, 0, 8, value);
          assert word[..] == value;
        }
      case WriteAsOnes =>
        word := new bv8[8](_ => 0xFF);
        OnesHaveAllBits();
      case WriteAsZeroes =>
      case Reserved =>
        status := InvalidArgument;
    }
  }

  lemma OnesHaveAllBits()
    ensures forall k: nat | k < 8 :: BitOf(0xFF, k)
  {
    forall k: nat | k < 8 ensures BitOf(0xFF, k) {
      SmallOrder(k, 8);
      OnesBit(Small(k));
    }
  }

  lemma OnesBit(k: bv8)
    requires k < 8
    ensures TestBit(0xFF, k)
  {
  }

  lemma WriteStep(f: Unit, was: seq<bv8>, before: seq<bv8>, now: seq<bv8>, src: seq<bv8>,
                  w0: seq<bv8>, w1: seq<bv8>, cur: nat, index: nat, length: nat, done: nat)
    requires Shaped(f) && |now| == |before| && 8 * cur + index == Start(f) + done
    requires index + length <= 8 * f.width && f.byteOffset <= cur && cur + f.width <= |now|
    requires index != 0 ==> done == 0 && cur == f.byteOffset
    requires WrittenPrefix(f, was, before, src, done, cur)
    requires (index != 0 || length < 8 * f.width) ==>
               forall j | 0 <= j < 8 * f.width :: Bit(w0, j) == Filled(f.rule, Bit(before, 8 * cur + j))
    requires IsCopy(w1, w0, index, length, src, Min(done, 8 * |src|), 8 * |src| - Min(done, 8 * |src|))
    requires forall i :: Bit(now, i) == if 8 * cur <= i < 8 * (cur + f.width) then Bit(w1, i - 8 * cur)
                                        else Bit(before, i)
    ensures WrittenPrefix(f, was, now, src, done + length, cur + f.width)
  {
    hide Bit, Filled;
    var from := Min(done, 8 * |src|);
    forall i
      ensures Bit(now, i) == if Start(f) <= i < Start(f) + done + length then Bit(src, i - Start(f))
                             else if 8 * f.byteOffset <= i < 8 * (cur + f.width) then Filled(f.rule, Bit(was, i))
                             else Bit(was, i)
    {
      BitsEnd(src, i - Start(f));
      BitsEnd(src, from + (i - 8 * cur) - index);
      if 8 * cur <= i < 8 * (cur + f.width) {
        var j := i - 8 * cur;
        assert Bit(w1, j) == Copied(w0, index, length, src, from, 8 * |src| - from, j);
      }
    }
  }

  /** One turn of the write: fill a unit by the field's rule, put the field's bits in, store it. */
  method WriteUnit(f: Unit, region: array<bv8>, src: seq<bv8>, cur: nat, index: nat, length: nat, srcIndex: nat,
                   ghost was: seq<bv8>, ghost done: nat) returns (status: Status)
    requires Shaped(f) && 8 * cur + index == Start(f) + done && f.byteOffset <= cur
    requires index + length <= 8 * f.width && srcIndex == Min(done, 8 * |src|)
    requires index != 0 ==> done == 0 && cur == f.byteOffset
    requires WrittenPrefix(f, was, region[..], src, done, cur)
    modifies region
    ensures status == if (index != 0 || length < 8 * f.width) && f.rule.Reserved? then InvalidArgument
                      else if cur + f.width <= region.Length then Ok else OutOfBounds
    ensures !status.Ok? ==> region[..] == old(region[..])
    ensures status.Ok? ==> WrittenPrefix(f, was, region[..], src, done + length, cur + f.width)
  {
    hide Bit, WrittenPrefix, Filled, IsCopy;
    var word;
    status, word := StartUnit(f, region[..], cur, index != 0 || length < 8 * f.width);
    if !status.Ok? {
      return;
    }
    ghost var w0 := word[..];
    BitCopy(word, index, length, src, srcIndex, 8 * |src| - srcIndex);
    status := WriteAccess(region, cur, f.width, word[..]);
    if status.Ok? {
      WriteStep(f, was, old(region[..]), region[..], src, w0, word[..], cur, index, length, done);
    }
  }

  /**
   * Writes a field: its bits become those of src, the other bits of its units
   * follow the update rule and the rest of the region stays as it was.  It fails
   * exactly when a unit lies past the end of the region or the rule is not one
   * of the three and a unit is only partly covered; even then what it has
   * written is a prefix of the field.
   */
  method WriteGenericFieldUnit(f: Unit, region: array<bv8>, src: seq<bv8>)
    returns (status: Status, ghost done: nat, ghost upTo: nat)
    requires Shaped(f)
    modifies region
    ensures status.Ok? <==> f.bitLength == 0 || (End(f) <= region.Length && (f.rule.Reserved? ==> WholeUnits(f)))
    ensures status.InvalidArgument? ==> f.rule.Reserved? && !WholeUnits(f)
    ensures status.OutOfBounds? ==> End(f) > region.Length
    ensures status.Ok? ==> Written(f, old(region[..]), region[..], src)
    ensures WrittenPrefix(f, old(region[..]), region[..], src, done, upTo) && done <= f.bitLength && upTo <= End(f)
  {
    hide WrittenPrefix;
    var cur: nat, bitsLeft: nat, index: nat := f.byteOffset, f.bitLength, f.bitOffset;
    var srcIndex := 0;
    NothingWritten(f, region[..], src);
    done, upTo := 0, cur;
    while bitsLeft != 0
      invariant done == f.bitLength - bitsLeft && upTo == cur && f.byteOffset <= cur
      invariant index < 8 * f.width && bitsLeft <= f.bitLength && srcIndex == Min(done, 8 * |src|)
      invariant bitsLeft != 0 ==> 8 * cur + index == Start(f) + done
      invariant index != 0 ==> done == 0 && cur == f.byteOffset
      invariant done == 0 ==> cur == f.byteOffset && index == f.bitOffset
      invariant bitsLeft != 0 ==> cur + Span(index + bitsLeft, f.width) == End(f)
      invariant bitsLeft == 0 && f.bitLength != 0 ==> cur == End(f)
      invariant done != 0 ==> cur <= region.Length && (f.rule.Reserved? ==> f.bitOffset == 0)
      invariant f.rule.Reserved? && f.bitOffset == 0 ==>
        index == 0 && (Whole(bitsLeft, f.width) <==> Whole(f.bitLength, f.width))
      invariant WrittenPrefix(f, old(region[..]), region[..], src, done, cur)
    {
      var length := Min(8 * f.width - index, bitsLeft);
      status := WriteUnit(f, region, src, cur, index, length, srcIndex, old(region[..]), done);
      if !status.Ok? {
        return;
      }
      srcIndex := srcIndex + Min(8 * |src| - srcIndex, length);
      bitsLeft := bitsLeft - length;
      index := 0;
      cur := cur + f.width;
      done, upTo := done + length, cur;
    }
    if f.bitLength == 0 {
      PrefixOfNothing(f, old(region[..]), region[..], src);
    }
    status := Ok;
  }

  /** What the write promises, bit by bit: the field's bits, those that share its units, and the rest. */
  method WriteFieldUnit(f: Unit, region: array<bv8>, src: seq<bv8>) returns (status: Status)
    requires Shaped(f)
    modifies region
    ensures status.Ok? <==> f.bitLength == 0 || (End(f) <= region.Length && (f.rule.Reserved? ==> WholeUnits(f)))
    ensures status.Ok? ==> Written(f, old(region[..]), region[..], src)
    ensures status.Ok? ==>
      forall i | Start(f) <= i < Start(f) + f.bitLength :: Bit(region[..], i) == Bit(src, i - Start(f))
    ensures status.Ok? && f.bitLength != 0 ==>
      forall i | 8 * f.byteOffset <= i < 8 * End(f) && !(Start(f) <= i < Start(f) + f.bitLength) ::
        && (f.rule.WriteAsOnes? ==> Bit(region[..], i))
        && (f.rule.WriteAsZeroes? ==> !Bit(region[..], i))
        && (f.rule.Preserve? ==> Bit(region[..], i) == Bit(old(region[..]), i))
    ensures status.Ok? ==> forall i | f.bitLength == 0 || !(8 * f.byteOffset <= i < 8 * End(f)) ::
      Bit(region[..], i) == Bit(old(region[..]), i)
  {
    hide WrittenPrefix, Bit, Filled;
    ghost var done, upTo;
    status, done, upTo := WriteGenericFieldUnit(f, region, src);
    if status.Ok? && f.bitLength != 0 {
      WrittenBits(f, old(region[..]), region[..], src);
    }
  }

  /** What a written field leaves in its units, rule by rule. */
  lemma WrittenBits(f: Unit, was: seq<bv8>, now: seq<bv8>, src: seq<bv8>)
    requires Shaped(f) && f.bitLength != 0 && Written(f, was, now, src)
    ensures forall i | Start(f) <= i < Start(f) + f.bitLength :: Bit(now, i) == Bit(src, i - Start(f))
    ensures forall i | 8 * f.byteOffset <= i < 8 * End(f) && !(Start(f) <= i < Start(f) + f.bitLength) ::
      && (f.rule.WriteAsOnes? ==> Bit(now, i))
      && (f.rule.WriteAsZeroes? ==> !Bit(now, i))
      && (f.rule.Preserve? ==> Bit(now, i) == Bit(was, i))
    ensures forall i | !(8 * f.byteOffset <= i < 8 * End(f)) :: Bit(now, i) == Bit(was, i)
  {
    hide Bit;
    InUnits(f);
  }

  lemma InUnits(f: Unit)
    requires Shaped(f) && f.bitLength != 0
    ensures 8 * f.byteOffset <= Start(f) && Start(f) + f.bitLength <= 8 * End(f)
  {
    SpanCovers(f.bitOffset + f.bitLength, f.width);
  }

  /** Five written to the low half of a zero byte: the other half becomes ones, zeroes, or stays. */
  lemma FiveInHalfAByte(f: Unit, was: seq<bv8>, now: seq<bv8>, src: seq<bv8>)
    requires f == Unit(0, 0, 4, 1, f.rule) && !f.rule.Reserved? && Written(f, was, now, src)
    requires |was| == |src| == 1 && was[0] == 0 && src[0] == 5
    ensures |now| == 1 && now[0] == if f.rule.WriteAsOnes? then 0xF5 else 0x05
  {
    hide BitOf, Bit, Written;
    OneByteField(f, was, now, src);
    HalfBits();
    var x := now[0];
    forall k: nat | k < 8 ensures if k < 4 then BitOf(x, k) == BitOf(5, k) else BitOf(x, k) == f.rule.WriteAsOnes? {
      WrittenBit(f, was, now, src, k);
      BitOfOne(was, k);
      BitOfOne(src, k);
      BitOfOne(now, k);
    }
    HalfAndHalf(x, f.rule.WriteAsOnes?);
  }

  lemma OneByteField(f: Unit, was: seq<bv8>, now: seq<bv8>, src: seq<bv8>)
    requires f == Unit(0, 0, 4, 1, f.rule) && |was| == 1 && Written(f, was, now, src)
    ensures |now| == 1 && Start(f) == 0 && End(f) == 1
  {
    hide Bit;
  }

  lemma WrittenBit(f: Unit, was: seq<bv8>, now: seq<bv8>, src: seq<bv8>, i: int)
    requires Shaped(f) && f.bitLength != 0 && Written(f, was, now, src) && 8 * f.byteOffset <= i < 8 * End(f)
    ensures Start(f) <= i < Start(f) + f.bitLength ==> Bit(now, i) == Bit(src, i - Start(f))
    ensures !(Start(f) <= i < Start(f) + f.bitLength) ==>
      && (f.rule.WriteAsOnes? ==> Bit(now, i))
      && (f.rule.WriteAsZeroes? ==> !Bit(now, i))
      && (f.rule.Preserve? ==> Bit(now, i) == Bit(was, i))
  {
    hide Bit;
    WrittenBits(f, was, now, src);
  }

  lemma HalfAndHalf(x: bv8, ones: bool)
    requires forall k: nat | k < 8 :: if k < 4 then BitOf(x, k) == BitOf(5, k) else BitOf(x, k) == ones
    ensures x == if ones then 0xF5 else 0x05
  {
    hide BitOf;
    HalfBits();
    SameByte(x, if ones then 0xF5 else 0x05);
  }

  lemma BitOfOne(s: seq<bv8>, i: int)
    requires |s| == 1
    ensures Bit(s, i) == (0 <= i < 8 && BitOf(s[0], i))
  {
    hide BitOf;
  }

  lemma HalfBits()
    ensures forall k: nat | k < 4 :: BitOf(5, k) == BitOf(0xF5, k)
    ensures forall k: nat | 4 <= k < 8 :: BitOf(0xF5, k) && !BitOf(5, k) && !BitOf(0, k)
  {
    forall k: nat | k < 8
      ensures if k < 4 then BitOf(5, k) == BitOf(0xF5, k) else BitOf(0xF5, k) && !BitOf(5, k) && !BitOf(0, k)
    {
      SmallOrder(k, 8);
      SmallOrder(k, 4);
      HalfTests(Small(k));
    }
  }

  lemma HalfTests(k: bv8)
    requires k < 8
    ensures k < 4 ==> TestBit(5, k) == TestBit(0xF5, k)
    ensures k >= 4 ==> TestBit(0xF5, k) && !TestBit(5, k) && !TestBit(0, k)
  {
  }

  lemma NothingWritten(f: Unit, was: seq<bv8>, src: seq<bv8>)
    ensures WrittenPrefix(f, was, was, src, 0, f.byteOffset)
  {
  }

  lemma PrefixOfNothing(f: Unit, was: seq<bv8>, now: seq<bv8>, src: seq<bv8>)
    requires WrittenPrefix(f, was, now, src, 0, f.byteOffset)
    ensures now == was
  {
    SameBits(now, was);
  }
}
