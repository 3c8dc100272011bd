/**
 * Laying named fields out in a region (uacpi/source/interpreter.c) and what it
 * buys: fields of one declaration never disturb each other.
 */
module FieldLayout {
  import opened BitSpan
  import opened FieldUnit
  import opened Wrappers

  // ----- one field, written and read -----

  /** A field reads back as what was written to it, cut to its length. */
  lemma FieldReadBack(f: Unit, r0: seq<bv8>, r1: seq<bv8>, src: seq<bv8>, value: seq<bv8>)
    requires Shaped(f) && Written(f, r0, r1, src) && Holds(f, r1, value)
    ensures forall i :: Bit(value, i) == (0 <= i < 8 * |value| && i < f.bitLength && Bit(src, i))
  {
    hide Bit;
    forall i ensures Bit(value, i) == (0 <= i < 8 * |value| && i < f.bitLength && Bit(src, i)) {
      assert Bit(value, i) == (0 <= i < 8 * |value| && i < f.bitLength && Bit(r1, Start(f) + i));
    }
  }

  /** Writing back what was read changes nothing when the rest of each unit is preserved. */
  lemma FieldWriteBack(f: Unit, r0: seq<bv8>, r1: seq<bv8>, value: seq<bv8>)
    requires Shaped(f) && f.rule.Preserve? && f.bitLength <= 8 * |value|
    requires Holds(f, r0, value) && Written(f, r0, r1, value)
    ensures r1 == r0
  {
    hide Bit;
    if f.bitLength != 0 {
      forall i ensures Bit(r1, i) == Bit(r0, i) {
        assert Bit(value, i - Start(f))
          == (0 <= i - Start(f) < 8 * |value| && i - Start(f) < f.bitLength && Bit(r0, Start(f) + (i - Start(f))));
      }
      SameBits(r1, r0);
    }
  }

  predicate Apart(f: Unit, g: Unit) {
    Start(f) + f.bitLength <= Start(g) || Start(g) + g.bitLength <= Start(f)
  }

  /** Whether g has no bit in the units f writes. */
  predicate OutsideUnits(f: Unit, g: Unit)
    requires Shaped(f)
  {
    Start(g) + g.bitLength <= 8 * f.byteOffset || 8 * End(f) <= Start(g)
  }

  /** A write is invisible to another field: always when bits are preserved, else outside the units written. */
  lemma WritesStayApart(f: Unit, g: Unit, r0: seq<bv8>, r1: seq<bv8>, src: seq<bv8>, value: seq<bv8>)
    requires Shaped(f) && Written(f, r0, r1, src)
    requires Apart(f, g) && (f.rule.Preserve? || OutsideUnits(f, g))
    ensures Holds(g, r0, value) <==> Holds(g, r1, value)
  {
    hide Bit;
    if f.bitLength != 0 {
      assert forall i | Start(g) <= i < Start(g) + g.bitLength :: Bit(r1, i) == Bit(r0, i);
    }
  }

  // ----- any number of writes -----

  datatype Write = Write(field: nat, src: seq<bv8>)

  /** A run of successful writes through the states of the region. */
  ghost predicate IsRun(fields: seq<Unit>, states: seq<seq<bv8>>, writes: seq<Write>) {
    && |states| == |writes| + 1
    && forall n | 0 <= n < |writes| :: IsWrite(fields, states[n], writes[n], states[n + 1])
  }

  ghost predicate IsWrite(fields: seq<Unit>, r0: seq<bv8>, w: Write, r1: seq<bv8>) {
    w.field < |fields| && Shaped(fields[w.field]) && Written(fields[w.field], r0, r1, w.src)
  }

  ghost predicate Independent(fields: seq<Unit>) {
    && (forall k | 0 <= k < |fields| :: Shaped(fields[k]) && fields[k].rule.Preserve?)
    && (forall j, k | 0 <= j < k < |fields| :: Apart(fields[j], fields[k]))
  }

  /** The last value written to field k. */
  function LastWrite(writes: seq<Write>, k: nat): Option<seq<bv8>> {
    if writes == [] then None
    else if writes[|writes| - 1].field == k then Some(writes[|writes| - 1].src)
    else LastWrite(writes[..|writes| - 1], k)
  }

  /** After any run, every field reads as its own last write, or as it did at the start. */
  lemma {:induction false} FieldsAreVariables(fields: seq<Unit>, states: seq<seq<bv8>>, writes: seq<Write>, k: nat,
      value: seq<bv8>)
    requires Independent(fields) && IsRun(fields, states, writes) && k < |fields|
    requires Holds(fields[k], states[|writes|], value)
    ensures match LastWrite(writes, k)
            case None => Holds(fields[k], states[0], value)
            case Some(src) =>
              forall i :: Bit(value, i) == (0 <= i < 8 * |value| && i < fields[k].bitLength && Bit(src, i))
  {
    hide Bit, Holds, Written;
    if writes != [] {
      var n := |writes| - 1;
      var w := writes[n];
      assert IsWrite(fields, states[n], w, states[n + 1]);
      if w.field == k {
        FieldReadBack(fields[k], states[n], states[n + 1], w.src, value);
      } else {
        WritesStayApart(fields[w.field], fields[k], states[n], states[n + 1], w.src, value);
        FieldsAreVariables(fields, states[..n + 1], writes[..n], k, value);
      }
    }
  }

  // ----- the layout -----

  /** A field list: named fields, reserved gaps and changes of the access type. */
  datatype Element = Named(length: nat) | Gap(length: nat) | AccessAs(kind: nat)

  /** The access width in bytes for an access type, where it is a valid one. */
  function WidthOf(kind: nat): (width: nat)
    ensures width in {0, 1, 2, 4, 8} && (width != 0 <==> kind <= 5)
    ensures kind in {0, 1, 5} ==> width == 1
  {
    match kind
    case 0 => 1
    case 1 => 1
    case 5 => 1
    case 2 => 2
    case 3 => 4
    case 4 => 8
    case _ => 0
  }

  /** From bytes on, each access type is twice as wide as the one before. */
  lemma WidthsDouble(kind: nat)
    requires 2 <= kind <= 4
    ensures WidthOf(kind) == 2 * WidthOf(kind - 1)
  {
  }

  function Length(e: Element): nat {
    if e.AccessAs? then 0 else e.length
  }

  /** The bits ahead of element n. */
  function OffsetOf(elements: seq<Element>, n: nat): nat
    requires n <= |elements|
  {
    if n == 0 then 0 else OffsetOf(elements, n - 1) + Length(elements[n - 1])
  }

  /** The access type in force at element n. */
  function KindAt(elements: seq<Element>, kind: nat, n: nat): nat
    requires n <= |elements|
  {
    if n == 0 then kind
    else if elements[n - 1].AccessAs? then elements[n - 1].kind
    else KindAt(elements, kind, n - 1)
  }

  /** That is the one of the last change before it, or the first one without any. */
  lemma {:induction false} KindIsLast(elements: seq<Element>, kind: nat, n: nat)
    requires n <= |elements|
    ensures (forall i | 0 <= i < n :: !elements[i].AccessAs?) ==> KindAt(elements, kind, n) == kind
    ensures forall j | 0 <= j < n && elements[j].AccessAs? && (forall i | j < i < n :: !elements[i].AccessAs?) ::
      KindAt(elements, kind, n) == elements[j].kind
  {
    if n > 0 {
      KindIsLast(elements, kind, n - 1);
    }
  }

  const TWO32: nat := 0x1_0000_0000

  function AlignDown(x: nat, w: nat): nat
    requires w != 0
  {
    x - x % w
  }

  lemma Remainder(x: int, v: int, q: int, r: int)
    requires v > 0 && 0 <= r < v && x == q * v + r
    ensures x / v == q && x % v == r
  {
    Quotient(x, v, q);
  }

  lemma RemainderOfMultiple(q: nat, w: nat, c: nat)
    requires w > 0 && c > 0
    ensures w * c > 0 && q % (w * c) % w == q % w
  {
    var big := w * c;
    assert big > 0;
    var m := q % big;
    assert q == big * (q / big) + m;
    assert m == w * (m / w) + m % w;
    assert big * (q / big) == (c * (q / big)) * w;
    assert q == (c * (q / big) + m / w) * w + m % w;
    Remainder(q, w, c * (q / big) + m / w, m % w);
  }

  lemma SplitBits(b: nat, w: nat)
    requires w > 0
    ensures b % (8 * w) == 8 * (b / 8 % w) + b % 8
  {
    var q := b / 8;
    assert q == w * (q / w) + q % w;
    assert b == 8 * (w * (q / w)) + 8 * (q % w) + b % 8;
    assert 8 * (w * (q / w)) == (q / w) * (8 * w);
    Remainder(b, 8 * w, q / w, 8 * (q % w) + b % 8);
  }

  lemma PlaceIsExact(b: nat, w: nat)
    requires w in {1, 2, 4, 8}
    ensures 8 * AlignDown(b / 8 % TWO32, w) + b % (8 * w) == b % (8 * TWO32)
  {
    SplitBits(b, w);
    SplitBits(b, TWO32);
    var c := if w == 1 then TWO32 else if w == 2 then 0x8000_0000 else if w == 4 then 0x4000_0000 else 0x2000_0000;
    assert w * c == TWO32;
    RemainderOfMultiple(b / 8, w, c);
  }

  /** The byte offset keeps 32 bits, so a field is placed modulo 2^35 bits. */
  function Place(bitOffset: nat, length: nat, width: nat, rule: UpdateRule): (f: Unit)
    requires width in {1, 2, 4, 8}
    ensures Shaped(f) && f.byteOffset % width == 0 && f.byteOffset < TWO32
    ensures Start(f) == bitOffset % (8 * TWO32)
    ensures f.bitLength == length && f.width == width && f.rule == rule
  {
    PlaceIsExact(bitOffset, width);
    AlignDownIsMultiple(bitOffset / 8 % TWO32, width);
    Unit(AlignDown(bitOffset / 8 % TWO32, width), bitOffset % (8 * width), length, width, rule)
  }

  lemma AlignDownIsMultiple(x: nat, w: nat)
    requires w != 0
    ensures AlignDown(x, w) % w == 0
  {
    var q := x / w;
    assert x - x % w == w * q;
    Quotient(w * q, w, q);
  }

  /** Which elements become fields: `at` lists the named ones among the first n, in order. */
  ghost predicate ListsNamed(elements: seq<Element>, n: nat, at: seq<nat>)
    requires n <= |elements|
  {
    && (forall k | 0 <= k < |at| :: at[k] < n && elements[at[k]].Named?)
    && (forall j, k | 0 <= j < k < |at| :: at[j] < at[k])
    && (forall e | 0 <= e < n && elements[e].Named? :: e in at)
  }

  /** Field k is the k-th named element: its own length, at the sum of the lengths ahead of it. */
  ghost predicate LaidOut(elements: seq<Element>, kind: nat, rule: UpdateRule, at: seq<nat>, fields: seq<Unit>) {
    && |fields| == |at|
    && forall k | 0 <= k < |at| ::
         && at[k] < |elements| && elements[at[k]].Named?
         && Shaped(fields[k]) && fields[k].rule == rule
         && fields[k].width == WidthOf(KindAt(elements, kind, at[k]))
         && fields[k].bitLength == elements[at[k]].length
         && Start(fields[k]) == OffsetOf(elements, at[k]) % (8 * TWO32)
  }

  /** Places the fields of a field list; an invalid access type in force at a field is an error. */
  method CreateFields(elements: seq<Element>, kind: nat, rule: UpdateRule)
    returns (ok: bool, fields: seq<Unit>, ghost at: seq<nat>)
    ensures ok <==> forall e | 0 <= e < |elements| :: elements[e].Named? ==> WidthOf(KindAt(elements, kind, e)) != 0
    ensures LaidOut(elements, kind, rule, at, fields)
    ensures ok ==> ListsNamed(elements, |elements|, at)
  {
    fields, at := [], [];
    var bitOffset, accessType := 0, kind;
    for n := 0 to |elements|
      invariant bitOffset == OffsetOf(elements, n) && accessType == KindAt(elements, kind, n)
      invariant forall e | 0 <= e < n :: elements[e].Named? ==> WidthOf(KindAt(elements, kind, e)) != 0
      invariant LaidOut(elements, kind, rule, at, fields) && ListsNamed(elements, n, at)
    {
      match elements[n]
      case Named(length) =>
        var width := WidthOf(accessType);
        if width == 0 {
          return false, fields, at;
        }
        fields := fields + [Place(bitOffset, length, width, rule)];
        at := at + [n];
        bitOffset := bitOffset + length;
      case Gap(length) =>
        bitOffset := bitOffset + length;
      case AccessAs(k) =>
        accessType := k;
    }
    ok := true;
  }

  lemma {:induction false} OffsetsGrow(elements: seq<Element>, m: nat, n: nat)
    requires m < n <= |elements|
    ensures OffsetOf(elements, m) + Length(elements[m]) <= OffsetOf(elements, n)
    decreases n - m
  {
    if m + 1 < n {
      OffsetsGrow(elements, m, n - 1);
    }
  }

  /** While the list fits the 32-bit byte offset, no two of its fields share a bit. */
  lemma LaidOutApart(elements: seq<Element>, kind: nat, rule: UpdateRule, at: seq<nat>, fields: seq<Unit>)
    requires ListsNamed(elements, |elements|, at) && LaidOut(elements, kind, rule, at, fields)
    requires OffsetOf(elements, |elements|) <= 8 * TWO32
    ensures forall j, k | 0 <= j < k < |fields| :: Apart(fields[j], fields[k])
    ensures rule.Preserve? ==> Independent(fields)
  {
    forall j, k | 0 <= j < k < |fields| ensures Apart(fields[j], fields[k]) {
      hide WidthOf, KindAt, OffsetOf;
      var x, y := OffsetOf(elements, at[j]), OffsetOf(elements, at[k]);
      OffsetsGrow(elements, at[j], at[k]);
      OffsetsGrow(elements, at[k], |elements|);
      if y < 8 * TWO32 {
        Remainder(x, 8 * TWO32, 0, x);
        Remainder(y, 8 * TWO32, 0, y);
      } else {
        Remainder(y, 8 * TWO32, 1, 0);
      }
    }
  }

  predicate Within(bit: int, start: nat, length: nat) {
    start <= bit < start + length
  }

  /** The bits from `start` on and those from `other` on have none in common. */
  ghost predicate NoCommonBit(start: nat, length: nat, other: nat, otherLength: nat) {
    forall bit | Within(bit, start, length) :: !Within(bit, other, otherLength)
  }

  /**
   * Whatever the list, two of its fields share no bit exactly when their ranges
   * do not meet modulo 2^35; fields that start in one stretch of 2^35 never do.
   */
  lemma ApartExactly(elements: seq<Element>, kind: nat, rule: UpdateRule, at: seq<nat>, fields: seq<Unit>, j: nat,
      k: nat)
    requires ListsNamed(elements, |elements|, at) && LaidOut(elements, kind, rule, at, fields) && j < k < |fields|
    requires elements[at[j]].length != 0 && elements[at[k]].length != 0
    ensures var x, y := OffsetOf(elements, at[j]), OffsetOf(elements, at[k]);
            && (Apart(fields[j], fields[k])
                <==> NoCommonBit(x % (8 * TWO32), elements[at[j]].length, y % (8 * TWO32), elements[at[k]].length))
            && (x / (8 * TWO32) == y / (8 * TWO32) ==> Apart(fields[j], fields[k]))
  {
    hide WidthOf, KindAt, OffsetOf, NoCommonBit;
    var x, y, m := OffsetOf(elements, at[j]), OffsetOf(elements, at[k]), 8 * TWO32;
    Meet(x % m, elements[at[j]].length, y % m, elements[at[k]].length);
    OffsetsGrow(elements, at[j], at[k]);
    if x / m == y / m {
      SameStretch(x, elements[at[j]].length, y, m);
    }
  }

  lemma Meet(start: nat, length: nat, other: nat, otherLength: nat)
    requires length != 0 && otherLength != 0
    ensures NoCommonBit(start, length, other, otherLength)
            <==> start + length <= other || other + otherLength <= start
  {
    assert Within(start, start, length) && Within(other, other, otherLength);
  }

  lemma SameStretch(x: nat, length: nat, y: nat, m: nat)
    requires m > 0 && x + length <= y && x / m == y / m
    ensures x % m + length <= y % m
  {
    assert x == m * (x / m) + x % m && y == m * (y / m) + y % m;
  }

  /** The longest gap a package length can spell. */
  const MAX_LENGTH: nat := 0xFFF_FFFF

  /** Two bytes, the second 2^35 + 4 bits after the first, with gaps no longer than can be encoded between
      them: they share half a byte. */
  lemma FarFieldsCollide(rule: UpdateRule) returns (elements: seq<Element>, at: seq<nat>, fields: seq<Unit>)
    ensures elements == [Named(8)] + seq(128, _ => Gap(MAX_LENGTH)) + [Gap(124), Named(8)]
    ensures forall e | e in elements :: Length(e) <= MAX_LENGTH
    ensures ListsNamed(elements, |elements|, at) && LaidOut(elements, 1, rule, at, fields) && |fields| == 2
    ensures !Apart(fields[0], fields[1])
  {
    hide OffsetOf, KindAt, LaidOut, ListsNamed, WidthOf, Apart, Start, Shaped;
    elements := [Named(8)] + seq(128, _ => Gap(MAX_LENGTH)) + [Gap(124), Named(8)];
    FarElements(elements);
    at, fields := FarLayout(elements, rule, 8 * TWO32 + 4);
  }

  lemma FarElements(elements: seq<Element>)
    requires elements == [Named(8)] + seq(128, _ => Gap(MAX_LENGTH)) + [Gap(124), Named(8)]
    ensures |elements| == 131 && elements[0] == elements[130] == Named(8)
    ensures forall i | 1 <= i < 130 :: elements[i].Gap? && elements[i].length <= MAX_LENGTH
    ensures forall e | e in elements :: Length(e) <= MAX_LENGTH
    ensures OffsetOf(elements, 0) == 0 && KindAt(elements, 1, 0) == 1
    ensures OffsetOf(elements, 130) == 8 * TWO32 + 4 && KindAt(elements, 1, 130) == 1
  {
    hide OffsetOf, KindAt;
    assert elements[0] == Named(8) && elements[129] == Gap(124) && elements[130] == Named(8);
    assert forall i | 1 <= i <= 128 :: elements[i] == Gap(MAX_LENGTH);
    OffsetStep(elements, 1, 0);
    GapsAdd(elements, 1, MAX_LENGTH, 128);
    OffsetStep(elements, 1, 129);
  }

  lemma FarLayout(elements: seq<Element>, rule: UpdateRule, far: nat) returns (at: seq<nat>, fields: seq<Unit>)
    requires |elements| == 131 && elements[0] == elements[130] == Named(8) && far == 8 * TWO32 + 4
    requires forall i | 1 <= i < 130 :: elements[i].Gap?
    requires OffsetOf(elements, 0) == 0 && KindAt(elements, 1, 0) == 1
    requires OffsetOf(elements, 130) == far && KindAt(elements, 1, 130) == 1
    ensures ListsNamed(elements, |elements|, at) && LaidOut(elements, 1, rule, at, fields) && |fields| == 2
    ensures !Apart(fields[0], fields[1])
  {
    hide OffsetOf, KindAt, Place, WidthOf, LaidOut, ListsNamed, Shaped, Start;
    Remainder(0, 8 * TWO32, 0, 0);
    Remainder(far, 8 * TWO32, 1, 4);
    assert WidthOf(1) == 1 by { ByteAccess(); }
    at, fields := TwoFields(elements, rule, 130, 0, far, 1);
  }

  lemma ByteAccess()
    ensures WidthOf(1) == 1
  {
  }

  /** A list with a byte at each end and only gaps between them. */
  lemma TwoFields(elements: seq<Element>, rule: UpdateRule, n: nat, x: nat, y: nat, kind: nat)
    returns (at: seq<nat>, fields: seq<Unit>)
    requires 0 < n && |elements| == n + 1 && elements[0] == elements[n] == Named(8) && WidthOf(kind) == 1
    requires forall i | 1 <= i < n :: elements[i].Gap?
    requires OffsetOf(elements, 0) == x && KindAt(elements, kind, 0) == kind
    requires OffsetOf(elements, n) == y && KindAt(elements, kind, n) == kind
    ensures ListsNamed(elements, |elements|, at) && LaidOut(elements, kind, rule, at, fields) && |fields| == 2
    ensures Start(fields[0]) == x % (8 * TWO32) && Start(fields[1]) == y % (8 * TWO32)
    ensures fields[0].bitLength == fields[1].bitLength == 8
  {
    hide OffsetOf, KindAt, Place, WidthOf;
    at := [0, n];
    fields := [Place(x, 8, 1, rule), Place(y, 8, 1, rule)];
    assert at[0] == 0 && at[1] == n;
  }

  lemma OffsetStep(elements: seq<Element>, kind: nat, n: nat)
    requires n < |elements| && !elements[n].AccessAs?
    ensures OffsetOf(elements, n + 1) == OffsetOf(elements, n) + elements[n].length
    ensures KindAt(elements, kind, n + 1) == KindAt(elements, kind, n)
    ensures OffsetOf(elements, 0) == 0 && KindAt(elements, kind, 0) == kind
  {
  }

  /** n gaps of one length after the first element. */
  lemma {:induction false} GapsAdd(elements: seq<Element>, kind: nat, length: nat, n: nat)
    requires n < |elements| && forall i | 1 <= i <= n :: elements[i] == Gap(length)
    ensures OffsetOf(elements, n + 1) == OffsetOf(elements, 1) + n * length
    ensures KindAt(elements, kind, n + 1) == KindAt(elements, kind, 1)
  {
    hide OffsetOf, KindAt;
    if n != 0 {
      GapsAdd(elements, kind, length, n - 1);
      OffsetStep(elements, kind, n);
      assert n * length == (n - 1) * length + length;
    }
  }
}
