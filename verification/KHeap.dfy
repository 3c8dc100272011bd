/** The kernel heap of kernel/memory/kmalloc.c as an object: the words of the heap, the head of
    the free list, and the operations on them.  `layout` and `list` are ghost: they say which
    chunks the words encode.  kpanic never returns; a call that would reach it returns NULL or
    false here and leaves the heap alone. */
module KHeap {
  import opened HeapLayout
  import opened HeapWords

  predicate InHeapBounds(n: nat, addr: nat)
  {
    HEAP_START <= addr < HEAP_START + 8 * n
  }

  /** Index of the first chunk on the list that satisfies the search condition. */
  ghost function FirstFit(m: Layout, list: seq<nat>, need: nat, from: nat): (k: nat)
    requires from <= |list| && forall i | 0 <= i < |list| :: list[i] in m
    ensures from <= k <= |list|
    ensures k < |list| ==> Accepts(m[list[k]].size, need)
    ensures forall i | from <= i < k :: !Accepts(m[list[i]].size, need)
    decreases |list| - from
  {
    if from == |list| || Accepts(m[list[from]].size, need) then from
    else FirstFit(m, list, need, from + 1)
  }

  // ---------- a heap that is still sound ----------

  /** Every live block is still there. */
  ghost predicate LiveKept(m: Layout, m': Layout)
  {
    forall s | s in m && !m[s].free :: s in m' && m'[s] == m[s]
  }

  /** The words still are a heap, of some layout that has all the live blocks of m. */
  ghost predicate Survives(m: Layout, h: seq<nat>, head: nat)
  {
    exists m', list' :: WellFormed(h, head, m', list') && LiveKept(m, m')
  }

  /** With all live blocks in place, a chunk that was free cannot claim more than it had. */
  lemma FreeCannotGrow(h: seq<nat>, head: nat, m: Layout, s: int, m': Layout, list': seq<nat>)
    requires Shape(m, |h|) && s in m && m[s].free && 0 <= s < |h|
    requires WellFormed(h, head, m', list') && LiveKept(m, m')
    ensures GetSz(h[s]) <= 8 * m[s].size
  {
    hide GetSz, IsFree, IsPrevFree, Linked, ListsFree;
    if s > 0 {
      var p := LeftNeighbour(m, |h|, s, 0);
      assert Next(m, p) == s;
      assert Next(m', p) == s;
    }
    assert HeaderOk(h, m', s);
    assert Next(m', s) <= Next(m, s);
  }

  /** A free chunk whose header claims more than the chunk has cannot be explained by any layout: it runs
      into the live block behind it or past the end of the heap. */
  lemma Oversized(h: seq<nat>, head: nat, m: Layout, s: int)
    requires Shape(m, |h|) && s in m && m[s].free && 0 <= s < |h| && GetSz(h[s]) > 8 * m[s].size
    ensures !Survives(m, h, head)
  {
    hide GetSz, Shape, WellFormed, LiveKept;
    if Survives(m, h, head) {
      var m', list' :| WellFormed(h, head, m', list') && LiveKept(m, m');
      FreeCannotGrow(h, head, m, s, m', list');
    }
  }

  lemma StillSound(h: seq<nat>, head: nat, m: Layout, m': Layout, list': seq<nat>)
    requires WellFormed(h, head, m', list') && LiveKept(m, m')
    ensures Survives(m, h, head)
  {
    hide WellFormed, LiveKept;
  }

  lemma AllocateKeepsLive(m: Layout, n: int, f: int, need: nat)
    requires Shape(m, n) && f in m && m[f].free && Fits(m[f].size, need) && MIN_WORDS <= need
    ensures LiveKept(m, Allocate(m, f, need))
  {
    forall s | s in m && !m[s].free ensures s in Allocate(m, f, need) && Allocate(m, f, need)[s] == m[s] {
      ChunkFacts(m, n, f, s);
    }
  }

  /** The exact fit: the chunk behind the one at f no longer has a free chunk before it. */
  method ClearNextPrevFree(mem: array<nat>, f: nat, freeSz: nat, ghost m: Layout)
    requires Tiles(m, mem.Length) && f in m && freeSz == 8 * m[f].size
    modifies mem
    ensures forall k | 0 <= k < mem.Length && k != Next(m, f) :: mem[k] == old(mem[k])
    ensures Next(m, f) < mem.Length ==> mem[Next(m, f)] == PutPrevFree(old(mem[Next(m, f)]), false)
  {
    ChunkFacts(m, mem.Length, f, f);
    var nextAddr := Ptr(f) + freeSz;
    assert nextAddr == Ptr(f + freeSz / 8);
    if InHeapBounds(mem.Length, nextAddr) {
      mem[Idx(nextAddr)] := PutPrevFree(mem[Idx(nextAddr)], false);
    }
  }

  /** Writing the header of a spaced node leaves the links of a list alone, and so does writing
      its footer. */
  lemma HeaderAndFooterFrame(h: seq<nat>, h': seq<nat>, head: nat, list: seq<nat>, r: nat, end: nat)
    requires Linked(h, head, list) && |h'| == |h|
    requires Spaced([r] + list) && r + MIN_WORDS <= end <= |h|
    requires forall i | 0 <= i < |list| :: list[i] < r || end <= list[i]
    requires forall k | 0 <= k < |h| && k != r && k != end - 1 :: h'[k] == h[k]
    ensures Linked(h', head, list)
  {
    var list' := [r] + list;
    forall i | 0 <= i < |list| && list[i] + 2 < |h|
      ensures h'[list[i] + 1] == h[list[i] + 1] && h'[list[i] + 2] == h[list[i] + 2]
    {
      assert list'[i + 1] == list[i] && Apart(list'[0], list'[i + 1]);
    }
    LinkedFrame(h, h', head, list);
  }

  lemma FooterFrame(h: seq<nat>, h': seq<nat>, head: nat, list: seq<nat>, footer: nat)
    requires Linked(h, head, list) && footer < |h| && |h'| == |h|
    requires forall i | 0 <= i < |list| :: list[i] + 3 <= footer || footer <= list[i]
    requires forall k | 0 <= k < |h| && k != footer :: h'[k] == h[k]
    ensures Linked(h', head, list)
  {
    LinkedFrame(h, h', head, list);
  }

  lemma HeaderIsNoLink(h: seq<nat>, h': seq<nat>, list: seq<nat>, r: nat)
    requires OnlyLinks(h, h', [r] + list) && Spaced([r] + list) && r < |h|
    ensures h'[r] == h[r]
  {
    var list' := [r] + list;
    forall i | 0 <= i < |list'| ensures list'[i] != r - 1 && list'[i] != r - 2 {
      assert i > 0 ==> Apart(list'[0], list'[i]);
    }
  }

  /** The words from f + need to the end of the chunk at f were made a free chunk, and only they
      and links of the nodes in `rest` were written. */
  ghost predicate RemainderSet(h: seq<nat>, h': seq<nat>, f: nat, need: nat, size: nat, rest: seq<nat>)
  {
    && |h'| == |h| && f + need < f + size <= |h|
    && (forall k {:trigger h'[k]} | 0 <= k < |h| && h'[k] != h[k] ::
          f + need <= k < f + size || k - 1 in rest || k - 2 in rest)
    && GetSz(h'[f + need]) == 8 * (size - need) && IsFree(h'[f + need]) && !IsPrevFree(h'[f + need])
    && h'[f + size - 1] == 8 * (size - need)
  }

  /** There is room for the remainder behind the allocated front, and for its node in front of the list. */
  ghost predicate SplitsOk(h: seq<nat>, head: nat, f: nat, freeSz: nat, allocSz: nat, list: seq<nat>)
  {
    && allocSz % 8 == 0 && freeSz % 8 == 0 && 32 <= allocSz && allocSz + 32 <= freeSz
    && f + freeSz / 8 <= |h|
    && Linked(h, head, list) && Spaced([f + allocSz / 8] + list)
    && forall i | 0 <= i < |list| :: list[i] < f || f + freeSz / 8 <= list[i]
  }

  /** The split: the rest of the chunk [f, end) becomes a free chunk at the front of the list.  Addresses
      and sizes have 64 bits. */
  method SplitOff(mem: array<nat>, head: nat, f: nat, freeSz: nat, allocSz: nat, ghost list: seq<nat>)
    returns (head': nat)
    requires HEAP_START + 8 * mem.Length <= SIZE_LIMIT
    modifies mem
    ensures old(SplitsOk(mem[..], head, f, freeSz, allocSz, list)) ==>
      && Linked(mem[..], head', [f + allocSz / 8] + list)
      && RemainderSet(old(mem[..]), mem[..], f, allocSz / 8, freeSz / 8, list)
  {
    hide GetSz, IsFree, IsPrevFree, Linked, Spaced, OnlyLinks, RemainderSet;
    ghost var h := mem[..];
    ghost var ok := SplitsOk(h, head, f, freeSz, allocSz, list);
    var remainAddr := (Ptr(f) + allocSz) % SIZE_LIMIT;
    var remainSz := (freeSz - allocSz) % SIZE_LIMIT;
    var r := Idx(remainAddr);
    if ok {
      RemainderIsInHeap(mem.Length, f, freeSz, allocSz);
      assert r == f + allocSz / 8 && r + (freeSz - allocSz) / 8 - 1 == f + freeSz / 8 - 1;
    }
    hide Ptr, Idx, SplitsOk, OffList;
    Poke(mem, r, PutPrevFree(PutFree(SetSz(Peek(mem, r), remainSz), true), false));
    ghost var h1 := mem[..];
    if ok {
      RemainderHeader(h, h1, head, f, freeSz, allocSz, list);
    }
    head' := FreelistAddNode(mem, head, remainAddr, list);
    ghost var h2 := mem[..];
    if ok {
      HeaderIsNoLink(h1, h2, list, r);
    }
    var sz := if 0 <= r < mem.Length then GetSz(mem[r]) else remainSz;
    Poke(mem, r + sz / 8 - 1, sz);
    if ok {
      RemainderFooter(h, h1, h2, mem[..], head', f, freeSz, allocSz, list);
    }
  }

  lemma RemainderHeader(h: seq<nat>, h1: seq<nat>, head: nat, f: nat, freeSz: nat, allocSz: nat, list: seq<nat>)
    requires SplitsOk(h, head, f, freeSz, allocSz, list)
    requires |h1| == |h| && h1 == h[f + allocSz / 8 := h1[f + allocSz / 8]]
    ensures OffList(h1, head, Ptr(f + allocSz / 8), list)
  {
    hide Linked, Spaced;
    HeaderAndFooterFrame(h, h1, head, list, f + allocSz / 8, f + freeSz / 8);
  }

  lemma RemainderFooter(h: seq<nat>, h1: seq<nat>, h2: seq<nat>, h3: seq<nat>, head': nat,
                        f: nat, freeSz: nat, allocSz: nat, list: seq<nat>)
    requires allocSz % 8 == 0 && freeSz % 8 == 0 && 32 <= allocSz && allocSz + 32 <= freeSz && f + freeSz / 8 <= |h|
    requires Linked(h2, head', [f + allocSz / 8] + list) && Spaced([f + allocSz / 8] + list)
    requires forall i | 0 <= i < |list| :: list[i] < f || f + freeSz / 8 <= list[i]
    requires var r := f + allocSz / 8;
      h1 == h[r := PutPrevFree(PutFree(SetSz(h[r], freeSz - allocSz), true), false)]
      && OnlyLinks(h1, h2, [r] + list) && h2[r] == h1[r]
    requires h3 == h2[f + freeSz / 8 - 1 := freeSz - allocSz]
    ensures Linked(h3, head', [f + allocSz / 8] + list)
    ensures RemainderSet(h, h3, f, allocSz / 8, freeSz / 8, list)
  {
    hide GetSz, IsFree, IsPrevFree, Linked, Spaced, RemainderSet;
    var l := [f + allocSz / 8] + list;
    assert forall i | 1 <= i < |l| :: l[i] == list[i - 1];
    FooterFrame(h2, h3, head', l, f + freeSz / 8 - 1);
    RemainderIsSet(h, h1, h2, h3, f, allocSz / 8, freeSz / 8, list);
  }

  function Peek(mem: array<nat>, i: int): nat
    reads mem
  {
    if 0 <= i < mem.Length then mem[i] else 0
  }

  lemma RemainderIsInHeap(n: nat, f: nat, freeSz: nat, allocSz: nat)
    requires HEAP_START + 8 * n <= SIZE_LIMIT && allocSz % 8 == 0 && freeSz % 8 == 0
    requires 32 <= allocSz && allocSz + 32 <= freeSz && f + freeSz / 8 <= n
    ensures (Ptr(f) + allocSz) % SIZE_LIMIT == Ptr(f + allocSz / 8)
      && (freeSz - allocSz) % SIZE_LIMIT == freeSz - allocSz
    ensures HEAP_START <= Ptr(f + allocSz / 8) && Idx(Ptr(f + allocSz / 8)) == f + allocSz / 8
  {
  }

  lemma RemainderIsSet(h: seq<nat>, h1: seq<nat>, h2: seq<nat>, h3: seq<nat>, f: nat, need: nat, size: nat,
      list: seq<nat>)
    requires need + MIN_WORDS <= size && f + size <= |h|
    requires h1 == h[f + need := PutPrevFree(PutFree(SetSz(h[f + need], 8 * (size - need)), true), false)]
    requires OnlyLinks(h1, h2, [f + need] + list) && h2[f + need] == h1[f + need]
    requires h3 == h2[f + size - 1 := 8 * (size - need)]
    ensures RemainderSet(h, h3, f, need, size, list)
  {
    hide GetSz, IsFree, IsPrevFree;
    var l := [f + need] + list;
    forall k | 0 <= k < |h| && h3[k] != h[k]
      ensures f + need <= k < f + size || k - 1 in list || k - 2 in list
    {
      assert k - 1 in l ==> k - 1 == f + need || k - 1 in list;
      assert k - 2 in l ==> k - 2 == f + need || k - 2 in list;
    }
  }

  /** A chunk start is never a link word of a list of chunks. */
  lemma StartIsNoLink(m: Layout, n: int, list: seq<nat>, s: int)
    requires Tiles(m, n) && s in m && forall i | 0 <= i < |list| :: list[i] in m
    ensures s - 1 !in list && s - 2 !in list
  {
  }

  /** Off the chunk taken, kmalloc writes links of free chunks and one header. */
  ghost predicate CarveStep(h: seq<nat>, h': seq<nat>, f: nat, end: int, list: seq<nat>)
  {
    && |h'| == |h|
    && forall k {:trigger h'[k]} | 0 <= k < |h| && h'[k] != h[k] :: f <= k <= end || k - 1 in list || k - 2 in list
  }

  lemma CarveTouches(h: seq<nat>, h': seq<nat>, m: Layout, f: nat, need: nat, list: seq<nat>)
    requires f in m && ListsFree(m, list) && CarveStep(h, h', f, Next(m, f), list)
    ensures AllocTouches(h, h', m, f, need)
  {
    forall k | 0 <= k < |h| && h'[k] != h[k] && !(f <= k <= Next(m, f)) ensures IsLink(m, f, k) {
      var j := if k - 1 in list then k - 1 else k - 2;
      var i :| 0 <= i < |list| && list[i] == j;
    }
  }

  /** The list after the k-th chunk was carved: the remainder, if any, in front of the others. */
  ghost function ListAfterCarve(m: Layout, list: seq<nat>, k: nat, need: nat): seq<nat>
    requires k < |list| && list[k] in m
  {
    if m[list[k]].size <= need then Without(list, k) else [list[k] + need] + Without(list, k)
  }

  lemma CarveList(m: Layout, n: int, list: seq<nat>, k: nat, need: nat)
    requires Shape(m, n) && ListsFree(m, list) && k < |list|
    requires Fits(m[list[k]].size, need) && MIN_WORDS <= need
    ensures ListsFree(Allocate(m, list[k], need), ListAfterCarve(m, list, k, need))
    ensures Spaced(ListAfterCarve(m, list, k, need))
    ensures forall i | 0 <= i < |list| - 1 ::
      Without(list, k)[i] < list[k] || list[k] + m[list[k]].size <= Without(list, k)[i]
  {
    hide NoAdjacentFree;
    var f := list[k];
    var m' := Allocate(m, f, need);
    CarveListsFree(m, n, list, k, need);
    AllocateShape(m, n, f, need);
    ListIsSpaced(m', n, ListAfterCarve(m, list, k, need));
    forall i | 0 <= i < |list| - 1
      ensures Without(list, k)[i] < f || f + m[f].size <= Without(list, k)[i]
    {
      ChunkFacts(m, n, f, Without(list, k)[i]);
    }
  }

  lemma CarveListsFree(m: Layout, n: int, list: seq<nat>, k: nat, need: nat)
    requires Shape(m, n) && ListsFree(m, list) && k < |list|
    requires Fits(m[list[k]].size, need) && MIN_WORDS <= need
    ensures ListsFree(Allocate(m, list[k], need), ListAfterCarve(m, list, k, need))
  {
    var f := list[k];
    var m1 := m[f := Chunk(m[f].size, false)];
    ListAfterRemove(m, m1, list, k);
    assert m[f].size > need ==> f + need !in m;
    hide Tiles, NoAdjacentFree, ListsFree;
    if m[f].size > need {
      ListAfterAdd(m1, Allocate(m, f, need), Without(list, k), f + need);
    } else {
      assert Allocate(m, f, need) == m1;
    }
  }

  /** Headers and footers are in place after carving: the heap is well formed again and every
      live payload is untouched. */
  lemma CarveIsWellFormed(h: seq<nat>, h': seq<nat>, head: nat, head': nat, m: Layout, list: seq<nat>, k: nat,
      need: nat)
    requires WellFormed(h, head, m, list) && k < |list| && list[k] in m
    requires Fits(m[list[k]].size, need) && MIN_WORDS <= need
    requires CarveStep(h, h', list[k], Next(m, list[k]), list)
    requires CarvedEnds(h, h', list[k], need, Next(m, list[k]))
    requires Linked(h', head', ListAfterCarve(m, list, k, need))
    ensures WellFormed(h', head', Allocate(m, list[k], need), ListAfterCarve(m, list, k, need))
    ensures PayloadKept(h, h', m, list[k])
  {
    hide GetSz, IsFree, IsPrevFree, Tiles, NoAdjacentFree, Linked, HeaderOk, BoundaryOk, PayloadKept;
    var f := list[k];
    assert m[f].free;
    CarveTouches(h, h', m, f, need, list);
    AllocKeepsPayload(h, h', m, f, need);
    AllocTagged(h, h', m, f, need);
    AllocateShape(m, |h|, f, need);
    CarveList(m, |h|, list, k, need);
  }

  lemma CarvedWhole(h: seq<nat>, h1: seq<nat>, h2: seq<nat>, m: Layout, f: nat, need: nat, list: seq<nat>)
    requires Tiles(m, |h|) && ListsFree(m, list) && f in m && m[f].size == need
    requires OnlyLinks(h, h1, list) && |h2| == |h|
    requires forall k | 0 <= k < |h| && k != Next(m, f) && k != f :: h2[k] == h1[k]
    requires 0 <= Next(m, f) < |h| ==> h2[Next(m, f)] == PutPrevFree(h1[Next(m, f)], false)
    requires h2[f] == PutFree(SetSz(h1[f], 8 * need), false)
    ensures CarveStep(h, h2, f, Next(m, f), list)
    ensures CarvedEnds(h, h2, f, need, Next(m, f))
  {
    hide GetSz, IsFree, IsPrevFree;
    ChunkFacts(m, |h|, f, f);
    StartIsNoLink(m, |h|, list, f);
    if Next(m, f) in m { StartIsNoLink(m, |h|, list, Next(m, f)); }
  }

  lemma CarvedFront(h: seq<nat>, h1: seq<nat>, h2: seq<nat>, h3: seq<nat>, m: Layout, f: nat, need: nat,
      list: seq<nat>, rest: seq<nat>)
    requires Tiles(m, |h|) && ListsFree(m, list) && f in m && need < m[f].size && MIN_WORDS <= need
    requires forall j | j in rest :: j in list
    requires OnlyLinks(h, h1, list) && RemainderSet(h1, h2, f, need, m[f].size, rest)
    requires h3 == h2[f := PutFree(SetSz(h2[f], 8 * need), false)]
    ensures CarveStep(h, h3, f, Next(m, f), list)
    ensures CarvedEnds(h, h3, f, need, Next(m, f))
  {
    hide GetSz, IsFree, IsPrevFree;
    ChunkFacts(m, |h|, f, f);
    StartIsNoLink(m, |h|, list, f);
    if Next(m, f) in m { StartIsNoLink(m, |h|, list, Next(m, f)); }
  }

  /** Headers of the chunk at f and of its right neighbour are not links of other free chunks. */
  lemma StartFrame(h: seq<nat>, h': seq<nat>, head: nat, list: seq<nat>, m: Layout, f: nat)
    requires Tiles(m, |h|) && f in m && Linked(h, head, list) && |h'| == |h|
    requires forall i | 0 <= i < |list| :: list[i] in m || f < list[i] <= Next(m, f) - MIN_WORDS
    requires forall k | 0 <= k < |h| && k != f && k != Next(m, f) :: h'[k] == h[k]
    ensures Linked(h', head, list)
  {
    hide NodeLinked;
    forall i | 0 <= i < |list| && list[i] + 2 < |h|
      ensures h'[list[i] + 1] == h[list[i] + 1] && h'[list[i] + 2] == h[list[i] + 2]
    {
      if list[i] in m { ChunkFacts(m, |h|, f, list[i]); }
    }
    LinkedFrame(h, h', head, list);
  }

  lemma RestOfList(m: Layout, list: seq<nat>, k: nat, need: nat)
    requires k < |list| && ListsFree(m, list) && need + MIN_WORDS <= m[list[k]].size
    ensures forall j | j in Without(list, k) :: j in list
    ensures var l := [list[k] + need] + Without(list, k);
      forall i | 0 <= i < |l| :: l[i] == list[k] + need || l[i] in m
  {
    var l := [list[k] + need] + Without(list, k);
    forall i | 1 <= i < |l| ensures l[i] in m {
      assert l[i] == list[if i - 1 < k then i - 1 else i];
    }
  }

  /** The words h of a heap after the k-th chunk was unlinked (h1), the remainder of it set up
      (h2) and the header of the front written, are those of the heap with the front allocated. */
  lemma CarveFrontIsWellFormed(h: seq<nat>, h1: seq<nat>, h2: seq<nat>, head: nat, head': nat, m: Layout,
      list: seq<nat>, k: nat, need: nat)
    requires WellFormed(h, head, m, list) && k < |list| && MIN_WORDS <= need && need + MIN_WORDS <= m[list[k]].size
    requires OnlyLinks(h, h1, list) && |h2| == |h|
    requires RemainderSet(h1, h2, list[k], need, m[list[k]].size, Without(list, k))
    requires Linked(h2, head', [list[k] + need] + Without(list, k))
    ensures var f := list[k]; var h3 := h2[f := PutFree(SetSz(h2[f], 8 * need), false)];
      && WellFormed(h3, head', Allocate(m, f, need), ListAfterCarve(m, list, k, need))
      && PayloadKept(h, h3, m, f)
  {
    hide GetSz, IsFree, IsPrevFree, Tiles, NoAdjacentFree, Linked, HeaderOk, BoundaryOk, OnlyLinks, PayloadKept,
        CarvedEnds, CarveStep, Tagged;
    var f := list[k];
    var h3 := h2[f := PutFree(SetSz(h2[f], 8 * need), false)];
    ChunkFacts(m, |h|, f, f);
    RestOfList(m, list, k, need);
    CarvedFront(h, h1, h2, h3, m, f, need, list, Without(list, k));
    StartFrame(h2, h3, head', [f + need] + Without(list, k), m, f);
    CarveIsWellFormed(h, h3, head, head', m, list, k, need);
  }

  /** The exact fit: the k-th chunk of the list is allocated as it is. */
  method CarveWhole(mem: array<nat>, head: nat, free: nat, freeSz: nat, ghost m: Layout, ghost list: seq<nat>,
      ghost k: nat)
    returns (head': nat)
    requires WellFormed(mem[..], head, m, list) && k < |list| && list[k] in m
    requires free == Ptr(list[k]) && freeSz == 8 * m[list[k]].size
    modifies mem
    ensures WellFormed(mem[..], head', Allocate(m, list[k], freeSz / 8), ListAfterCarve(m, list, k, freeSz / 8))
    ensures PayloadKept(old(mem[..]), mem[..], m, list[k])
  {
    hide GetSz, IsFree, IsPrevFree, Tiles, NoAdjacentFree, Linked, HeaderOk, BoundaryOk, OnlyLinks, PayloadKept,
        Spaced, CarvedEnds, CarveStep, Tagged;
    var f: nat := Idx(free);
    ghost var need, h := freeSz / 8, mem[..];
    ListIsSpaced(m, mem.Length, list);
    ChunkFacts(m, mem.Length, f, f);
    CarveList(m, mem.Length, list, k, need);
    head' := FreelistRemoveNode(mem, head, free, list, k);
    ghost var h1 := mem[..];
    ClearNextPrevFree(mem, f, freeSz, m);
    mem[f] := SetSz(mem[f], freeSz);
    mem[f] := PutFree(mem[f], false);
    CarvedWhole(h, h1, mem[..], m, f, need, list);
    StartFrame(h1, mem[..], head', Without(list, k), m, f);
    CarveIsWellFormed(h, mem[..], head, head', m, list, k, need);
  }

  lemma FrontIsReady(m: Layout, n: int, list: seq<nat>, k: nat, need: nat)
    requires Shape(m, n) && ListsFree(m, list) && k < |list|
    requires MIN_WORDS <= need && need + MIN_WORDS <= m[list[k]].size
    ensures Spaced(list) && Spaced([list[k] + need] + Without(list, k))
    ensures list[k] + m[list[k]].size <= n
    ensures forall i | 0 <= i < |list| - 1 ::
      Without(list, k)[i] < list[k] || list[k] + m[list[k]].size <= Without(list, k)[i]
  {
    ListIsSpaced(m, n, list);
    ChunkFacts(m, n, list[k], list[k]);
    CarveList(m, n, list, k, need);
  }

  /** The split: the front of the k-th chunk of the list is allocated, the rest stays free.  A request too
      long for that leaves a chunk behind that claims to be longer than the heap. */
  method CarveFront(mem: array<nat>, head: nat, free: nat, freeSz: nat, allocSz: nat,
                    ghost m: Layout, ghost list: seq<nat>, ghost k: nat) returns (head': nat)
    requires WellFormed(mem[..], head, m, list) && k < |list| && list[k] in m
    requires HEAP_START + 8 * mem.Length <= SIZE_LIMIT
    requires free == Ptr(list[k]) && freeSz == 8 * m[list[k]].size && allocSz % 8 == 0 && 32 <= allocSz
    modifies mem
    ensures allocSz + 32 <= freeSz ==>
      && WellFormed(mem[..], head', Allocate(m, list[k], allocSz / 8), ListAfterCarve(m, list, k, allocSz / 8))
      && PayloadKept(old(mem[..]), mem[..], m, list[k])
    ensures list[k] < mem.Length && GetSz(mem[list[k]]) == allocSz
  {
    hide GetSz, IsFree, IsPrevFree, Linked, OnlyLinks, PayloadKept, Spaced, Tagged, Allocate, Ptr, ListAfterCarve,
        Shape;
    hide RemainderSet;
    var f: nat := Idx(free);
    ghost var need, h, rest := allocSz / 8, mem[..], Without(list, k);
    ListedInHeap(h, head, m, list, k);
    if allocSz + 32 <= freeSz {
      FrontIsReady(m, mem.Length, list, k, need);
    }
    hide ListsFree;
    head' := FreelistRemoveNode(mem, head, free, list, k);
    ghost var h1 := mem[..];
    head' := SplitOff(mem, head', f, freeSz, allocSz, rest);
    ghost var h2 := mem[..];
    if allocSz + 32 <= freeSz {
      CarveFrontIsWellFormed(h, h1, h2, head, head', m, list, k, need);
    }
    mem[f] := PutFree(SetSz(mem[f], allocSz), false);
    assert mem[..] == h2[f := PutFree(SetSz(h2[f], 8 * need), false)];
  }

  lemma ListedInHeap(h: seq<nat>, head: nat, m: Layout, list: seq<nat>, k: nat)
    requires WellFormed(h, head, m, list) && k < |list|
    ensures OnList(h, head, Ptr(list[k]), list, k) && list[k] < |h|
  {
    ListIsSpaced(m, |h|, list);
    assert NodeLinked(h, list, k);
  }

  // ---------- freeing ----------

  /** The chunk on the right of x, if freeing x absorbs it. */
  ghost predicate Absorbs(m: Layout, x: int)
    requires x in m
  {
    Next(m, x) in m && m[Next(m, x)].free
  }

  /** The list after x was freed; k is where the absorbed right neighbour stood. */
  ghost function ListAfterFree(m: Layout, list: seq<nat>, x: nat, lo: int, k: nat): seq<nat>
    requires x in m && (Absorbs(m, x) ==> k < |list|)
  {
    var rest := if Absorbs(m, x) then Without(list, k) else list;
    if lo == x then [x] + rest else rest
  }

  /** The chunks between lo and the end of the merged chunk are lo, x and the absorbed one. */
  lemma MergedChunks(m: Layout, n: int, x: int, lo: int, s: int)
    requires Tiles(m, n) && MergeStart(m, x, lo) && s in m && lo <= s < MergeEnd(m, x)
    ensures s == lo || s == x || (Absorbs(m, x) && s == Next(m, x))
  {
  }

  lemma FreeList(m: Layout, n: int, list: seq<nat>, x: nat, lo: int, k: nat)
    requires Shape(m, n) && ListsFree(m, list) && x in m && !m[x].free && MergeStart(m, x, lo)
    requires Absorbs(m, x) ==> k < |list| && list[k] == Next(m, x)
    ensures ListsFree(Merge(m, lo, MergeEnd(m, x)), ListAfterFree(m, list, x, lo, k))
    ensures Spaced(ListAfterFree(m, list, x, lo, k))
  {
    FreeListsFree(m, n, list, x, lo, k);
    FreeShape(m, n, x, lo);
    ListIsSpaced(Merge(m, lo, MergeEnd(m, x)), n, ListAfterFree(m, list, x, lo, k));
  }

  lemma FreeListsFree(m: Layout, n: int, list: seq<nat>, x: nat, lo: int, k: nat)
    requires Shape(m, n) && ListsFree(m, list) && x in m && !m[x].free && MergeStart(m, x, lo)
    requires Absorbs(m, x) ==> k < |list| && list[k] == Next(m, x)
    ensures lo <= MergeEnd(m, x)
    ensures ListsFree(Merge(m, lo, MergeEnd(m, x)), ListAfterFree(m, list, x, lo, k))
  {
    FreeShape(m, n, x, lo);
    var m' := Merge(m, lo, MergeEnd(m, x));
    forall s | s in m && m[s].free && !(Absorbs(m, x) && s == Next(m, x)) ensures s in m' && m'[s].free {
      if lo <= s < MergeEnd(m, x) { MergedChunks(m, n, x, lo, s); }
    }
    assert forall s | s in m' && m'[s].free && s != lo :: s in m && m[s].free && !(lo <= s < MergeEnd(m, x));
    hide Tiles, NoAdjacentFree, Merge, ListsFree;
    if Absorbs(m, x) {
      AbsorbedIsUnlisted(m, m', list, x, lo, k);
    } else {
      FreedIsListed(m, m', list, x, lo);
    }
  }

  lemma AbsorbedIsUnlisted(m: Layout, m': Layout, list: seq<nat>, x: nat, lo: int, k: nat)
    requires ListsFree(m, list) && x in m && !m[x].free && lo in m && lo in m' && m'[lo].free
    requires lo == x || m[lo].free
    requires Absorbs(m, x) && k < |list| && list[k] == Next(m, x) && lo <= x < Next(m, x)
    requires forall s | s in m && m[s].free && s != Next(m, x) :: s in m' && m'[s].free
    requires forall s | s in m' && m'[s].free && s != lo :: s in m && m[s].free && s != Next(m, x)
    ensures ListsFree(m', if lo == x then [x] + Without(list, k) else Without(list, k))
  {
    var m1 := m[Next(m, x) := Chunk(0, false)];
    ListAfterRemove(m, m1, list, k);
    hide ListsFree;
    FreedIsListed(m1, m', Without(list, k), x, lo);
  }

  /** The free chunks of m' are those of m and lo. */
  lemma FreedIsListed(m: Layout, m': Layout, list: seq<nat>, x: nat, lo: int)
    requires ListsFree(m, list) && x in m && !m[x].free && lo in m && lo in m' && m'[lo].free
    requires lo == x || m[lo].free
    requires forall s | s in m && m[s].free :: s in m' && m'[s].free
    requires forall s | s in m' && m'[s].free && s != lo :: s in m && m[s].free
    ensures ListsFree(m', if lo == x then [x] + list else list)
  {
    if lo == x { ListAfterAdd(m, m', list, x); }
  }

  lemma FreeIsWellFormed(h: seq<nat>, h': seq<nat>, head: nat, head': nat, m: Layout, list: seq<nat>, x: nat, lo: int,
      k: nat)
    requires WellFormed(h, head, m, list) && x in m && !m[x].free && MergeStart(m, x, lo)
    requires Absorbs(m, x) ==> k < |list| && list[k] == Next(m, x)
    requires FreeTouches(h, h', m, x, lo, MergeEnd(m, x)) && FreedEnds(h, h', lo, MergeEnd(m, x))
    requires Linked(h', head', ListAfterFree(m, list, x, lo, k))
    ensures WellFormed(h', head', Merge(m, lo, MergeEnd(m, x)), ListAfterFree(m, list, x, lo, k))
    ensures PayloadKept(h, h', m, x)
  {
    hide GetSz, IsFree, IsPrevFree, Tiles, NoAdjacentFree, Linked, HeaderOk, BoundaryOk, PayloadKept;
    FreeTagged(h, h', m, x, lo);
    FreeKeepsPayload(h, h', m, x, lo);
    FreeShape(m, |h|, x, lo);
    FreeList(m, |h|, list, x, lo, k);
  }

  /** A footer is never a link word of a list of chunks. */
  lemma FooterIsNoLink(m: Layout, n: int, list: seq<nat>, s: int)
    requires Tiles(m, n) && s in m && forall i | 0 <= i < |list| :: list[i] in m
    ensures Next(m, s) - 2 !in list && Next(m, s) - 3 !in list
  {
    ChunkFacts(m, n, s, s);
  }

  /** Words that are no links may change without harm to the list. */
  lemma QuietFrame(h: seq<nat>, h': seq<nat>, head: nat, list: seq<nat>)
    requires Linked(h, head, list) && |h'| == |h|
    requires forall k {:trigger h'[k]} | 0 <= k < |h| && h'[k] != h[k] :: k - 1 !in list && k - 2 !in list
    ensures Linked(h', head, list)
  {
    LinkedFrame(h, h', head, list);
  }

  /** What freeing x may rely on: where its neighbours are and what their tags say. */
  ghost predicate Neighbours(h: seq<nat>, m: Layout, list: seq<nat>, x: nat, lo: nat)
  {
    && x in m && lo in m && lo <= x && x + MIN_WORDS <= Next(m, x) <= MergeEnd(m, x) <= |h|
    && (Next(m, x) == |h| || Next(m, x) in m)
    && (Absorbs(m, x) ==> Next(m, x) + MIN_WORDS <= MergeEnd(m, x))
    && GetSz(h[x]) == 8 * m[x].size && GetSz(h[lo]) == 8 * m[lo].size
    && IsFree(h[lo]) == (lo != x)
    && (Absorbs(m, x) ==> GetSz(h[Next(m, x)]) == 8 * m[Next(m, x)].size)
    && (Absorbs(m, x) && MergeEnd(m, x) < |h| ==> IsPrevFree(h[MergeEnd(m, x)]))
    && (Next(m, x) < |h| ==> IsFree(h[Next(m, x)]) == Absorbs(m, x))
    && x - 1 !in list && x - 2 !in list && lo - 1 !in list && lo - 2 !in list
    && MergeEnd(m, x) - 2 !in list && MergeEnd(m, x) - 3 !in list
    && (MergeEnd(m, x) < |h| ==> MergeEnd(m, x) - 1 !in list)
  }

  lemma FindNeighbours(h: seq<nat>, head: nat, m: Layout, list: seq<nat>, x: nat, lo: nat)
    requires WellFormed(h, head, m, list) && x in m && !m[x].free && MergeStart(m, x, lo)
    ensures Neighbours(h, m, list, x, lo)
  {
    hide GetSz, IsFree, IsPrevFree, Linked, NoAdjacentFree;
    var next := Next(m, x);
    assert HeaderOk(h, m, x) && HeaderOk(h, m, lo);
    ChunkFacts(m, |h|, x, x);
    StartIsNoLink(m, |h|, list, x);
    StartIsNoLink(m, |h|, list, lo);
    FooterIsNoLink(m, |h|, list, x);
    if next in m {
      assert HeaderOk(h, m, next);
      StartIsNoLink(m, |h|, list, next);
      if m[next].free {
        ChunkFacts(m, |h|, x, next);
        FooterIsNoLink(m, |h|, list, next);
        assert BoundaryOk(h, m, next);
        if MergeEnd(m, x) in m { StartIsNoLink(m, |h|, list, MergeEnd(m, x)); }
      }
    }
  }

  lemma ListWithFreed(m: Layout, n: int, list: seq<nat>, x: nat, lo: int, k: nat)
    requires Shape(m, n) && ListsFree(m, list) && x in m && !m[x].free && MergeStart(m, x, lo)
    requires Absorbs(m, x) ==> k < |list| && list[k] == Next(m, x)
    ensures Spaced(list) && Spaced(ListAfterFree(m, list, x, lo, k))
  {
    ListIsSpaced(m, n, list);
    FreeList(m, n, list, x, lo, k);
  }

  /** Only these words differ. */
  ghost predicate ChangedAt(h: seq<nat>, h': seq<nat>, at: set<int>, list: seq<nat>)
  {
    && |h'| == |h|
    && forall k {:trigger h'[k]} | 0 <= k < |h| && h'[k] != h[k] :: k in at || k - 1 in list || k - 2 in list
  }

  lemma ChangedTouches(h: seq<nat>, h': seq<nat>, m: Layout, list: seq<nat>, x: nat, lo: int)
    requires x in m && ListsFree(m, list)
    requires ChangedAt(h, h', {lo, x, MergeEnd(m, x) - 1, MergeEnd(m, x)}, [x] + list)
    ensures FreeTouches(h, h', m, x, lo, MergeEnd(m, x))
  {
    var hi := MergeEnd(m, x);
    forall k | 0 <= k < |h| && h'[k] != h[k] && k !in {lo, x, hi - 1, hi} ensures IsLink(m, x, k) {
      var j := if k - 1 in [x] + list then k - 1 else k - 2;
      if j != x {
        var i :| 0 <= i < |list| && list[i] == j;
      }
    }
  }

  /** Sets IS_PREV_FREE of the chunk that starts at word `end`, if there is one. */
  method SetNextPrevFree(mem: array<nat>, end: nat)
    modifies mem
    ensures end < mem.Length ==> mem[..] == old(mem[..])[end := PutPrevFree(old(mem[end]), true)]
    ensures end >= mem.Length ==> mem[..] == old(mem[..])
  {
    var nextAddr := Ptr(end);
    if InHeapBounds(mem.Length, nextAddr) {
      mem[Idx(nextAddr)] := PutPrevFree(mem[Idx(nextAddr)], true);
    }
  }

  ghost function PrevFreeSet(h: seq<nat>, end: nat): seq<nat>
  {
    if end < |h| then h[end := PutPrevFree(h[end], true)] else h
  }

  lemma AloneIsWellFormed(h: seq<nat>, h1: seq<nat>, h2: seq<nat>, head: nat, head': nat, m: Layout, list: seq<nat>,
      x: nat)
    requires WellFormed(h, head, m, list) && x in m && !m[x].free && MergeStart(m, x, x) && !Absorbs(m, x)
    requires Neighbours(h, m, list, x, x)
    requires h1 == h[Next(m, x) - 1 := 8 * m[x].size][x := PutFree(h[x], true)]
    requires OnlyLinks(h1, h2, [x] + list) && Linked(h2, head', [x] + list)
    ensures var h3 := PrevFreeSet(h2, Next(m, x));
      && WellFormed(h3, head', Merge(m, x, MergeEnd(m, x)), [x] + list)
      && PayloadKept(h, h3, m, x)
  {
    hide GetSz, IsFree, IsPrevFree, Tiles, NoAdjacentFree, Linked, HeaderOk, BoundaryOk, PayloadKept, Tagged,
        FreeTouches;
    var hi := MergeEnd(m, x);
    var h3 := PrevFreeSet(h2, hi);
    var l := [x] + list;
    assert x - 1 !in l && x - 2 !in l && hi - 2 !in l && hi - 3 !in l;
    assert hi < |h| ==> hi - 1 !in l;
    QuietFrame(h2, h3, head', l);
    assert ChangedAt(h, h3, {x, x, hi - 1, hi}, l);
    ChangedTouches(h, h3, m, list, x, x);
    assert FreedEnds(h, h3, x, hi);
    FreeIsWellFormed(h, h3, head, head', m, list, x, x, 0);
  }

  /** No coalescing. */
  method FreeAlone(mem: array<nat>, head: nat, x: nat, ghost m: Layout, ghost list: seq<nat>) returns (head': nat)
    requires WellFormed(mem[..], head, m, list) && x in m && !m[x].free && MergeStart(m, x, x) && !Absorbs(m, x)
    modifies mem
    ensures WellFormed(mem[..], head', Merge(m, x, MergeEnd(m, x)), [x] + list)
    ensures PayloadKept(old(mem[..]), mem[..], m, x)
  {
    hide GetSz, IsFree, IsPrevFree, Linked, PayloadKept, Tagged, Shape, OnlyLinks, ListsFree, Spaced, MergeStart,
        Merge, Ptr;
    ghost var h := mem[..];
    FindNeighbours(h, head, m, list, x, x);
    ListWithFreed(m, mem.Length, list, x, x, 0);
    var sz := GetSz(mem[x]);
    mem[x + sz / 8 - 1] := sz;
    mem[x] := PutFree(mem[x], true);
    ghost var h1 := mem[..];
    QuietFrame(h, h1, head, list);
    head' := FreelistAddNode(mem, head, Ptr(x), list);
    AloneIsWellFormed(h, h1, mem[..], head, head', m, list, x);
    SetNextPrevFree(mem, x + sz / 8);
  }

  lemma WithPrevIsWellFormed(h: seq<nat>, head: nat, m: Layout, list: seq<nat>, x: nat, p: nat)
    requires WellFormed(h, head, m, list) && x in m && !m[x].free && MergeStart(m, x, p) && p != x && !Absorbs(m, x)
    requires Neighbours(h, m, list, x, p)
    ensures var size := m[p].size + m[x].size;
      var h1 := PrevFreeSet(h[p := SetSz(h[p], 8 * size)][Next(m, x) - 1 := 8 * size], Next(m, x));
      && WellFormed(h1, head, Merge(m, p, MergeEnd(m, x)), list)
      && PayloadKept(h, h1, m, x)
  {
    hide GetSz, IsFree, IsPrevFree, Tiles, NoAdjacentFree, Linked, HeaderOk, BoundaryOk, PayloadKept, Tagged,
        FreeTouches;
    var hi := MergeEnd(m, x);
    var size := m[p].size + m[x].size;
    assert hi == p + size;
    var h1 := PrevFreeSet(h[p := SetSz(h[p], 8 * size)][hi - 1 := 8 * size], hi);
    QuietFrame(h, h1, head, list);
    assert ChangedAt(h, h1, {p, x, hi - 1, hi}, [x] + list);
    ChangedTouches(h, h1, m, list, x, p);
    assert FreedEnds(h, h1, p, hi);
    FreeIsWellFormed(h, h1, head, head, m, list, x, p, 0);
  }

  /** x is a live block with a free chunk on its left, as its flag and the footer before it say. */
  ghost predicate HasPrev(h: seq<nat>, head: nat, m: Layout, list: seq<nat>, x: nat, p: nat)
  {
    && WellFormed(h, head, m, list) && x in m && !m[x].free && MergeStart(m, x, p) && p != x
    && 0 < x < |h| && h[x - 1] == 8 * m[p].size
  }

  /** What is left of a block at x after it was joined to the chunk on its left: its header, the footer
      before it and, if that was joined too, the header and the links of the chunk behind it. */
  ghost predicate Leftover(h: seq<nat>, m: Layout, x: nat)
  {
    && 0 < x < |h| && x !in m && !IsFree(h[x]) && IsPrevFree(h[x]) && 8 * MIN_WORDS <= GetSz(h[x])
    && var lo, next := x - h[x - 1] / 8, x + GetSz(h[x]) / 8;
    && 0 <= lo && lo in m && m[lo].free
    && (next == Next(m, lo) || LeftoverNext(h, m, lo, next))
  }

  ghost predicate LeftoverNext(h: seq<nat>, m: Layout, lo: nat, next: nat)
    requires lo in m
  {
    && next + MIN_WORDS <= Next(m, lo) && next + MIN_WORDS <= |h| && IsFree(h[next])
    && Idx(h[next + 1]) + 2 != lo && Idx(h[next + 2]) + 1 != lo
  }

  /** Coalescing with the chunk on the left only, which the footer before x leads to. */
  method FreeWithPrev(mem: array<nat>, head: nat, x: nat, ghost p: nat, ghost m: Layout, ghost list: seq<nat>)
    requires 0 < x < mem.Length && mem[x - 1] / 8 <= x && 32 <= GetSz(mem[x])
    modifies mem
    ensures old(HasPrev(mem[..], head, m, list, x, p)) && !Absorbs(m, x) ==>
      && WellFormed(mem[..], head, Merge(m, p, MergeEnd(m, x)), list)
      && PayloadKept(old(mem[..]), mem[..], m, x)
      && mem[x] == old(mem[x]) && mem[x - 1] == old(mem[x - 1])
    ensures var prev := x - old(mem[x - 1]) / 8;
      GetSz(mem[prev]) == old(GetSz(mem[prev])) + old(GetSz(mem[x]))
  {
    hide GetSz, IsFree, IsPrevFree, Linked, PayloadKept, Tagged, Shape, ListsFree, Merge;
    ghost var h := mem[..];
    if HasPrev(h, head, m, list, x, p) && !Absorbs(m, x) {
      FindNeighbours(h, head, m, list, x, p);
      WithPrevIsWellFormed(h, head, m, list, x, p);
      PrevIsBefore(h, head, m, list, x, p);
    }
    var prev := x - mem[x - 1] / 8;
    var sz := GetSz(mem[x]);
    var newSz := GetSz(mem[prev]) + sz;
    mem[prev] := SetSz(mem[prev], newSz);
    Poke(mem, prev + newSz / 8 - 1, newSz);
    SetNextPrevFree(mem, x + sz / 8);
  }

  lemma PrevIsBefore(h: seq<nat>, head: nat, m: Layout, list: seq<nat>, x: nat, p: nat)
    requires HasPrev(h, head, m, list, x, p)
    ensures p + MIN_WORDS <= x && p + m[p].size == x
  {
    hide GetSz, IsFree, IsPrevFree, Linked;
    ChunkFacts(m, |h|, p, p);
  }

  lemma WithNextIsWellFormed(h: seq<nat>, h1: seq<nat>, h2: seq<nat>, h3: seq<nat>, h4: seq<nat>,
                             head: nat, head': nat, m: Layout, list: seq<nat>, x: nat, k: nat)
    requires HasNext(h, head, m, list, x, k) && x in m && Neighbours(h, m, list, x, x)
    requires var size := MergeEnd(m, x) - x; h1 == h[x := SetSz(h[x], 8 * size)][MergeEnd(m, x) - 1 := 8 * size]
    requires OnlyLinks(h1, h2, list) && h3 == h2[x := PutFree(h2[x], true)]
    requires OnlyLinks(h3, h4, [x] + Without(list, k)) && Linked(h4, head', [x] + Without(list, k))
    ensures WellFormed(h4, head', Merge(m, x, MergeEnd(m, x)), [x] + Without(list, k))
    ensures PayloadKept(h, h4, m, x)
  {
    hide GetSz, IsFree, IsPrevFree, Tiles, NoAdjacentFree, Linked, HeaderOk, BoundaryOk, PayloadKept, Tagged,
        FreeTouches;
    var hi := MergeEnd(m, x);
    var l := [x] + list;
    assert x - 1 !in l && x - 2 !in l && hi - 2 !in l && hi - 3 !in l;
    assert hi < |h| ==> hi - 1 !in l;
    forall j | j in [x] + Without(list, k) ensures j in l {}
    assert ChangedAt(h, h4, {x, x, hi - 1, hi}, l);
    ChangedTouches(h, h4, m, list, x, x);
    assert FreedEnds(h, h4, x, hi);
    FreeIsWellFormed(h, h4, head, head', m, list, x, x, k);
  }

  lemma NextSizes(h: seq<nat>, m: Layout, list: seq<nat>, x: nat, lo: nat)
    requires x in m && Neighbours(h, m, list, x, lo) && Absorbs(m, x)
    ensures 0 <= lo <= x < Next(m, x) <= MergeEnd(m, x) - MIN_WORDS && MergeEnd(m, x) <= |h|
    ensures GetSz(h[x]) == 8 * (Next(m, x) - x) && GetSz(h[Next(m, x)]) == 8 * (MergeEnd(m, x) - Next(m, x))
    ensures x - 1 !in list && x - 2 !in list && lo - 1 !in list && lo - 2 !in list
    ensures MergeEnd(m, x) - 2 !in list && MergeEnd(m, x) - 3 !in list
    ensures GetSz(h[lo]) == 8 * m[lo].size
  {
    hide GetSz;
  }

  /** x is a live block with a free chunk on its right only, at place k of the list. */
  ghost predicate HasNext(h: seq<nat>, head: nat, m: Layout, list: seq<nat>, x: nat, k: nat)
  {
    && WellFormed(h, head, m, list) && x in m && !m[x].free && MergeStart(m, x, x) && Absorbs(m, x)
    && k < |list| && list[k] == Next(m, x)
  }

  lemma NextStart(h: seq<nat>, head: nat, m: Layout, list: seq<nat>, x: nat, k: nat)
    requires HasNext(h, head, m, list, x, k)
    ensures x in m && x < MergeEnd(m, x) - 1 < |h| && list[k] == Next(m, x) < |h|
    ensures x + GetSz(h[x]) / 8 == Next(m, x)
    ensures GetSz(h[x]) + GetSz(h[Next(m, x)]) == 8 * (MergeEnd(m, x) - x)
    ensures Neighbours(h, m, list, x, x)
  {
    hide GetSz, Neighbours, WellFormed, Absorbs;
    FindNeighbours(h, head, m, list, x, x);
    NextSizes(h, m, list, x, x);
  }

  lemma NextUnlinked(h: seq<nat>, h1: seq<nat>, head: nat, m: Layout, list: seq<nat>, x: nat, k: nat)
    requires HasNext(h, head, m, list, x, k) && x in m && x < MergeEnd(m, x) - 1 < |h| == |h1|
    requires h1 == h[x := h1[x]][MergeEnd(m, x) - 1 := h1[MergeEnd(m, x) - 1]]
    ensures OnList(h1, head, Ptr(Next(m, x)), list, k)
  {
    hide GetSz, Neighbours, Linked, Spaced, Absorbs, MergeEnd;
    FindNeighbours(h, head, m, list, x, x);
    ListWithFreed(m, |h|, list, x, x, k);
    NextSizes(h, m, list, x, x);
    QuietFrame(h, h1, head, list);
  }

  lemma NextRelinked(h: seq<nat>, h2: seq<nat>, h3: seq<nat>, head: nat, head': nat, m: Layout, list: seq<nat>, x: nat,
      k: nat)
    requires HasNext(h, head, m, list, x, k) && |h2| == |h| == |h3| && x < |h| && h3 == h2[x := h3[x]]
    requires Linked(h2, head', Without(list, k))
    ensures OffList(h3, head', Ptr(x), Without(list, k))
  {
    hide GetSz, Neighbours, Linked, Spaced, Absorbs, MergeEnd;
    FindNeighbours(h, head, m, list, x, x);
    ListWithFreed(m, |h|, list, x, x, k);
    NextSizes(h, m, list, x, x);
    NotInRest(list, k, x);
    QuietFrame(h2, h3, head', Without(list, k));
  }

  /** Coalescing with the chunk on the right only. */
  method FreeWithNext(mem: array<nat>, head: nat, x: nat, ghost m: Layout, ghost list: seq<nat>, ghost k: nat)
    returns (head': nat)
    requires HasNext(mem[..], head, m, list, x, k)
    modifies mem
    ensures x in m && x <= MergeEnd(m, x) && k < |list|
    ensures WellFormed(mem[..], head', Merge(m, x, MergeEnd(m, x)), [x] + Without(list, k))
    ensures PayloadKept(old(mem[..]), mem[..], m, x)
  {
    hide GetSz, IsFree, IsPrevFree, Linked, PayloadKept, OnlyLinks, Spaced, Merge, Absorbs, MergeEnd, WellFormed, SetSz;
    hide Neighbours;
    ghost var h := mem[..];
    NextStart(h, head, m, list, x, k);
    var next := x + GetSz(mem[x]) / 8;
    var newSz := GetSz(mem[x]) + GetSz(mem[next]);
    mem[x] := SetSz(mem[x], newSz);
    mem[x + newSz / 8 - 1] := newSz;
    ghost var h1 := mem[..];
    NextUnlinked(h, h1, head, m, list, x, k);
    head' := FreelistRemoveNode(mem, head, Ptr(next), list, k);
    ghost var h2 := mem[..];
    mem[x] := PutFree(mem[x], true);
    ghost var h3 := mem[..];
    NextRelinked(h, h2, h3, head, head', m, list, x, k);
    head' := FreelistAddNode(mem, head', Ptr(x), Without(list, k));
    WithNextIsWellFormed(h, h1, h2, h3, mem[..], head, head', m, list, x, k);
  }

  lemma NotInRest(list: seq<nat>, k: nat, x: nat)
    requires k < |list| && x - 1 !in list && x - 2 !in list
    ensures x - 1 !in Without(list, k) && x - 2 !in Without(list, k)
  {
  }

  lemma WithBothIsWellFormed(h: seq<nat>, h1: seq<nat>, h2: seq<nat>, head: nat, head': nat, m: Layout, list: seq<nat>,
                             x: nat, p: nat, k: nat)
    requires HasPrev(h, head, m, list, x, p) && Absorbs(m, x)
    requires k < |list| && list[k] == Next(m, x) && Neighbours(h, m, list, x, p)
    requires var size := MergeEnd(m, x) - p; h1 == h[p := SetSz(h[p], 8 * size)][MergeEnd(m, x) - 1 := 8 * size]
    requires OnlyLinks(h1, h2, list) && Linked(h2, head', Without(list, k))
    ensures WellFormed(h2, head', Merge(m, p, MergeEnd(m, x)), Without(list, k))
    ensures PayloadKept(h, h2, m, x)
  {
    hide GetSz, IsFree, IsPrevFree, Tiles, NoAdjacentFree, Linked, HeaderOk, BoundaryOk, PayloadKept, Tagged,
        FreeTouches;
    var hi := MergeEnd(m, x);
    forall j | j in list ensures j in [x] + list {}
    assert ChangedAt(h, h2, {p, x, hi - 1, hi}, [x] + list);
    ChangedTouches(h, h2, m, list, x, p);
    assert FreedEnds(h, h2, p, hi);
    FreeIsWellFormed(h, h2, head, head', m, list, x, p, k);
  }

  lemma PtrInHeap(i: nat)
    ensures HEAP_START <= Ptr(i) && Idx(Ptr(i)) == i
  {
  }

  /** What joining x on both sides may rely on. */
  ghost predicate BothReady(h: seq<nat>, head: nat, m: Layout, list: seq<nat>, x: nat, p: nat)
  {
    && Neighbours(h, m, list, x, p) && Linked(h, head, list) && Spaced(list)
    && x in m && p in m && Next(m, x) in m
    && p + MIN_WORDS <= x && x - h[x - 1] / 8 == p && x + MIN_WORDS <= Next(m, x)
    && x + GetSz(h[x]) / 8 == Next(m, x) && Next(m, x) + MIN_WORDS <= MergeEnd(m, x) <= |h|
    && GetSz(h[p]) + GetSz(h[x]) + GetSz(h[Next(m, x)]) == 8 * (MergeEnd(m, x) - p)
    && p - 1 !in list && p - 2 !in list && MergeEnd(m, x) - 2 !in list && MergeEnd(m, x) - 3 !in list
  }

  /** x is a live block between two free chunks, the right one at place k of the list. */
  ghost predicate HasBoth(h: seq<nat>, head: nat, m: Layout, list: seq<nat>, x: nat, p: nat, k: nat)
  {
    HasPrev(h, head, m, list, x, p) && x in m && Absorbs(m, x) && k < |list| && list[k] == Next(m, x)
  }

  /** The heap after x was joined on both sides: well formed, and x still looks like a live block. */
  ghost predicate BothJoined(h: seq<nat>, h': seq<nat>, head': nat, m: Layout, list: seq<nat>, x: nat, p: nat, k: nat)
  {
    && |h'| == |h| && x in m && p <= MergeEnd(m, x) && k < |list| && 0 < x < |h| && 0 <= Next(m, x) < |h| - 2
    && WellFormed(h', head', Merge(m, p, MergeEnd(m, x)), Without(list, k))
    && PayloadKept(h, h', m, x)
    && h'[x] == h[x] && h'[x - 1] == h[x - 1] && h'[Next(m, x)] == h[Next(m, x)]
    && h'[Next(m, x) + 1] == Link(list, k - 1) && h'[Next(m, x) + 2] == Link(list, k + 1)
  }

  lemma BothAreReady(h: seq<nat>, head: nat, m: Layout, list: seq<nat>, x: nat, p: nat, k: nat)
    requires HasBoth(h, head, m, list, x, p, k)
    ensures BothReady(h, head, m, list, x, p)
  {
    hide GetSz, IsFree, IsPrevFree, Linked, Spaced, Neighbours, ListsFree, NoAdjacentFree;
    FindNeighbours(h, head, m, list, x, p);
    ChunkFacts(m, |h|, x, x);
    ListWithFreed(m, |h|, list, x, p, k);
    NextSizes(h, m, list, x, p);
    PrevIsBefore(h, head, m, list, x, p);
  }

  lemma BothSizes(h: seq<nat>, head: nat, m: Layout, list: seq<nat>, x: nat, p: nat, k: nat)
    requires HasBoth(h, head, m, list, x, p, k)
    ensures 0 < x < |h| && x in m && p <= MergeEnd(m, x) && k < |list| && list[k] == Next(m, x) < |h|
    ensures x - h[x - 1] / 8 == p && x + GetSz(h[x]) / 8 == Next(m, x)
    ensures GetSz(h[p]) + GetSz(h[x]) + GetSz(h[Next(m, x)]) == 8 * (MergeEnd(m, x) - p)
    ensures p < MergeEnd(m, x) - 1 < |h|
  {
    hide GetSz, Neighbours, Linked, Spaced, WellFormed;
    BothAreReady(h, head, m, list, x, p, k);
  }

  lemma BothQuiet(h: seq<nat>, h1: seq<nat>, head: nat, m: Layout, list: seq<nat>, x: nat, p: nat, k: nat)
    requires HasBoth(h, head, m, list, x, p, k) && x in m && p < MergeEnd(m, x) - 1 < |h| == |h1|
    requires h1 == h[p := h1[p]][MergeEnd(m, x) - 1 := h1[MergeEnd(m, x) - 1]]
    ensures OnList(h1, head, Ptr(Next(m, x)), list, k)
  {
    hide GetSz, Neighbours, Linked, Spaced, WellFormed;
    BothAreReady(h, head, m, list, x, p, k);
    QuietFrame(h, h1, head, list);
  }

  lemma BothAreJoined(h: seq<nat>, h1: seq<nat>, h2: seq<nat>, head: nat, head': nat, m: Layout, list: seq<nat>,
                      x: nat, p: nat, k: nat)
    requires HasBoth(h, head, m, list, x, p, k) && x in m && p < MergeEnd(m, x) - 1 < |h| == |h1|
    requires var size := MergeEnd(m, x) - p; h1 == h[p := SetSz(h[p], 8 * size)][MergeEnd(m, x) - 1 := 8 * size]
    requires OnList(h1, head, Ptr(Next(m, x)), list, k) && h2 == WithoutNode(h1, list, k)
    requires OnlyLinks(h1, h2, list) && Linked(h2, head', Without(list, k))
    ensures BothJoined(h, h2, head', m, list, x, p, k)
  {
    hide GetSz, Neighbours, Linked, Spaced, WellFormed, OnlyLinks, WithoutNode, PayloadKept, Merge;
    BothAreReady(h, head, m, list, x, p, k);
    WithBothIsWellFormed(h, h1, h2, head, head', m, list, x, p, k);
    BothKeepWords(h, h1, h2, head, m, list, x, p, k);
  }

  /** Joining x on both sides leaves its header, the footer before it, and the chunk behind it readable. */
  lemma BothKeepWords(h: seq<nat>, h1: seq<nat>, h2: seq<nat>, head: nat, m: Layout, list: seq<nat>, x: nat, p: nat,
      k: nat)
    requires HasPrev(h, head, m, list, x, p) && BothReady(h, head, m, list, x, p)
    requires k < |list| && list[k] == Next(m, x) && |h1| == |h| && Linked(h1, head, list)
    requires h1 == h[p := h1[p]][MergeEnd(m, x) - 1 := h1[MergeEnd(m, x) - 1]]
    requires h2 == WithoutNode(h1, list, k)
    ensures var next := Next(m, x);
      && h2[x] == h[x] && h2[x - 1] == h[x - 1] && h2[next] == h[next]
      && h2[next + 1] == Link(list, k - 1) && h2[next + 2] == Link(list, k + 1)
  {
    hide GetSz, IsFree, IsPrevFree, Neighbours, NoAdjacentFree, Tagged, Linked, Spaced, WithoutNode;
    StartIsNoLink(m, |h|, list, x);
    FooterIsNoLink(m, |h|, list, p);
    StartIsNoLink(m, |h|, list, Next(m, x));
    NodeKeepsLinks(h1, head, list, k);
  }

  /** Unlinking a node leaves its own links as they were. */
  lemma NodeKeepsLinks(h: seq<nat>, head: nat, list: seq<nat>, k: nat)
    requires Linked(h, head, list) && k < |list| && Spaced(list)
    ensures OnlyLinks(h, WithoutNode(h, list, k), list)
    ensures list[k] + 2 < |h|
    ensures WithoutNode(h, list, k)[list[k] + 1] == Link(list, k - 1)
    ensures WithoutNode(h, list, k)[list[k] + 2] == Link(list, k + 1)
  {
    hide Ptr;
    RemoveLinks(h, list, k);
    assert NodeLinked(h, list, k);
    assert k > 0 ==> NodeLinked(h, list, k - 1) && Apart(list[k - 1], list[k]);
    assert k + 1 < |list| ==> NodeLinked(h, list, k + 1) && Apart(list[k], list[k + 1]);
  }

  /** Coalescing on both sides. */
  method FreeWithBoth(mem: array<nat>, head: nat, x: nat, ghost p: nat, ghost m: Layout, ghost list: seq<nat>,
                      ghost k: nat) returns (head': nat)
    requires 0 < x < mem.Length && mem[x - 1] / 8 <= x && 32 <= GetSz(mem[x])
    requires x + GetSz(mem[x]) / 8 + 2 < mem.Length
    modifies mem
    ensures old(HasBoth(mem[..], head, m, list, x, p, k)) ==> BothJoined(old(mem[..]), mem[..], head', m, list, x, p, k)
    ensures var prev, next := x - old(mem[x - 1]) / 8, x + old(GetSz(mem[x])) / 8;
      var newSz := old(GetSz(mem[prev])) + old(GetSz(mem[x])) + old(GetSz(mem[next]));
      next + 2 < prev + newSz / 8 - 1 && Idx(old(mem[next + 1])) + 2 != prev && Idx(old(mem[next + 2])) + 1 != prev ==>
        GetSz(mem[prev]) == newSz
  {
    hide GetSz, IsFree, IsPrevFree, Linked, PayloadKept, Tagged, Shape, OnlyLinks, ListsFree, Spaced, Merge;
    hide Neighbours, Absorbs, MergeEnd, HasBoth, BothJoined, Ptr, Idx, WellFormed, SetSz;
    ghost var h := mem[..];
    ghost var ok := HasBoth(h, head, m, list, x, p, k);
    if ok {
      BothSizes(h, head, m, list, x, p, k);
    }
    var next := x + GetSz(mem[x]) / 8;
    var prev := x - mem[x - 1] / 8;
    var newSz := GetSz(mem[prev]) + GetSz(mem[x]) + GetSz(mem[next]);
    mem[prev] := SetSz(mem[prev], newSz);
    Poke(mem, prev + newSz / 8 - 1, newSz);
    ghost var h1 := mem[..];
    if ok {
      BothQuiet(h, h1, head, m, list, x, p, k);
    }
    PtrInHeap(next);
    head' := FreelistRemoveNode(mem, head, Ptr(next), list, k);
    if ok {
      BothAreJoined(h, h1, mem[..], head, head', m, list, x, p, k);
    }
  }

  /** The PREV_FREE flag of x and its footer tell where merging starts. */
  lemma FindMergeStart(h: seq<nat>, head: nat, m: Layout, list: seq<nat>, x: nat) returns (lo: nat)
    requires WellFormed(h, head, m, list) && x in m && x < |h|
    ensures MergeStart(m, x, lo)
    ensures IsPrevFree(h[x]) <==> lo != x
    ensures lo != x ==> 0 < x && h[x - 1] == 8 * m[lo].size
  {
    hide GetSz, IsFree, IsPrevFree, Linked, NoAdjacentFree;
    lo := x;
    if x > 0 {
      var p := LeftNeighbour(m, |h|, x, 0);
      assert BoundaryOk(h, m, p);
      forall q | q in m && Next(m, q) == x ensures q == p { LeftNeighbourUnique(m, |h|, p, q); }
      if m[p].free { lo := p; }
    }
  }

  lemma FindInList(m: Layout, list: seq<nat>, x: int) returns (k: nat)
    requires ListsFree(m, list) && x in m
    ensures Absorbs(m, x) ==> k < |list| && list[k] == Next(m, x)
  {
    k := 0;
    if Absorbs(m, x) {
      assert Next(m, x) in list;
      k :| k < |list| && list[k] == Next(m, x);
    }
  }

  /** A new block is 8-aligned, holds sz bytes unless the request wrapped around, and overlaps no live block; every live
      block stays where it is. */
  lemma BlockIsFresh(m: Layout, n: int, f: nat, sz: nat, s: int)
    requires sz < SIZE_LIMIT && Shape(m, n) && f in m && m[f].free && Fits(m[f].size, Need(sz))
    requires s in m && !m[s].free
    ensures var m' := Allocate(m, f, Need(sz));
      && f in m' && !m'[f].free && Next(m', f) <= n && Ptr(f + 1) % 8 == 0
      && (sz <= 8 * (Next(m', f) - (f + 1)) <==> sz + 15 < SIZE_LIMIT)
      && s in m' && m'[s] == m[s] && (Next(m', s) <= f || Next(m', f) <= s)
  {
    ChunkFacts(m, n, f, s);
  }

  /** Freeing x keeps every other live block where it is. */
  lemma OthersStayLive(m: Layout, n: int, x: int, lo: int, s: int)
    requires Shape(m, n) && MergeStart(m, x, lo) && s in m && !m[s].free && s != x
    ensures lo <= MergeEnd(m, x)
    ensures var m' := Merge(m, lo, MergeEnd(m, x)); s in m' && m'[s] == m[s]
  {
    FreeShape(m, n, x, lo);
    MergedAreFree(m, n, x, lo, s);
  }

  /** What the tags of a live block say about its neighbours. */
  lemma HasItsNeighbours(h: seq<nat>, head: nat, m: Layout, list: seq<nat>, x: nat, lo: nat, k: nat)
    requires WellFormed(h, head, m, list) && x in m && !m[x].free && x < |h| && MergeStart(m, x, lo)
    requires Neighbours(h, m, list, x, lo) && (IsPrevFree(h[x]) <==> lo != x)
    requires lo != x ==> 0 < x && h[x - 1] == 8 * m[lo].size
    requires Absorbs(m, x) ==> k < |list| && list[k] == Next(m, x)
    ensures 8 * MIN_WORDS <= GetSz(h[x]) && x + GetSz(h[x]) / 8 == Next(m, x) <= |h|
    ensures Absorbs(m, x) <==> Next(m, x) < |h| && IsFree(h[Next(m, x)])
    ensures Absorbs(m, x) ==> Next(m, x) + 2 < |h|
    ensures lo != x ==> HasPrev(h, head, m, list, x, lo) && h[x - 1] / 8 <= x
    ensures lo != x && Absorbs(m, x) ==> HasBoth(h, head, m, list, x, lo, k)
  {
    hide GetSz, IsFree, IsPrevFree, Linked, WellFormed;
    if lo != x {
      PrevIsBefore(h, head, m, list, x, lo);
    }
  }

  /** Where the tags of what is left of a block lead. */
  ghost predicate LeadsAstray(h: seq<nat>, m: Layout, x: nat, lo: nat, next: nat)
  {
    && 0 < x < |h| && lo == x - h[x - 1] / 8 && next == x + GetSz(h[x]) / 8
    && lo < |h| && lo in m && m[lo].free && GetSz(h[lo]) == 8 * m[lo].size && next <= |h|
    && IsPrevFree(h[x]) && 8 * MIN_WORDS <= GetSz(h[x])
    && (next < |h| && IsFree(h[next]) ==>
          && next + MIN_WORDS <= lo + m[lo].size && next + MIN_WORDS <= |h|
          && Idx(h[next + 1]) + 2 != lo && Idx(h[next + 2]) + 1 != lo)
  }

  lemma LeftoverFacts(h: seq<nat>, head: nat, m: Layout, list: seq<nat>, x: nat)
    requires WellFormed(h, head, m, list) && Leftover(h, m, x)
    ensures x < |h| && h[x - 1] / 8 <= x
    ensures LeadsAstray(h, m, x, x - h[x - 1] / 8, x + GetSz(h[x]) / 8)
  {
    hide GetSz, IsFree, IsPrevFree, Linked, ListsFree;
    var lo, next := x - h[x - 1] / 8, x + GetSz(h[x]) / 8;
    assert HeaderOk(h, m, lo);
    ChunkFacts(m, |h|, lo, lo);
    if next == Next(m, lo) && next in m {
      assert HeaderOk(h, m, next);
    }
  }

  /** x was freed and joined with its free neighbours, no other payload touched.  If the left neighbour was
      not free, x is a chunk marked free; otherwise x is none any more, but its header still says used. */
  /** m' is m with the block at x freed, joined to whatever is free beside it. */
  ghost predicate IsMerged(m: Layout, x: int, lo: int, m': Layout)
  {
    MergeStart(m, x, lo) && lo <= MergeEnd(m, x) && m' == Merge(m, lo, MergeEnd(m, x))
  }

  ghost predicate IsFreed(h: seq<nat>, h': seq<nat>, m: Layout, m': Layout, x: int, lo: int)
  {
    && IsMerged(m, x, lo, m')
    && PayloadKept(h, h', m, x)
    && (lo == x ==> x in m' && m'[x].free)
    && (lo != x ==> x !in m' && 0 <= x && Leftover(h', m', x))
  }

  lemma BothJoinedIs(h: seq<nat>, h': seq<nat>, head': nat, m: Layout, list: seq<nat>, x: nat, p: nat, k: nat)
    requires BothJoined(h, h', head', m, list, x, p, k)
    ensures x in m && p <= MergeEnd(m, x) && k < |list| && 0 < x < |h| == |h'|
    ensures WellFormed(h', head', Merge(m, p, MergeEnd(m, x)), Without(list, k))
    ensures PayloadKept(h, h', m, x) && h'[x] == h[x] && h'[x - 1] == h[x - 1]
  {
    hide WellFormed, PayloadKept;
  }

  /** The state a live block leaves when it is freed. */
  lemma FreedState(h: seq<nat>, h': seq<nat>, head: nat, head': nat, m: Layout, list: seq<nat>, x: nat, lo: nat, k: nat)
    requires WellFormed(h, head, m, list) && x in m && !m[x].free && x < |h| == |h'| && MergeStart(m, x, lo)
    requires IsPrevFree(h[x]) <==> lo != x
    requires lo != x ==> HasPrev(h, head, m, list, x, lo) && h'[x] == h[x] && h'[x - 1] == h[x - 1]
    requires lo != x && Absorbs(m, x) ==>
      HasBoth(h, head, m, list, x, lo, k) && BothJoined(h, h', head', m, list, x, lo, k)
    ensures lo <= x < MergeEnd(m, x)
    ensures var m' := Merge(m, lo, MergeEnd(m, x));
      && (lo == x ==> x in m' && m'[x].free)
      && (lo != x ==> x !in m' && Leftover(h', m', x))
  {
    hide GetSz, IsFree, IsPrevFree, Linked, PayloadKept, NoAdjacentFree, Leftover, HasBoth, BothJoined, HasPrev;
    ChunkFacts(m, |h|, x, x);
    if lo != x {
      LeftBehind(h, h', head, head', m, list, x, lo, k);
    }
  }

  lemma LeftBehind(h: seq<nat>, h': seq<nat>, head: nat, head': nat, m: Layout, list: seq<nat>, x: nat, lo: nat, k: nat)
    requires HasPrev(h, head, m, list, x, lo) && x < |h| == |h'| && IsPrevFree(h[x])
    requires h'[x] == h[x] && h'[x - 1] == h[x - 1]
    requires Absorbs(m, x) ==> HasBoth(h, head, m, list, x, lo, k) && BothJoined(h, h', head', m, list, x, lo, k)
    ensures lo < x < MergeEnd(m, x)
    ensures var m' := Merge(m, lo, MergeEnd(m, x)); x !in m' && Leftover(h', m', x)
  {
    hide GetSz, IsFree, IsPrevFree, Merge, HasBoth, BothJoined, LeftoverNext, HasPrev;
    PrevFacts(h, head, m, list, x, lo);
    MergedAt(m, lo, MergeEnd(m, x), x);
    if Absorbs(m, x) {
      NextLeftBehind(h, h', head, head', m, list, x, lo, k);
    }
  }

  lemma PrevFacts(h: seq<nat>, head: nat, m: Layout, list: seq<nat>, x: nat, lo: nat)
    requires HasPrev(h, head, m, list, x, lo)
    ensures x in m && lo in m && 0 < x < |h| && lo < x < MergeEnd(m, x) && x - h[x - 1] / 8 == lo
    ensures GetSz(h[x]) == 8 * m[x].size && MIN_WORDS <= m[x].size && !IsFree(h[x])
  {
    hide GetSz, IsFree, IsPrevFree, Linked, NoAdjacentFree, ListsFree;
    ChunkFacts(m, |h|, x, x);
    assert HeaderOk(h, m, x);
    PrevIsBefore(h, head, m, list, x, lo);
  }

  lemma NextLeftBehind(h: seq<nat>, h': seq<nat>, head: nat, head': nat, m: Layout, list: seq<nat>, x: nat, lo: nat,
      k: nat)
    requires HasBoth(h, head, m, list, x, lo, k) && BothJoined(h, h', head', m, list, x, lo, k)
    ensures x in m && lo <= MergeEnd(m, x)
    ensures LeftoverNext(h', Merge(m, lo, MergeEnd(m, x)), lo, Next(m, x))
  {
    hide GetSz, IsFree, IsPrevFree, Linked, PayloadKept, NoAdjacentFree, Ptr, Idx, Merge;
    ChunkFacts(m, |h|, Next(m, x), Next(m, x));
    assert HeaderOk(h, m, Next(m, x));
    StartIsNoLink(m, |h|, list, lo);
    LinksLeadElsewhere(list, k, lo);
    assert Next(Merge(m, lo, MergeEnd(m, x)), lo) == MergeEnd(m, x) by { MergedAt(m, lo, MergeEnd(m, x), x); }
  }

  lemma MergedAt(m: Layout, lo: int, hi: int, x: int)
    requires lo <= hi
    ensures lo in Merge(m, lo, hi) && Merge(m, lo, hi)[lo].free && Next(Merge(m, lo, hi), lo) == hi
    ensures lo < x < hi ==> x !in Merge(m, lo, hi)
  {
  }

  lemma LinksLeadElsewhere(list: seq<nat>, k: nat, lo: nat)
    requires k < |list| && lo - 1 !in list && lo - 2 !in list
    ensures Idx(Link(list, k - 1)) + 2 != lo && Idx(Link(list, k + 1)) + 1 != lo
  {
    assert k > 0 ==> list[k - 1] in list;
    assert k + 1 < |list| ==> list[k + 1] in list;
  }

  lemma NothingLost(h: seq<nat>, head: nat, m: Layout, list: seq<nat>)
    requires WellFormed(h, head, m, list)
    ensures Survives(m, h, head)
  {
    hide WellFormed;
    assert LiveKept(m, m);
  }

  /** The chunk the search chose: it fits, unless the request is overlong; then it is shorter than that. */
  lemma ChosenFits(h: seq<nat>, head: nat, m: Layout, list: seq<nat>, k: nat, sz: nat)
    requires WellFormed(h, head, m, list) && HEAP_START + 8 * |h| <= SIZE_LIMIT
    requires sz < SIZE_LIMIT && k < |list| && list[k] in m && Accepts(m[list[k]].size, Need(sz))
    ensures Shape(m, |h|) && m[list[k]].free && list[k] < |h|
    ensures !Overlong(sz) ==> Fits(m[list[k]].size, Need(sz))
    ensures Overlong(sz) ==> 8 * m[list[k]].size < 8 * Need(sz)
  {
    hide GetSz, IsFree, IsPrevFree, Linked;
    AcceptsExactly(m[list[k]].size, sz);
    OverlongExactly(sz);
    ChunkFacts(m, |h|, list[k], list[k]);
    assert HeaderOk(h, m, list[k]);
  }

  class KHeap {
    const mem: array<nat>
    var head: nat
    ghost var layout: Layout
    ghost var list: seq<nat>

    ghost predicate Valid()
      reads this, mem
    {
      HEAP_START + 8 * mem.Length <= SIZE_LIMIT && WellFormed(mem[..], head, layout, list)
    }

    /** kmalloc_init on freshly mapped frames, whatever they hold. */
    constructor (frames: array<nat>)
      requires MIN_WORDS <= frames.Length && HEAP_START + 8 * frames.Length <= SIZE_LIMIT
      modifies frames
      ensures mem == frames && Valid() && layout == InitialLayout(frames.Length) && list == [0]
    {
      mem := frames;
      head := NULL;
      layout := InitialLayout(frames.Length);
      list := [0];
      new;
      hide GetSz, IsFree, IsPrevFree;
      mem[0] := SetSz(mem[0], 8 * mem.Length);
      mem[0] := PutFree(mem[0], true);
      mem[0] := PutPrevFree(mem[0], false);
      head := FreelistAddNode(mem, head, Ptr(0), []);
      assert [0] + [] == list;
      InitialShape(mem.Length);
      assert Next(layout, 0) == mem.Length;
    }

    /** Walks the list for the first chunk that fits. */
    method Search(allocSz: nat) returns (free: nat, freeSz: nat, ghost k: nat)
      requires Valid() && allocSz % 8 == 0
      ensures k == FirstFit(layout, list, allocSz / 8, 0)
      ensures free == Link(list, k)
      ensures k < |list| ==> freeSz == 8 * layout[list[k]].size
    {
      hide GetSz, IsFree, IsPrevFree, Tiles, NoAdjacentFree, BoundaryOk;
      free := head;
      freeSz := 0;
      k := 0;
      while free != NULL
        invariant k <= |list| && free == Link(list, k)
        invariant FirstFit(layout, list, allocSz / 8, 0) == FirstFit(layout, list, allocSz / 8, k)
        decreases |list| - k
      {
        assert NodeLinked(mem[..], list, k) && HeaderOk(mem[..], layout, list[k]);
        freeSz := GetSz(mem[Idx(free)]);
        if freeSz == allocSz || freeSz >= (allocSz + 32) % SIZE_LIMIT {
          break;
        }
        free := mem[Idx(free) + 2];
        k := k + 1;
      }
    }

    /** Allocates.  With a free chunk that the search accepts, the heap survives if and only if the request
        lies outside the 32 sizes for which the search bound wraps around; then the block is the front of
        the first chunk that fits and no other block is touched. */
    method Kmalloc(sz: nat) returns (ptr: nat)
      requires Valid() && sz < SIZE_LIMIT
      modifies this, mem
      ensures var k := FirstFit(old(layout), old(list), Need(sz), 0);
        if k == |old(list)| then
          Valid() && ptr == NULL && layout == old(layout) && list == old(list) && mem[..] == old(mem[..])
        else
          var f := old(list)[k];
          && f in old(layout) && ptr == Ptr(f + 1)
          && (!Overlong(sz) ==>
                && Valid() && Fits(old(layout)[f].size, Need(sz)) && layout == Allocate(old(layout), f, Need(sz))
                && PayloadKept(old(mem[..]), mem[..], old(layout), f))
      ensures Survives(old(layout), mem[..], head)
        <==> FirstFit(old(layout), old(list), Need(sz), 0) == |old(list)| || !Overlong(sz)
    {
      hide GetSz, IsFree, IsPrevFree, Shape, Linked, Tagged, PayloadKept, Allocate, ListAfterCarve, Survives, LiveKept;
      var allocSz := (sz + 8) % SIZE_LIMIT;
      allocSz := (allocSz + 7) % SIZE_LIMIT / 8 * 8;
      if allocSz < 32 {
        allocSz := 32;
      }
      assert allocSz / 8 == Need(sz);
      hide Need;
      ghost var m, h := layout, mem[..];
      var free, freeSz;
      ghost var k;
      free, freeSz, k := Search(allocSz);
      if free == NULL {
        NothingLost(h, head, layout, list);
        return NULL;
      }
      ChosenFits(h, head, layout, list, k, sz);
      if freeSz == allocSz {
        head := CarveWhole(mem, head, free, freeSz, layout, list, k);
      } else {
        head := CarveFront(mem, head, free, freeSz, allocSz, layout, list, k);
      }
      if Overlong(sz) {
        Oversized(mem[..], head, m, list[k]);
      } else {
        AllocateKeepsLive(m, mem.Length, list[k], allocSz / 8);
        layout, list := Allocate(layout, list[k], allocSz / 8), ListAfterCarve(layout, list, k, allocSz / 8);
        StillSound(mem[..], head, m, layout, list);
      }
      ptr := free + 8;
    }

    /** Frees.  It fails only where a kassert would: on an address outside the heap and on a header marked
        free.  A live block is freed and joined with its free neighbours.  If its left neighbour was free
        its header stays behind unmarked, and freeing that pointer again passes the kasserts and ruins
        the heap. */
    method Kfree(ptr: nat) returns (ok: bool, ghost lo: int)
      requires Valid()
      requires InHeapBounds(mem.Length, ptr) ==>
        (ptr == Ptr(Idx(ptr)) && 0 < Idx(ptr) && (Idx(ptr) - 1 in layout || Leftover(mem[..], layout, Idx(ptr) - 1)))
      modifies this, mem
      ensures ok <==> InHeapBounds(mem.Length, ptr) && (Idx(ptr) - 1 in old(layout) ==> !old(layout)[Idx(ptr) - 1].free)
      ensures !ok ==> Valid() && layout == old(layout) && list == old(list) && mem[..] == old(mem[..])
      ensures ok && Idx(ptr) - 1 in old(layout) ==>
        Valid() && IsFreed(old(mem[..]), mem[..], old(layout), layout, Idx(ptr) - 1, lo)
      ensures ok && Idx(ptr) - 1 !in old(layout) ==> layout == old(layout) && !Survives(layout, mem[..], head)
    {
      hide GetSz, IsFree, IsPrevFree, Linked, Shape, ListsFree, Ptr, BoundaryOk, Survives, IsFreed;
      lo := 0;
      if !InHeapBounds(mem.Length, ptr) {
        return false, lo;
      }
      var x: nat := Idx(ptr) - 1;
      if x in layout {
        assert HeaderOk(mem[..], layout, x);
      }
      if IsFree(mem[x]) {
        return false, lo;
      }
      lo := FreeBlock(x);
      ok := true;
    }

    /** kfree past its assertions. */
    method FreeBlock(x: nat) returns (ghost lo: int)
      requires Valid() && x < mem.Length && ((x in layout && !layout[x].free) || Leftover(mem[..], layout, x))
      modifies this, mem
      ensures x in old(layout) ==> Valid() && IsFreed(old(mem[..]), mem[..], old(layout), layout, x, lo)
      ensures x !in old(layout) ==> layout == old(layout) && !Survives(layout, mem[..], head)
    {
      hide GetSz, IsFree, IsPrevFree, Linked, PayloadKept, Shape, ListsFree, Merge, Ptr, BoundaryOk, Survives, Tagged;
      ghost var m, l, k, h, oldHead := layout, list, 0, mem[..], head;
      if x in m {
        lo := FindMergeStart(h, head, m, l, x);
        k := FindInList(m, l, x);
        FindNeighbours(h, head, m, l, x, lo);
        HasItsNeighbours(h, head, m, l, x, lo, k);
      } else {
        lo := x - mem[x - 1] / 8;
        LeftoverFacts(h, head, m, l, x);
      }
      var next := x + GetSz(mem[x]) / 8;
      var coalesceWithPrev := IsPrevFree(mem[x]);
      var coalesceWithNext := InHeapBounds(mem.Length, Ptr(next)) && IsFree(mem[next]);
      hide Leftover, HasPrev, HasBoth, BothJoined, Neighbours;
      if !coalesceWithPrev && !coalesceWithNext {
        head := FreeAlone(mem, head, x, m, l);
        list := [x] + l;
      } else if coalesceWithPrev && !coalesceWithNext {
        FreeWithPrev(mem, head, x, lo, m, l);
      } else if !coalesceWithPrev && coalesceWithNext {
        head := FreeWithNext(mem, head, x, m, l, k);
        list := [x] + Without(l, k);
      } else {
        head := FreeWithBoth(mem, head, x, lo, m, l, k);
        if x in m {
          BothJoinedIs(h, mem[..], head, m, l, x, lo, k);
          list := Without(l, k);
        }
      }
      if x in m {
        layout := Merge(m, lo, MergeEnd(m, x));
        FreedState(h, mem[..], oldHead, head, m, l, x, lo, k);
      } else {
        Oversized(mem[..], head, m, lo);
      }
    }

    /** An immediate double free is caught if and only if the block's left neighbour was not free when it was
        freed; otherwise it ruins the heap. */
    method FreeTwice(ptr: nat) returns (caught: bool, ghost once: Layout, ghost lo: int)
      requires Valid() && InHeapBounds(mem.Length, ptr) && ptr == Ptr(Idx(ptr)) && 0 < Idx(ptr)
      requires Idx(ptr) - 1 in layout && !layout[Idx(ptr) - 1].free
      modifies this, mem
      ensures IsMerged(old(layout), Idx(ptr) - 1, lo, once)
      ensures caught <==> MergeStart(old(layout), Idx(ptr) - 1, Idx(ptr) - 1)
      ensures if caught then Valid() && layout == once else !Survives(once, mem[..], head)
    {
      hide WellFormed, Leftover, PayloadKept, Merge, MergeEnd, Survives;
      var ok;
      ok, lo := Kfree(ptr);
      once := layout;
      ghost var lo';
      ok, lo' := Kfree(ptr);
      caught := !ok;
    }

    /** Serves any sequence of calls of a client that frees only what it holds and asks for no overlong block:
        a run of allocations and frees over the layouts, one for each call that is not refused, with every
        payload kept until its own free. */
    method Run(calls: seq<Call>) returns (held: seq<nat>, ghost trace: Trace, ghost account: Account)
      requires Valid() && layout == InitialLayout(mem.Length) && MIN_WORDS <= mem.Length
      requires forall i | 0 <= i < |calls| && calls[i].Get? :: calls[i].sz < SIZE_LIMIT && !Overlong(calls[i].sz)
      modifies this, mem
      ensures Valid() && AllLive(held, layout)
      ensures held == [] ==> layout == InitialLayout(mem.Length)
      ensures trace.IsTrace(mem.Length) && trace.Last() == (layout, mem[..])
      ensures account.Of(calls, trace) && account.Held() == held
    {
      hide WellFormed, PayloadKept, Allocate, Merge, MergeEnd, Survives, Need, FirstFit, Overlong, Served, AllLive;
      held := [];
      NothingYet(mem.Length);
      trace := Trace([], [layout], [mem[..]]);
      account := Account([[]], [0]);
      assert calls[..0] == [];
      for i := 0 to |calls|
        invariant Valid() && AllLive(held, layout)
        invariant trace.IsTrace(mem.Length) && trace.Last() == (layout, mem[..])
        invariant account.Of(calls[..i], trace) && account.Held() == held
      {
        ghost var before := trace;
        match calls[i] {
          case Get(sz) =>
            held, trace := Acquire(sz, held, trace);
          case Give(j) =>
            held, trace := Release(j, held, trace);
        }
        AccountGrows(account, calls[..i], calls[i], before, trace, held);
        account := account.Then(held, |trace.ops|);
        assert calls[..i + 1] == calls[..i] + [calls[i]];
      }
      assert calls[..|calls|] == calls;
      if held == [] {
        NothingHeld(mem[..], head, layout, list);
      }
    }

    method Acquire(sz: nat, held: seq<nat>, ghost trace: Trace) returns (held': seq<nat>, ghost trace': Trace)
      requires Valid() && AllLive(held, layout) && trace.IsTrace(mem.Length) && trace.Last() == (layout, mem[..])
      requires sz < SIZE_LIMIT && !Overlong(sz)
      modifies this, mem
      ensures Valid() && AllLive(held', layout)
      ensures trace'.IsTrace(mem.Length) && trace'.Last() == (layout, mem[..])
      ensures trace'.From(trace) && Served(Get(sz), held, old(layout), trace'.Since(trace), held')
    {
      hide WellFormed, PayloadKept, Allocate, Survives, Need, FirstFit, Overlong, AllLive;
      ghost var m, h, l, hd := layout, mem[..], list, head;
      ListedAreFree(h, hd, m, l);
      var ptr := Kmalloc(sz);
      held', trace' := held, trace;
      if ptr != NULL {
        ghost var f := l[FirstFit(m, l, Need(sz), 0)];
        held' := held + [ptr];
        trace' := trace.Then(Malloc(f, Need(sz)), layout, mem[..]);
        Acquired(m, mem.Length, held, f, Need(sz));
        TraceGrows(trace, mem.Length, Malloc(f, Need(sz)), layout, mem[..]);
      } else {
        NothingAccepted(h, hd, m, l, Need(sz));
      }
    }

    method Release(j: nat, held: seq<nat>, ghost trace: Trace) returns (held': seq<nat>, ghost trace': Trace)
      requires Valid() && AllLive(held, layout) && trace.IsTrace(mem.Length) && trace.Last() == (layout, mem[..])
      modifies this, mem
      ensures Valid() && AllLive(held', layout)
      ensures trace'.IsTrace(mem.Length) && trace'.Last() == (layout, mem[..])
      ensures trace'.From(trace) && Served(Give(j), held, old(layout), trace'.Since(trace), held')
    {
      hide WellFormed, PayloadKept, Merge, Survives, Leftover, AllLive;
      held', trace' := held, trace;
      if j < |held| {
        ghost var m, h, hd, l := layout, mem[..], head, list;
        ListedAreFree(h, hd, m, l);
        HeldIsLive(held, m, j);
        LiveInHeap(m, mem.Length, held[j]);
        var ok;
        ghost var lo;
        ok, lo := Kfree(held[j]);
        held' := held[..j] + held[j + 1..];
        trace' := trace.Then(Free(Idx(held[j]) - 1, lo), layout, mem[..]);
        Released(m, mem.Length, held, j, lo, layout);
        TraceGrows(trace, mem.Length, Free(Idx(held[j]) - 1, lo), layout, mem[..]);
      }
    }
  }

  // ---------- runs ----------

  /** A client's call: ask for a block, or give back the i-th one it holds. */
  datatype Call = Get(sz: nat) | Give(i: nat)

  /** The pointers are the live blocks, each once. */
  ghost predicate AllLive(held: seq<nat>, m: Layout)
  {
    && (forall i | 0 <= i < |held| :: IsLive(held[i], m))
    && (forall i, j | 0 <= i < j < |held| :: held[i] != held[j])
    && (forall s | s in m && !m[s].free :: IsHeld(held, s))
  }

  ghost predicate IsHeld(held: seq<nat>, s: int)
  {
    0 <= s && Ptr(s + 1) in held
  }

  lemma HeldIsLive(held: seq<nat>, m: Layout, j: nat)
    requires AllLive(held, m) && j < |held|
    ensures IsLive(held[j], m)
  {
  }

  lemma NothingYet(n: nat)
    ensures AllLive([], InitialLayout(n))
  {
  }

  lemma NothingHeld(h: seq<nat>, head: nat, m: Layout, list: seq<nat>)
    requires WellFormed(h, head, m, list) && AllLive([], m)
    ensures m == InitialLayout(|h|)
  {
    forall s | s in m ensures m[s].free {
      assert !m[s].free ==> IsHeld([], s);
    }
    AllFree(m, |h|);
  }

  ghost predicate IsLive(ptr: nat, m: Layout)
  {
    HEAP_START <= ptr && ptr == Ptr(Idx(ptr)) && 0 < Idx(ptr) && Idx(ptr) - 1 in m && !m[Idx(ptr) - 1].free
  }

  /** What a call has to do: a block of the size asked for, unless no free chunk is acceptable; the block given
      back, if the client holds one there. */
  ghost predicate Served(call: Call, held: seq<nat>, m: Layout, done: seq<Op>, held': seq<nat>)
  {
    match call
    case Get(sz) =>
      sz < SIZE_LIMIT &&
      if done == [] then held' == held && forall f | f in m && m[f].free :: !Accepts(m[f].size, Need(sz))
      else
        && |done| == 1 && done[0].Malloc? && done[0].f >= 0 && done[0].need == Need(sz)
        && held' == held + [Ptr(done[0].f + 1)]
    case Give(i) =>
      if i >= |held| then done == [] && held' == held
      else
        && |done| == 1 && done[0].Free? && HEAP_START <= held[i] && done[0].x == Idx(held[i]) - 1
        && held' == held[..i] + held[i + 1..]
  }

  /** What the client holds before each call and after the last, and how many operations have been done by then. */
  datatype Account = Account(helds: seq<seq<nat>>, at: seq<nat>) {
    ghost predicate Of(calls: seq<Call>, t: Trace)
    {
      && |helds| == |at| == |calls| + 1 && helds[0] == [] && at[0] == 0 && at[|calls|] == |t.ops|
      && |t.ms| == |t.ops| + 1 && (forall i | 0 <= i < |calls| :: Serves(calls, t, i))
    }

    ghost predicate Serves(calls: seq<Call>, t: Trace, i: nat)
      requires |helds| == |at| == |calls| + 1 && i < |calls| && |t.ms| == |t.ops| + 1
    {
      && at[i] <= at[i + 1] <= |t.ops|
      && Served(calls[i], helds[i], t.ms[at[i]], t.ops[at[i]..at[i + 1]], helds[i + 1])
    }

    ghost function Held(): seq<nat>
      requires helds != []
    {
      helds[|helds| - 1]
    }

    ghost function Then(held: seq<nat>, n: nat): Account
    {
      Account(helds + [held], at + [n])
    }
  }

  lemma AccountGrows(a: Account, calls: seq<Call>, call: Call, t: Trace, t': Trace, held: seq<nat>)
    requires a.Of(calls, t) && t'.From(t) && |t'.ms| == |t'.ops| + 1
    requires Served(call, a.Held(), t.ms[|t.ops|], t'.Since(t), held)
    ensures a.Then(held, |t'.ops|).Of(calls + [call], t')
  {
    hide Served;
    var b, all := a.Then(held, |t'.ops|), calls + [call];
    forall i | 0 <= i < |all| ensures b.Serves(all, t', i) {
      if i < |calls| {
        assert a.Serves(calls, t, i);
        assert b.at[i] == a.at[i] && b.at[i + 1] == a.at[i + 1] && b.helds[i] == a.helds[i];
        assert b.helds[i + 1] == a.helds[i + 1] && all[i] == calls[i] && t'.ms[a.at[i]] == t.ms[a.at[i]];
        assert t'.ops[a.at[i]..a.at[i + 1]] == t.ops[a.at[i]..a.at[i + 1]];
      } else {
        assert t'.ms[|t.ops|] == t.ms[|t.ops|] && t'.ops[|t.ops|..|t'.ops|] == t'.Since(t);
      }
    }
  }

  lemma NothingAccepted(h: seq<nat>, head: nat, m: Layout, list: seq<nat>, need: nat)
    requires WellFormed(h, head, m, list) && (forall i | 0 <= i < |list| :: list[i] in m)
    requires FirstFit(m, list, need, 0) == |list|
    ensures forall f | f in m && m[f].free :: !Accepts(m[f].size, need)
  {
    forall f | f in m && m[f].free ensures !Accepts(m[f].size, need) {
      assert f in list;
    }
  }

  /** The block a call is about. */
  function Target(op: Op): int
  {
    if op.Malloc? then op.f else op.x
  }

  /** The calls of a run, with the layouts and the words of the heap between them. */
  datatype Trace = Trace(ops: seq<Op>, ms: seq<Layout>, hs: seq<seq<nat>>) {
    ghost predicate IsTrace(n: nat)
    {
      && IsRun(n, ops, ms) && |hs| == |ms|
      && (forall i | 0 <= i < |hs| :: |hs[i]| == n)
      && forall i | 0 <= i < |ops| :: PayloadKept(hs[i], hs[i + 1], ms[i], Target(ops[i]))
    }

    ghost function Last(): (Layout, seq<nat>)
      requires |ms| == |hs| && |ms| > 0
    {
      (ms[|ms| - 1], hs[|hs| - 1])
    }

    /** This trace goes on from t. */
    ghost predicate From(t: Trace)
    {
      t.ops <= ops && t.ms <= ms
    }

    ghost function Since(t: Trace): seq<Op>
      requires From(t)
    {
      ops[|t.ops|..]
    }

    ghost function Then(op: Op, m: Layout, h: seq<nat>): Trace
    {
      Trace(ops + [op], ms + [m], hs + [h])
    }
  }

  lemma ListedAreFree(h: seq<nat>, head: nat, m: Layout, list: seq<nat>)
    requires WellFormed(h, head, m, list)
    ensures Shape(m, |h|) && forall i | 0 <= i < |list| :: list[i] in m && m[list[i]].free
  {
  }

  lemma LiveInHeap(m: Layout, n: nat, ptr: nat)
    requires Shape(m, n) && IsLive(ptr, m)
    ensures InHeapBounds(n, ptr)
  {
    ChunkFacts(m, n, Idx(ptr) - 1, Idx(ptr) - 1);
  }

  lemma TraceGrows(trace: Trace, n: nat, op: Op, m: Layout, h: seq<nat>)
    requires trace.IsTrace(n) && Enabled(trace.Last().0, op) && m == Apply(trace.Last().0, op)
    requires |h| == n && PayloadKept(trace.Last().1, h, trace.Last().0, Target(op))
    ensures trace.Then(op, m, h).IsTrace(n) && trace.Then(op, m, h).Last() == (m, h)
  {
    hide Enabled, Apply, PayloadKept;
    var t := trace.Then(op, m, h);
    var k := |trace.ops|;
    forall i | 0 <= i < |t.ops|
      ensures Enabled(t.ms[i], t.ops[i]) && t.ms[i + 1] == Apply(t.ms[i], t.ops[i])
      ensures PayloadKept(t.hs[i], t.hs[i + 1], t.ms[i], Target(t.ops[i]))
    {
      assert i < k ==> t.ms[i] == trace.ms[i] && t.ms[i + 1] == trace.ms[i + 1] && t.ops[i] == trace.ops[i];
      assert i < k ==> t.hs[i] == trace.hs[i] && t.hs[i + 1] == trace.hs[i + 1];
      assert i == k ==> t.ms[i] == trace.Last().0 && t.hs[i] == trace.Last().1;
    }
  }

  /** A new block joins the live ones, which all stay. */
  lemma Acquired(m: Layout, n: nat, held: seq<nat>, f: nat, need: nat)
    requires Shape(m, n) && f in m && m[f].free && Fits(m[f].size, need) && MIN_WORDS <= need && AllLive(held, m)
    ensures Enabled(m, Malloc(f, need)) && AllLive(held + [Ptr(f + 1)], Allocate(m, f, need))
  {
    AllocateKeepsLive(m, n, f, need);
    var held' := held + [Ptr(f + 1)];
    forall i | 0 <= i < |held'| ensures IsLive(held'[i], Allocate(m, f, need)) {
      assert i < |held| ==> IsLive(held[i], m);
    }
    forall i | 0 <= i < |held| ensures held[i] != Ptr(f + 1) {
      assert IsLive(held[i], m);
    }
    forall s | s in Allocate(m, f, need) && !Allocate(m, f, need)[s].free ensures IsHeld(held', s) {
      assert s != f ==> s in m && !m[s].free && IsHeld(held, s);
      assert s == f ==> held'[|held|] == Ptr(s + 1);
    }
  }

  /** A block given back leaves the live ones, and all others stay. */
  lemma Released(m: Layout, n: nat, held: seq<nat>, j: nat, lo: int, m': Layout)
    requires Shape(m, n) && AllLive(held, m) && j < |held| && IsMerged(m, Idx(held[j]) - 1, lo, m')
    ensures Enabled(m, Free(Idx(held[j]) - 1, lo))
    ensures AllLive(held[..j] + held[j + 1..], m')
  {
    hide Merge, MergeEnd, Shape, Ptr, Idx;
    var x := Idx(held[j]) - 1;
    assert IsLive(held[j], m);
    FreeShape(m, n, x, lo);
    var held' := held[..j] + held[j + 1..];
    forall i | 0 <= i < |held'| ensures IsLive(held'[i], m') {
      var o := if i < j then i else i + 1;
      assert held'[i] == held[o] && held[o] != held[j];
      OtherStaysLive(m, n, held[j], lo, held[o]);
    }
    forall s | s in m' && !m'[s].free ensures IsHeld(held', s) {
      UsedBefore(m, lo, MergeEnd(m, x), x, s);
      assert IsHeld(held, s);
      PtrsDiffer(s, held[j]);
      StillThere(held, j, Ptr(s + 1));
    }
  }

  lemma UsedBefore(m: Layout, lo: int, hi: int, x: int, s: int)
    requires lo <= x < hi && s in Merge(m, lo, hi) && !Merge(m, lo, hi)[s].free
    ensures s in m && !m[s].free && s != x
  {
  }

  lemma PtrsDiffer(s: int, ptr: nat)
    requires 0 <= s && HEAP_START <= ptr && s != Idx(ptr) - 1
    ensures Ptr(s + 1) != ptr
  {
  }

  lemma StillThere(held: seq<nat>, j: nat, ptr: nat)
    requires j < |held| && ptr in held && ptr != held[j]
    ensures ptr in held[..j] + held[j + 1..]
  {
    var k :| 0 <= k < |held| && held[k] == ptr;
    assert k < j ==> held[..j][k] == ptr;
    assert k > j ==> held[j + 1..][k - j - 1] == ptr;
  }

  lemma OtherStaysLive(m: Layout, n: nat, ptr: nat, lo: int, other: nat)
    requires Shape(m, n) && IsLive(ptr, m) && IsLive(other, m) && other != ptr && MergeStart(m, Idx(ptr) - 1, lo)
    ensures lo <= MergeEnd(m, Idx(ptr) - 1)
    ensures IsLive(other, Merge(m, lo, MergeEnd(m, Idx(ptr) - 1)))
  {
    hide Merge, MergeEnd, Shape;
    OthersStayLive(m, n, Idx(ptr) - 1, lo, Idx(other) - 1);
  }

  /** Over any run, a live block keeps its place, its size and every word of its payload until it is freed. */
  lemma {:induction false} PayloadUntilFreed(t: Trace, n: nat, i: nat, j: nat, s: int)
    requires t.IsTrace(n) && MIN_WORDS <= n && i <= j <= |t.ops| && s in t.ms[i] && !t.ms[i][s].free
    requires forall k | i <= k < j :: !(t.ops[k].Free? && t.ops[k].x == s)
    ensures s in t.ms[j] && t.ms[j][s] == t.ms[i][s]
    ensures forall k | s < k < Next(t.ms[i], s) && 0 <= k < n :: t.hs[j][k] == t.hs[i][k]
    decreases j - i
  {
    if i < j {
      PayloadUntilFreed(t, n, i, j - 1, s);
      StepKeepsBlock(t, n, j - 1, s);
    }
  }

  lemma StepKeepsBlock(t: Trace, n: nat, k: nat, s: int)
    requires t.IsTrace(n) && MIN_WORDS <= n && k < |t.ops| && s in t.ms[k] && !t.ms[k][s].free
    requires !(t.ops[k].Free? && t.ops[k].x == s)
    ensures s in t.ms[k + 1] && t.ms[k + 1][s] == t.ms[k][s]
    ensures forall w | s < w < Next(t.ms[k], s) && 0 <= w < n :: t.hs[k + 1][w] == t.hs[k][w]
  {
    var m, op := t.ms[k], t.ops[k];
    RunsAreSafe(n, t.ops[..k], t.ms[..k + 1]);
    assert Enabled(m, op) && t.ms[k + 1] == Apply(m, op);
    assert PayloadKept(t.hs[k], t.hs[k + 1], m, Target(op));
    match op
    case Malloc(f, need) => AllocateKeepsLive(m, n, f, need);
    case Free(x, lo) => OthersStayLive(m, n, x, lo, s);
  }

  /** A heap of three chunks where the one in the middle can be freed twice unnoticed. */
  lemma DoubleFreeSlips()
    ensures var m := map[0 := Chunk(4, true), 4 := Chunk(4, false), 8 := Chunk(4, false)];
      var h := [33, NULL, NULL, 32, 34, 0, 0, 0, 32, 0, 0, 0];
      && WellFormed(h, Ptr(0), m, [0])
      && MergeStart(m, 4, 0) && !MergeStart(m, 4, 4)
  {
    var m: Layout := map[0 := Chunk(4, true), 4 := Chunk(4, false), 8 := Chunk(4, false)];
    var h: seq<nat> := [33, NULL, NULL, 32, 34, 0, 0, 0, 32, 0, 0, 0];
    assert Next(m, 0) == 4 && Next(m, 4) == 8 && Next(m, 8) == 12;
    assert Shape(m, 12);
    assert Tagged(h, m) by {
      assert HeaderOk(h, m, 0) && HeaderOk(h, m, 4) && HeaderOk(h, m, 8);
      assert BoundaryOk(h, m, 0) && BoundaryOk(h, m, 4) && BoundaryOk(h, m, 8);
    }
    hide Tagged, Shape;
    assert 0 in [0];
    assert NodeLinked(h, [0], 0);
  }
}
