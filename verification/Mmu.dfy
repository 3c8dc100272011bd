/** The frame allocator (kernel/memory/pmm.c) and the paging operations (kernel/memory/paging.c)
    over one physical memory, with the processor's CR3 and TLB beside it.  Physical addresses of
    pages are given as frame numbers; the TLB may be filled and emptied by the processor at any
    time between calls. */
module Mmu {
  import opened PageTables
  import opened Wrappers

  const NULL: nat := 0

  /** Pointer to the FreePage record at the start of frame f, in the higher-half direct map. */
  function PagePtr(hhdm: nat, f: nat): nat
  {
    hhdm + 4096 * f
  }

  function FreeLink(hhdm: nat, free: seq<nat>, i: nat): nat
  {
    if i < |free| then PagePtr(hhdm, free[i]) else NULL
  }

  /** The i-th free frame holds its own address and a pointer to the next one. */
  ghost predicate FreeNode(hhdm: nat, mem: Memory, free: seq<nat>, i: nat)
    requires i < |free|
  {
    && free[i] < FRAME_LIMIT && free[i] in mem && |mem[free[i]]| == ENTRIES
    && mem[free[i]][0] == 4096 * free[i]
    && mem[free[i]][1] == FreeLink(hhdm, free, i + 1)
  }

  ghost predicate FreeList(hhdm: nat, mem: Memory, head: nat, free: seq<nat>)
  {
    && hhdm > 0 && head == FreeLink(hhdm, free, 0)
    && (forall i, j | 0 <= i < j < |free| :: free[i] != free[j])
    && (forall i | 0 <= i < |free| :: FreeNode(hhdm, mem, free, i))
  }

  /** Frames of the list may be read after any change to other frames. */
  lemma FreeListFrame(hhdm: nat, mem: Memory, mem': Memory, head: nat, free: seq<nat>)
    requires FreeList(hhdm, mem, head, free)
    requires forall f | f in free :: f in mem ==> f in mem' && mem'[f] == mem[f]
    ensures FreeList(hhdm, mem', head, free)
  {
    forall i | 0 <= i < |free| ensures FreeNode(hhdm, mem', free, i) {
      assert FreeNode(hhdm, mem, free, i) && free[i] in free;
    }
  }

  lemma FreeListTail(hhdm: nat, mem: Memory, head: nat, free: seq<nat>)
    requires FreeList(hhdm, mem, head, free) && free != []
    ensures FreeList(hhdm, mem, FreeLink(hhdm, free, 1), free[1..]) && free[0] !in free[1..]
  {
    forall i | 0 <= i < |free[1..]| ensures FreeNode(hhdm, mem, free[1..], i) {
      assert FreeNode(hhdm, mem, free, i + 1);
    }
  }

  lemma FreeListPush(hhdm: nat, mem: Memory, head: nat, free: seq<nat>, f: nat, record: seq<nat>)
    requires FreeList(hhdm, mem, head, free) && f !in free && f < FRAME_LIMIT
    requires |record| == ENTRIES && record[0] == 4096 * f && record[1] == head
    ensures FreeList(hhdm, mem[f := record], PagePtr(hhdm, f), [f] + free)
  {
    var mem', free' := mem[f := record], [f] + free;
    assert FreeLink(hhdm, free', 1) == FreeLink(hhdm, free, 0);
    forall i | 0 <= i < |free'| ensures FreeNode(hhdm, mem', free', i) {
      if i > 0 {
        assert FreeNode(hhdm, mem, free, i - 1) && free[i - 1] in free;
        assert FreeLink(hhdm, free', i + 1) == FreeLink(hhdm, free, i);
      }
    }
  }

  /** Every translation in one memory is the same in the other. */
  ghost predicate SameTranslations(mem: Memory, tree: Tree, mem': Memory, tree': Tree)
  {
    forall root, ix: Indices | ix.Valid() :: Lookup(mem', tree', root, ix) == Lookup(mem, tree, root, ix)
  }

  ghost predicate Extends(tree: Tree, tree': Tree)
  {
    forall k | k in tree :: k in tree' && tree'[k] == tree[k]
  }

  /** How many of the tables on the way to a page are missing. */
  ghost function Missing(tree: Tree, root: nat, ix: Indices): nat
  {
    var k3 := Down(Root(root), ix.i4);
    if k3 !in tree then 3 else if Down(k3, ix.i3) !in tree then 2 else if LeafPath(root, ix) !in tree then 1 else 0
  }

  /** The tables on the way to a page. */
  ghost function TablesFor(root: nat, ix: Indices): set<Path>
  {
    var k3 := Down(Root(root), ix.i4);
    {k3, Down(k3, ix.i3), LeafPath(root, ix)}
  }

  lemma MissingCounts(mem: Memory, tree: Tree, root: nat, ix: Indices)
    requires IsTree(mem, tree)
    ensures Missing(tree, root, ix) == |TablesFor(root, ix) - tree.Keys|
  {
    hide IsTree;
    var k3 := Down(Root(root), ix.i4);
    var k2, k1 := Down(k3, ix.i3), LeafPath(root, ix);
    AbsentBelow(mem, tree, k3, ix.i3);
    AbsentBelow(mem, tree, k2, ix.i2);
    var missing :=
      if k3 !in tree then {k3, k2, k1} else if k2 !in tree then {k2, k1} else if k1 !in tree then {k1} else {};
    assert TablesFor(root, ix) - tree.Keys == missing;
    assert Depth(k3) == 1 && Depth(k2) == 2 && Depth(k1) == 3;
  }

  /** Cached translations that survive a load of CR3 agree with the tables at root. */
  ghost predicate GlobalsAgree(mem: Memory, root: nat, tlb: map<nat, nat>)
  {
    forall p | p in tlb && Global(tlb[p]) :: p < PAGE_LIMIT && Walk(mem, root, p) == Some(tlb[p])
  }

  /** What the processor sees between two steps. */
  datatype Snapshot = Snapshot(mem: Memory, tree: Tree, cr3: nat, tlb: map<nat, nat>) {
    ghost predicate IsCoherent() { Coherent(mem, tree, cr3, tlb) }
  }

  /** What a load of CR3 leaves in the TLB. */
  function OnlyGlobals(tlb: map<nat, nat>): map<nat, nat>
  {
    map p | p in tlb && Global(tlb[p]) :: tlb[p]
  }

  function Invalidated(tlb: map<nat, nat>, loaded: bool, page: nat): map<nat, nat>
  {
    if loaded then tlb - {page} else tlb
  }

  function Cached(tlb: map<nat, nat>, page: nat, entry: Option<nat>): map<nat, nat>
  {
    if entry.Some? then tlb[page := entry.value] else tlb
  }

  /** Every cached translation agrees with a walk of the loaded tables. */
  ghost predicate Coherent(mem: Memory, tree: Tree, cr3: nat, tlb: map<nat, nat>)
  {
    Root(cr3) in tree ==> forall p | p in tlb :: p < PAGE_LIMIT && Walk(mem, cr3, p) == Some(tlb[p])
  }

  // ---------- the memory map ----------

  datatype Region = Region(base: nat, length: nat, usable: bool) {
    predicate Holds(f: int) { base <= 4096 * f < base + length }
  }

  /** Frame f lies in a usable region among the first n; the first region never counts. */
  ghost predicate Usable(regions: seq<Region>, n: nat, f: int)
  {
    exists j | 1 <= j < n && j < |regions| :: regions[j].usable && regions[j].Holds(f)
  }

  /** Regions are page-aligned, back memory, and do not overlap. */
  ghost predicate RegionsOk(mem: Memory, regions: seq<Region>)
  {
    && (forall j | 0 <= j < |regions| :: regions[j].base % 4096 == 0 && regions[j].length % 4096 == 0)
    && (forall j, f: nat {:trigger regions[j].Holds(f)}
          | 0 <= j < |regions| && regions[j].usable && regions[j].Holds(f) ::
          f < FRAME_LIMIT && f in mem && |mem[f]| == ENTRIES)
    && (forall j, k, f: nat {:trigger regions[j].Holds(f), regions[k].Holds(f)} | 0 <= j < k < |regions| ::
          !(regions[j].Holds(f) && regions[k].Holds(f)))
  }

  ghost predicate KeepsFrames(mem: Memory, mem': Memory)
  {
    forall f | f in mem :: f in mem' && |mem'[f]| == |mem[f]|
  }

  lemma UsableNext(regions: seq<Region>, i: nat, f: int)
    requires 1 <= i < |regions|
    ensures Usable(regions, i + 1, f) <==> Usable(regions, i, f) || (regions[i].usable && regions[i].Holds(f))
  {
  }

  lemma RegionFrame(mem: Memory, regions: seq<Region>, i: nat, f: nat)
    requires RegionsOk(mem, regions) && 1 <= i < |regions| && regions[i].usable && regions[i].Holds(f)
    ensures f < FRAME_LIMIT && f in mem && |mem[f]| == ENTRIES && !Usable(regions, i, f)
  {
  }

  class Mmu {
    const hhdm: nat
    var mem: Memory
    var freeHead: nat
    var cr3: nat
    var tlb: map<nat, nat>
    ghost var tree: Tree
    ghost var free: seq<nat>
    ghost var handed: set<nat>

    /** pmm_init: every page of every usable region but the first of the map goes on the list. */
    constructor (offset: nat, memory: Memory, regions: seq<Region>, bootCr3: nat, bootTlb: map<nat, nat>)
      requires offset > 0 && RegionsOk(memory, regions)
      ensures Valid() && tree == map[] && handed == {} && hhdm == offset
      ensures forall f: nat :: f in free <==> Usable(regions, |regions|, f)
    {
      hhdm, mem, freeHead, free := offset, memory, NULL, [];
      tree, handed, cr3, tlb := map[], {}, bootCr3, bootTlb;
      new;
      var i := 1;
      while i < |regions|
        invariant 1 <= i && (|regions| > 0 ==> i <= |regions|)
        invariant FreeList(offset, mem, freeHead, free) && KeepsFrames(memory, mem)
        invariant forall f: nat :: f in free <==> Usable(regions, i, f)
        invariant tree == map[] && handed == {} && hhdm == offset
      {
        if regions[i].usable {
          AddRegion(regions, i);
        } else {
          forall f: nat ensures Usable(regions, i + 1, f) <==> Usable(regions, i, f) { UsableNext(regions, i, f); }
        }
        i := i + 1;
      }
      forall f: nat ensures Usable(regions, i, f) <==> Usable(regions, |regions|, f) {}
    }

    method AddRegion(regions: seq<Region>, i: nat)
      requires 1 <= i < |regions| && regions[i].usable && RegionsOk(mem, regions)
      requires FreeList(hhdm, mem, freeHead, free)
      requires forall f: nat :: f in free <==> Usable(regions, i, f)
      modifies this`mem, this`freeHead, this`free
      ensures FreeList(hhdm, mem, freeHead, free) && KeepsFrames(old(mem), mem)
      ensures forall f: nat :: f in free <==> Usable(regions, i + 1, f)
    {
      var entry := regions[i];
      var addr := entry.base;
      while addr < entry.base + entry.length
        invariant entry.base <= addr <= entry.base + entry.length && addr % 4096 == 0
        invariant FreeList(hhdm, mem, freeHead, free) && KeepsFrames(old(mem), mem)
        invariant forall f: nat :: f in free <==> Usable(regions, i, f) || entry.base <= 4096 * f < addr
        decreases entry.base + entry.length - addr
      {
        var page := addr / 4096;
        RegionFrame(old(mem), regions, i, page);
        var record: seq<nat> := mem[page][0 := addr][1 := freeHead];
        FreeListPush(hhdm, mem, freeHead, free, page, record);
        mem := mem[page := record];
        freeHead := PagePtr(hhdm, page);
        free := [page] + free;
        addr := addr + 4096;
      }
      forall f: nat ensures f in free <==> Usable(regions, i + 1, f) { UsableNext(regions, i, f); }
    }

    /** The tables form a tree, and none of their frames is on the free list. */
    ghost predicate Tables()
      reads this
    {
      && IsTree(mem, tree) && FreeList(hhdm, mem, freeHead, free)
      && tree.Values <= handed && (forall f | f in free :: f !in handed)
    }

    ghost predicate Valid()
      reads this
    {
      Tables() && Coherent(mem, tree, cr3, tlb)
    }

    /** Pops a frame and clears it; NULL if there is none. */
    method PmmAlloc() returns (addr: nat)
      requires Tables()
      modifies this`mem, this`freeHead, this`free, this`handed
      ensures old(free) == [] ==>
        addr == NULL && mem == old(mem) && freeHead == old(freeHead) && free == old(free) && handed == old(handed)
      ensures old(free) != [] ==>
        && addr == 4096 * old(free)[0] && old(free)[0] !in old(handed)
        && mem == old(mem)[old(free)[0] := Zeroes()]
        && free == old(free)[1..] && handed == old(handed) + {old(free)[0]}
        && FreeList(hhdm, mem, freeHead, free) && (forall f | f in free :: f !in handed)
        && old(free)[0] < FRAME_LIMIT
    {
      if freeHead == NULL {
        return NULL;
      }
      assert FreeNode(hhdm, mem, free, 0);
      FreeListTail(hhdm, mem, freeHead, free);
      var page := (freeHead - hhdm) / 4096;
      freeHead := mem[page][1];
      addr := mem[page][0];
      ghost var before := mem;
      mem := mem[addr / 4096 := Zeroes()];
      FreeListFrame(hhdm, before, mem, freeHead, free[1..]);
      handed := handed + {free[0]};
      free := free[1..];
    }

    /** Follows an entry, hanging a fresh table into it first if it is not present; with no frame left
        the entry is linked to address NULL. */
    method GetNextPml(pml: nat, index: nat, ghost k: Path) returns (next: nat)
      requires Tables() && k in tree && tree[k] == pml && Depth(k) < 3 && index < ENTRIES
      modifies this`mem, this`freeHead, this`free, this`handed, this`tree
      ensures Down(k, index) in old(tree) || old(free) != [] ==>
        && Tables() && Down(k, index) in tree && tree[Down(k, index)] == next
        && Extends(old(tree), tree) && SameTranslations(old(mem), old(tree), mem, tree)
        && tree.Keys == old(tree).Keys + {Down(k, index)}
        && free == if Down(k, index) in old(tree) then old(free) else old(free)[1..]
      ensures Down(k, index) !in old(tree) && old(free) == [] ==>
        && pml in old(mem) && index < |old(mem)[pml]|
        && next == NULL && mem == LinkedTo(old(mem), pml, index, next) && tree == old(tree) && free == []
    {
      hide Present, FrameOf;
      assert PathOk(mem, tree, k) && SlotOk(mem, tree, k, index);
      if Present(mem[pml][index]) {
        return FrameOf(mem[pml][index]);
      }
      next := LinkNext(pml, index, k);
    }

    /** The absent entry is linked to whatever pmm_alloc returns. */
    method LinkNext(pml: nat, index: nat, ghost k: Path) returns (next: nat)
      requires Tables() && k in tree && tree[k] == pml && Depth(k) < 3 && index < ENTRIES && Down(k, index) !in tree
      requires pml in mem && |mem[pml]| == ENTRIES
      modifies this`mem, this`freeHead, this`free, this`handed, this`tree
      ensures old(free) != [] ==>
        && Tables() && tree == old(tree)[Down(k, index) := next] && free == old(free)[1..]
        && Extends(old(tree), tree) && SameTranslations(old(mem), old(tree), mem, tree)
      ensures old(free) == [] ==>
        next == NULL && mem == LinkedTo(old(mem), pml, index, next) && tree == old(tree) && free == []
    {
      hide Present, FrameOf, IsTree, FreeList, SameTranslations, Extends, TableEntry;
      ghost var m, t, f := mem, tree, free;
      assert pml in tree.Values;
      var addr := PmmAlloc();
      ghost var cleared := mem;
      if f != [] {
        Hung(m, t, k, index, addr / 4096);
      }
      mem := Put(mem, pml, index, TableEntry(addr / 4096));
      next := FrameOf(mem[pml][index]);
      if f != [] {
        tree := tree[Down(k, index) := addr / 4096];
        FreeListFrame(hhdm, cleared, mem, freeHead, free);
      }
    }

    /** Walks to the last-level table of a page, creating what is missing on the way: at most
        three frames, and only those. */
    method GetPml1Entry(pml4: nat, virt: nat) returns (pml1: nat, index: nat)
      requires Tables() && Root(pml4) in tree
      requires Missing(tree, pml4, IndicesOf(PageOf(virt))) <= |free|
      modifies this`mem, this`freeHead, this`free, this`handed, this`tree
      ensures Tables()
      ensures Extends(old(tree), tree) && SameTranslations(old(mem), old(tree), mem, tree)
      ensures forall r | Root(r) in tree :: Root(r) in old(tree)
      ensures free == old(free)[old(Missing(tree, pml4, IndicesOf(PageOf(virt))))..]
      ensures tree.Keys == old(tree).Keys + TablesFor(pml4, IndicesOf(PageOf(virt)))
      ensures var ix := IndicesOf(PageOf(virt));
        index == ix.i1 && LeafPath(pml4, ix) in tree && tree[LeafPath(pml4, ix)] == pml1
    {
      hide IsTree, FreeList, PageOf, IndicesOf, SameTranslations;
      ShiftsAreIndices(virt);
      var pml4Index := virt / 0x80_0000_0000 % 512;
      var pml3Index := virt / 0x4000_0000 % 512;
      var pml2Index := virt / 0x20_0000 % 512;
      var pml1Index := virt / 0x1000 % 512;
      ghost var k4 := Root(pml4);
      ghost var k3 := Down(k4, pml4Index);
      ghost var k2 := Down(k3, pml3Index);
      AbsentBelow(mem, tree, k3, pml3Index);
      AbsentBelow(mem, tree, k2, pml2Index);
      RootFrame(mem, tree, pml4);
      var pml3 := GetNextPml(pml4, pml4Index, k4);
      ghost var m1, t1 := mem, tree;
      var pml2 := GetNextPml(pml3, pml3Index, k3);
      ghost var m2, t2 := mem, tree;
      assert Depth(k3) == 1;
      pml1 := GetNextPml(pml2, pml2Index, k2);
      SameThroughout(old(mem), old(tree), m1, t1, m2, t2);
      SameThroughout(old(mem), old(tree), m2, t2, mem, tree);
      index := pml1Index;
    }

    /** Maps a page: its translation becomes the new entry, every other one stays, and the TLB
        stays coherent. */
    method MapPage(pml4: nat, virt: nat, frame: nat, flags: nat)
      requires Tables() && Root(pml4) in tree && frame < FRAME_LIMIT && flags < 65536
      requires Missing(tree, pml4, IndicesOf(PageOf(virt))) <= |free|
      modifies this`mem, this`freeHead, this`free, this`handed, this`tree, this`tlb
      ensures Tables() && (old(Valid()) ==> Valid()) && tlb == Invalidated(old(tlb), pml4 == cr3, PageOf(virt))
      ensures Extends(old(tree), tree) && (forall r | Root(r) in tree :: Root(r) in old(tree))
      ensures free == old(free)[old(Missing(tree, pml4, IndicesOf(PageOf(virt))))..]
      ensures tree.Keys == old(tree).Keys + TablesFor(pml4, IndicesOf(PageOf(virt)))
      ensures Updated(old(mem), old(tree), mem, pml4, PageOf(virt), Some(MakeEntry(frame, flags)))
      ensures RightsUpdated(old(mem), old(tree), mem, pml4, PageOf(virt), flags)
    {
      hide IsTree, FreeList, PageOf, IndicesOf, SameTranslations, MakeEntry, Walk, Present, FrameOf;
      ghost var m, t, c := mem, tree, tlb;
      var pml1, index := GetPml1Entry(pml4, virt);
      SetEntry(pml1, index, MakeEntry(frame, flags), pml4, PageOf(virt), m, t);
      InvlpgIfNeeded(pml4, virt);
      if Coherent(m, t, cr3, c) {
        StaysCoherent(m, t, mem, tree, cr3, c, pml4, PageOf(virt), Some(MakeEntry(frame, flags)));
      }
      RightsFollow(m, t, mem, tree, pml4, PageOf(virt), Some(MakeEntry(frame, flags)), flags);
    }

    /** Unmaps a page: it has no translation any more, every other page keeps its own, even if the
        walk had to create tables first. */
    method UnmapPage(pml4: nat, virt: nat)
      requires Tables() && Root(pml4) in tree
      requires Missing(tree, pml4, IndicesOf(PageOf(virt))) <= |free|
      modifies this`mem, this`freeHead, this`free, this`handed, this`tree, this`tlb
      ensures Tables() && (old(Valid()) ==> Valid()) && tlb == Invalidated(old(tlb), pml4 == cr3, PageOf(virt))
      ensures Extends(old(tree), tree) && (forall r | Root(r) in tree :: Root(r) in old(tree))
      ensures free == old(free)[old(Missing(tree, pml4, IndicesOf(PageOf(virt))))..]
      ensures tree.Keys == old(tree).Keys + TablesFor(pml4, IndicesOf(PageOf(virt)))
      ensures Updated(old(mem), old(tree), mem, pml4, PageOf(virt), None)
      ensures RightsUpdated(old(mem), old(tree), mem, pml4, PageOf(virt), 0)
    {
      hide IsTree, FreeList, PageOf, IndicesOf, SameTranslations, Walk, FrameOf;
      ghost var m, t, c := mem, tree, tlb;
      var pml1, index := GetPml1Entry(pml4, virt);
      SetEntry(pml1, index, 0, pml4, PageOf(virt), m, t);
      InvlpgIfNeeded(pml4, virt);
      if Coherent(m, t, cr3, c) {
        StaysCoherent(m, t, mem, tree, cr3, c, pml4, PageOf(virt), None);
      }
      RightsFollow(m, t, mem, tree, pml4, PageOf(virt), None, 0);
    }

    /** *entry = e */
    method SetEntry(pml1: nat, index: nat, e: nat, ghost pml4: nat, ghost page: nat, ghost m: Memory, ghost t: Tree)
      requires Tables() && Root(pml4) in tree && page < PAGE_LIMIT
      requires var ix := IndicesOf(page);
               index == ix.i1 && LeafPath(pml4, ix) in tree && tree[LeafPath(pml4, ix)] == pml1
      requires IsTree(m, t) && Extends(t, tree) && SameTranslations(m, t, mem, tree)
      requires forall r | Root(r) in tree :: Root(r) in t
      modifies this`mem
      ensures Tables() && Updated(m, t, mem, pml4, page, if Present(e) then Some(e) else None)
    {
      hide Present, FrameOf, IndicesOf, Walk;
      ghost var ix := IndicesOf(page);
      ghost var k := LeafPath(pml4, ix);
      assert PathOk(mem, tree, k);
      assert pml1 in tree.Values;
      ghost var before := mem;
      PutLeafKeepsTree(mem, tree, k, index, e);
      mem := Put(mem, pml1, index, e);
      FreeListFrame(hhdm, before, mem, freeHead, free);
      forall r, p: nat | Root(r) in t && p < PAGE_LIMIT
        ensures Walk(mem, r, p)
             == if r == pml4 && p == page then (if Present(e) then Some(e) else None) else Walk(m, r, p)
      {
        WalkIsLookup(mem, tree, r, p);
        WalkIsLookup(m, t, r, p);
        PutLeafLookup(before, tree, k, index, e, r, IndicesOf(p));
        if IndicesOf(p) == ix { IndicesInjective(p, page); }
      }
    }

    method InvlpgIfNeeded(pml4: nat, virt: nat)
      modifies this`tlb
      ensures tlb == if pml4 == cr3 then old(tlb) - {PageOf(virt)} else old(tlb)
    {
      var currentPml4 := cr3;
      if pml4 == currentPml4 {
        tlb := tlb - {PageOf(virt)};
      }
    }

    /** A fresh address space, as vmm_init makes the kernel's: a zeroed root that translates
        nothing.  NULL if no frame is left. */
    method NewSpace() returns (root: nat)
      requires Valid()
      requires cr3 !in free
      modifies this`mem, this`freeHead, this`free, this`handed, this`tree
      ensures Valid()
      ensures old(free) == [] ==> root == NULL && mem == old(mem) && tree == old(tree)
      ensures old(free) != [] ==>
        && root == old(free)[0] && Root(root) !in old(tree) && tree == old(tree)[Root(root) := root]
        && (forall p: nat | p < PAGE_LIMIT :: Walk(mem, root, p) == None)
        && (forall r, p: nat | Root(r) in old(tree) && p < PAGE_LIMIT :: Walk(mem, r, p) == Walk(old(mem), r, p))
    {
      hide IsTree, FreeList, IndicesOf, Walk;
      ghost var m, t, f := mem, tree, free;
      var addr := PmmAlloc();
      root := addr / 4096;
      if f != [] {
        SpaceAdded(m, t, root);
        tree := tree[Root(root) := root];
      }
    }

    /** Loads CR3.  Global translations survive it, so the TLB is coherent afterwards if and only if
        those in it agree with the new tables. */
    method LoadPml4(pml4: nat)
      requires Tables() && Root(pml4) in tree
      modifies this`cr3, this`tlb
      ensures Tables() && cr3 == pml4
      ensures tlb == OnlyGlobals(old(tlb))
      ensures Valid() <==> GlobalsAgree(mem, pml4, old(tlb))
    {
      hide IsTree, FreeList, Walk, Global;
      cr3 := pml4;
      tlb := OnlyGlobals(tlb);
      assert forall p | p in tlb :: tlb[p] == old(tlb)[p] && Global(tlb[p]);
      assert forall p | p in old(tlb) && Global(old(tlb)[p]) :: p in tlb;
    }

    /** The processor caches the translation of a page, if it has one. */
    method Fill(page: nat)
      requires Tables() && page < PAGE_LIMIT
      modifies this`tlb
      ensures Tables() && (old(Valid()) ==> Valid())
      ensures tlb == Cached(old(tlb), page, Walk(mem, cr3, page))
    {
      var entry := Walk(mem, cr3, page);
      if entry.Some? {
        tlb := tlb[page := entry.value];
      }
    }

    /** The processor drops a cached translation. */
    method Evict(page: nat)
      requires Tables()
      modifies this`tlb
      ensures Tables() && (old(Valid()) ==> Valid()) && tlb == old(tlb) - {page}
    {
      tlb := tlb - {page};
    }

    ghost function Now(): Snapshot
      reads this
    {
      Snapshot(mem, tree, cr3, tlb)
    }

    /** Over any run of map, unmap, load, fill and evict steps on any of the address spaces, with as many
        frames as the run's pages lack tables, each page of each space ends up with what the last map or
        unmap of that very page gave it.  The TLB is coherent throughout if and only if it was at the
        start and at every load the global translations in it agree with the tables being loaded. */
    method Run(ops: seq<Op>) returns (ghost history: seq<Snapshot>)
      requires Tables() && |TablesOf(ops) - tree.Keys| <= |free|
      requires forall i | 0 <= i < |ops| :: ops[i].Allowed(tree)
      modifies this
      ensures Tables()
      ensures forall r, p: nat | Root(r) in old(tree) && p < PAGE_LIMIT ::
        Walk(mem, r, p) == Expected(old(mem), ops, r, p)
      ensures forall r, p: nat, right | Root(r) in old(tree) && p < PAGE_LIMIT ::
        Permits(mem, r, p, right) <==> Permitted(old(mem), ops, r, p, right)
      ensures IsHistory(history, ops) && history[0] == old(Now()) && history[|ops|] == Now()
      ensures CoherentThroughout(history) <==> old(Now()).IsCoherent() && LoadsAgree(history, ops)
    {
      hide IsTree, FreeList, IndicesOf, Walk, TablesOf, Flat, Expected, Transition, IsHistory, SameSpaces, Coherent;
      hide CoherentThroughout, LoadsAgree;
      StartOfRun(Now());
      NothingStepped(mem, tree);
      PrefixGrows(ops, 0);
      history := [Now()];
      for i := 0 to |ops|
        invariant Tables() && |TablesOf(ops[i..]) - tree.Keys| <= |free|
        invariant SameSpaces(old(tree), tree) && Flat(old(mem), old(tree), mem, ops[..i])
        invariant IsHistory(history, ops[..i])
        invariant |history| == i + 1 && history[0] == old(Now()) && history[i] == Now()
      {
        PrefixGrows(ops, i);
        TablesLeft(ops, i, tree.Keys);
        AllowedStill(ops[i], old(tree), tree);
        Step(ops[i]);
        HistoryGrows(history, Now(), ops[..i], ops[i]);
        FlatStep(old(mem), old(tree), history[i], Now(), ops[..i], ops[i]);
        history := history + [Now()];
      }
      PrefixGrows(ops, |ops|);
      FlatIs(old(mem), old(tree), mem, ops);
      RightsOfRun(old(mem), old(tree), mem, tree, ops);
      ThroughoutExactly(history, ops);
    }

    /** One step, given the frames it needs: only map and unmap need any. */
    method Step(op: Op)
      requires Tables() && op.Allowed(tree) && |op.Tables() - tree.Keys| <= |free|
      modifies this
      ensures Tables() && SameSpaces(old(tree), tree)
      ensures tree.Keys == old(tree).Keys + op.Tables() && |free| == |old(free)| - |op.Tables() - old(tree).Keys|
      ensures Transition(old(Now()), op, Now())
    {
      hide IsTree, FreeList, IndicesOf, Walk, PageOf, Coherent, MakeEntry, GlobalsAgree, TablesFor, Missing;
      hide NoNewGlobals, Updated, Stepped, OnlyGlobals, Invalidated, Cached, Extends;
      ghost var s := Now();
      match op {
        case MapOp(root, virt, frame, flags) =>
          MissingCounts(mem, tree, root, IndicesOf(PageOf(virt)));
          MapPage(root, virt, frame, flags);
          MapIsStep(s.mem, s.tree, mem, op);
          RootsKept(s.tree, tree);
        case UnmapOp(root, virt) =>
          MissingCounts(mem, tree, root, IndicesOf(PageOf(virt)));
          UnmapPage(root, virt);
          MapIsStep(s.mem, s.tree, mem, op);
          RootsKept(s.tree, tree);
        case LoadOp(root) =>
          LoadPml4(root);
        case FillOp(page) =>
          Fill(page);
        case EvictOp(page) =>
          Evict(page);
      }
      OtherwiseNoStep(s.mem, s.tree, op);
      GlobalsStayAway(s, op, Now());
    }
  }

  /** The same address spaces exist. */
  ghost predicate SameSpaces(tree: Tree, tree': Tree)
  {
    forall r :: Root(r) in tree <==> Root(r) in tree'
  }

  /** Every page of every space has what the step makes of its translation. */
  ghost predicate Stepped(mem: Memory, tree: Tree, mem': Memory, op: Op)
  {
    forall r, p: nat {:trigger Walk(mem', r, p)} | Root(r) in tree && p < PAGE_LIMIT ::
      Walk(mem', r, p) == op.Effect(r, p, Walk(mem, r, p))
  }

  lemma RootsKept(tree: Tree, tree': Tree)
    requires Extends(tree, tree') && forall r | Root(r) in tree' :: Root(r) in tree
    ensures SameSpaces(tree, tree')
  {
  }

  lemma MapIsStep(mem: Memory, tree: Tree, mem': Memory, op: Op)
    requires op.MapOp? ==>
      && op.frame < FRAME_LIMIT && op.flags < 65536
      && Updated(mem, tree, mem', op.root, PageOf(op.virt), Some(MakeEntry(op.frame, op.flags)))
    requires op.UnmapOp? ==> Updated(mem, tree, mem', op.root, PageOf(op.virt), None)
    requires op.MapOp? || op.UnmapOp?
    ensures Stepped(mem, tree, mem', op)
  {
    hide Walk, PageOf, MakeEntry;
  }

  lemma OtherwiseNoStep(mem: Memory, tree: Tree, op: Op)
    ensures !op.MapOp? && !op.UnmapOp? ==> Stepped(mem, tree, mem, op)
  {
    hide Walk;
  }

  /** Every page of every space has what the steps make of its translation. */
  ghost predicate Flat(mem: Memory, tree: Tree, mem': Memory, ops: seq<Op>)
  {
    forall r, p: nat | Root(r) in tree && p < PAGE_LIMIT :: Walk(mem', r, p) == Expected(mem, ops, r, p)
  }

  lemma FlatStep(mem: Memory, tree: Tree, s: Snapshot, s': Snapshot, ops: seq<Op>, op: Op)
    requires Flat(mem, tree, s.mem, ops) && Transition(s, op, s') && SameSpaces(tree, s.tree)
    ensures Flat(mem, tree, s'.mem, ops + [op]) && SameSpaces(tree, s'.tree)
  {
    hide Walk, CoherenceStep, NoNewGlobals;
    assert (ops + [op])[..|ops|] == ops;
  }

  lemma FlatIs(mem: Memory, tree: Tree, mem': Memory, ops: seq<Op>)
    requires Flat(mem, tree, mem', ops)
    ensures forall r, p: nat | Root(r) in tree && p < PAGE_LIMIT :: Walk(mem', r, p) == Expected(mem, ops, r, p)
  {
    hide Walk, Expected;
  }

  lemma PrefixGrows(ops: seq<Op>, i: nat)
    requires i <= |ops|
    ensures i < |ops| ==> ops[..i + 1] == ops[..i] + [ops[i]]
    ensures ops[..0] == [] && ops[0..] == ops && ops[..|ops|] == ops
  {
  }

  lemma AllowedStill(op: Op, tree: Tree, tree': Tree)
    requires op.Allowed(tree) && SameSpaces(tree, tree')
    ensures op.Allowed(tree')
  {
  }

  lemma NothingStepped(mem: Memory, tree: Tree)
    ensures Flat(mem, tree, mem, []) && SameSpaces(tree, tree)
  {
    hide Walk;
  }

  /** How a step affects coherence: a load decides it, any other step keeps it. */
  ghost predicate CoherenceStep(s: Snapshot, op: Op, s': Snapshot)
  {
    if op.LoadOp? then s'.IsCoherent() <==> GlobalsAgree(s.mem, op.root, s.tlb)
    else s.IsCoherent() ==> s'.IsCoherent()
  }

  ghost predicate CoherentThroughout(history: seq<Snapshot>)
  {
    forall i | 0 <= i < |history| :: history[i].IsCoherent()
  }

  ghost predicate LoadsAgree(history: seq<Snapshot>, ops: seq<Op>)
    requires |history| == |ops| + 1
  {
    forall i | 0 <= i < |ops| && ops[i].LoadOp? :: GlobalsAgree(history[i].mem, ops[i].root, history[i].tlb)
  }

  /** What a step does to everything the processor sees. */
  ghost predicate Transition(s: Snapshot, op: Op, s': Snapshot)
  {
    && Stepped(s.mem, s.tree, s'.mem, op) && SameSpaces(s.tree, s'.tree)
    && s'.cr3 == op.RootThen(s.cr3) && s'.tlb == op.TlbThen(s)
    && CoherenceStep(s, op, s') && NoNewGlobals(s, op, s')
  }

  ghost predicate IsHistory(history: seq<Snapshot>, ops: seq<Op>)
  {
    |history| == |ops| + 1 && forall i | 0 <= i < |ops| :: Transition(history[i], ops[i], history[i + 1])
  }

  lemma HistoryGrows(before: seq<Snapshot>, s: Snapshot, ops: seq<Op>, op: Op)
    requires IsHistory(before, ops) && Transition(before[|ops|], op, s)
    ensures IsHistory(before + [s], ops + [op])
  {
    hide Transition;
    var history, all := before + [s], ops + [op];
    forall i | 0 <= i < |all| ensures Transition(history[i], all[i], history[i + 1]) {
      assert i < |ops| ==> history[i] == before[i] && history[i + 1] == before[i + 1] && all[i] == ops[i];
    }
  }

  /** The TLB is coherent throughout a run if and only if it was at the start and the global translations in it
      agree with the tables at every load. */
  lemma ThroughoutExactly(history: seq<Snapshot>, ops: seq<Op>)
    requires IsHistory(history, ops)
    ensures CoherentThroughout(history) <==> history[0].IsCoherent() && LoadsAgree(history, ops)
  {
    hide Coherent, GlobalsAgree, Stepped, SameSpaces, NoNewGlobals;
    if history[0].IsCoherent() && LoadsAgree(history, ops) {
      for n := 0 to |ops|
        invariant forall i | 0 <= i <= n :: history[i].IsCoherent()
      {
        assert Transition(history[n], ops[n], history[n + 1]);
      }
    }
    if CoherentThroughout(history) {
      forall i | 0 <= i < |ops| && ops[i].LoadOp?
        ensures GlobalsAgree(history[i].mem, ops[i].root, history[i].tlb)
      {
        assert Transition(history[i], ops[i], history[i + 1]);
      }
    }
  }

  lemma StartOfRun(s: Snapshot)
    ensures IsHistory([s], [])
  {
  }

  // ---------- without global pages ----------

  /** No address space translates a page by a global entry. */
  ghost predicate NoGlobalPages(mem: Memory, tree: Tree)
  {
    forall r, p: nat | Root(r) in tree && p < PAGE_LIMIT && Walk(mem, r, p).Some? :: !Global(Walk(mem, r, p).value)
  }

  ghost predicate NoGlobalsCached(tlb: map<nat, nat>)
  {
    forall p | p in tlb :: !Global(tlb[p])
  }

  ghost predicate FreeOfGlobals(s: Snapshot)
  {
    Root(s.cr3) in s.tree && NoGlobalPages(s.mem, s.tree) && NoGlobalsCached(s.tlb)
  }

  /** Only mapping a page as global makes a global translation. */
  ghost predicate NoNewGlobals(s: Snapshot, op: Op, s': Snapshot)
  {
    FreeOfGlobals(s) && !(op.MapOp? && op.flags / 256 % 2 == 1) ==> FreeOfGlobals(s')
  }

  lemma GlobalsStayAway(s: Snapshot, op: Op, s': Snapshot)
    requires Stepped(s.mem, s.tree, s'.mem, op) && SameSpaces(s.tree, s'.tree)
    requires s'.cr3 == op.RootThen(s.cr3) && s'.tlb == op.TlbThen(s) && op.Allowed(s.tree)
    ensures NoNewGlobals(s, op, s')
  {
    hide Walk, PageOf, Global;
  }

  datatype Op =
    | MapOp(root: nat, virt: nat, frame: nat, flags: nat)
    | UnmapOp(root: nat, virt: nat)
    | LoadOp(root: nat)
    | FillOp(page: nat)
    | EvictOp(page: nat)
  {
    ghost predicate Allowed(tree: Tree)
    {
      match this
      case MapOp(root, _, frame, flags) => Root(root) in tree && frame < FRAME_LIMIT && flags < 65536
      case UnmapOp(root, _) => Root(root) in tree
      case LoadOp(root) => Root(root) in tree
      case FillOp(page) => page < PAGE_LIMIT
      case EvictOp(_) => true
    }

    /** What becomes of the translation of page p of space r. */
    ghost function Effect(r: nat, p: nat, before: Option<nat>): Option<nat>
    {
      match this
      case MapOp(root, virt, frame, flags) =>
        if r == root && p == PageOf(virt) && frame < FRAME_LIMIT && flags < 65536 then Some(MakeEntry(frame, flags))
        else before
      case UnmapOp(root, virt) => if r == root && p == PageOf(virt) then None else before
      case _ => before
    }

    /** The root that is loaded after the step. */
    function RootThen(cr3: nat): nat
    {
      if LoadOp? then root else cr3
    }

    /** The TLB after the step. */
    ghost function TlbThen(s: Snapshot): map<nat, nat>
    {
      match this
      case MapOp(root, virt, _, _) => Invalidated(s.tlb, root == s.cr3, PageOf(virt))
      case UnmapOp(root, virt) => Invalidated(s.tlb, root == s.cr3, PageOf(virt))
      case LoadOp(_) => OnlyGlobals(s.tlb)
      case FillOp(page) => if page < PAGE_LIMIT then Cached(s.tlb, page, Walk(s.mem, s.cr3, page)) else s.tlb
      case EvictOp(page) => s.tlb - {page}
    }

    /** The tables the step needs. */
    ghost function Tables(): set<Path>
    {
      match this
      case MapOp(root, virt, _, _) => TablesFor(root, IndicesOf(PageOf(virt)))
      case UnmapOp(root, virt) => TablesFor(root, IndicesOf(PageOf(virt)))
      case _ => {}
    }
  }

  ghost function TablesOf(ops: seq<Op>): set<Path>
  {
    if ops == [] then {} else ops[0].Tables() + TablesOf(ops[1..])
  }

  /** What the rest of a run lacks once its first step has its tables. */
  lemma TablesLeft(ops: seq<Op>, i: nat, keys: set<Path>)
    requires i < |ops|
    ensures var t := ops[i].Tables();
      && |t - keys| <= |TablesOf(ops[i..]) - keys|
      && |TablesOf(ops[i + 1..]) - (keys + t)| == |TablesOf(ops[i..]) - keys| - |t - keys|
  {
    var t, rest := ops[i].Tables(), TablesOf(ops[i + 1..]);
    assert ops[i..][1..] == ops[i + 1..];
    assert TablesOf(ops[i..]) - keys == (t - keys) + (rest - (keys + t));
    assert (t - keys) !! (rest - (keys + t));
  }

  /** A run that maps no page as global, from a state without any, keeps the TLB coherent throughout. */
  lemma {:induction false} NoGlobalsNoDoubt(history: seq<Snapshot>, ops: seq<Op>, n: nat)
    requires IsHistory(history, ops) && n <= |ops| && FreeOfGlobals(history[0])
    requires forall i | 0 <= i < |ops| :: !(ops[i].MapOp? && ops[i].flags / 256 % 2 == 1)
    ensures FreeOfGlobals(history[n])
    ensures n == |ops| && history[0].IsCoherent() ==> CoherentThroughout(history)
  {
    hide NoGlobalPages, Coherent, CoherentThroughout, Stepped, CoherenceStep, Cached, Walk;
    if n > 0 {
      NoGlobalsNoDoubt(history, ops, n - 1);
      assert Transition(history[n - 1], ops[n - 1], history[n]);
    }
    if n == |ops| {
      forall i | 0 <= i < |ops| ensures FreeOfGlobals(history[i]) {
        NoGlobalsNoDoubt(history, ops, i);
      }
      ThroughoutExactly(history, ops);
    }
  }

  /** The flat map: the last step that named the page decides. */
  ghost function Expected(mem: Memory, ops: seq<Op>, r: nat, p: nat): Option<nat>
    requires p < PAGE_LIMIT
    decreases |ops|
  {
    if ops == [] then Walk(mem, r, p)
    else ops[|ops| - 1].Effect(r, p, Expected(mem, ops[..|ops| - 1], r, p))
  }

  /** The rights on a page after a run: those of the flags it was last mapped with, none once unmapped. */
  ghost predicate Permitted(mem: Memory, ops: seq<Op>, r: nat, p: nat, right: Right)
    requires p < PAGE_LIMIT
    decreases |ops|
  {
    if ops == [] then Permits(mem, r, p, right)
    else
      var op := ops[|ops| - 1];
      if op.MapOp? && op.root == r && PageOf(op.virt) == p then Grants(op.flags, right)
      else !(op.UnmapOp? && op.root == r && PageOf(op.virt) == p) && Permitted(mem, ops[..|ops| - 1], r, p, right)
  }

  lemma {:induction false} PermittedIs(mem: Memory, tree: Tree, ops: seq<Op>, r: nat, p: nat, right: Right)
    requires IsTree(mem, tree) && Root(r) in tree && p < PAGE_LIMIT
    requires forall i | 0 <= i < |ops| :: ops[i].Allowed(tree)
    ensures Permitted(mem, ops, r, p, right) <==>
      Expected(mem, ops, r, p).Some? && Grants(Expected(mem, ops, r, p).value, right)
    decreases |ops|
  {
    hide IsTree, Walk, Permits, Grants, PageOf, MakeEntry;
    if ops == [] {
      RightsAreTheLeafs(mem, tree, r, p, right);
    } else {
      var n := |ops| - 1;
      assert ops[n].Allowed(tree);
      PermittedIs(mem, tree, ops[..n], r, p, right);
    }
  }

  lemma RightsOfRun(mem: Memory, tree: Tree, mem': Memory, tree': Tree, ops: seq<Op>)
    requires IsTree(mem, tree) && IsTree(mem', tree') && SameSpaces(tree, tree')
    requires forall i | 0 <= i < |ops| :: ops[i].Allowed(tree)
    requires forall r, p: nat | Root(r) in tree && p < PAGE_LIMIT :: Walk(mem', r, p) == Expected(mem, ops, r, p)
    ensures forall r, p: nat, right | Root(r) in tree && p < PAGE_LIMIT ::
      Permits(mem', r, p, right) <==> Permitted(mem, ops, r, p, right)
  {
    hide IsTree, Walk, Permits, Grants, Expected, Permitted;
    forall r, p: nat, right | Root(r) in tree && p < PAGE_LIMIT
      ensures Permits(mem', r, p, right) <==> Permitted(mem, ops, r, p, right)
    {
      RightsAreTheLeafs(mem', tree', r, p, right);
      PermittedIs(mem, tree, ops, r, p, right);
    }
  }

  lemma SpaceAdded(mem: Memory, tree: Tree, f: nat)
    requires IsTree(mem, tree) && f !in tree.Values
    ensures Root(f) !in tree
    ensures var mem', tree' := mem[f := Zeroes()], tree[Root(f) := f];
      && IsTree(mem', tree') && tree'.Values <= tree.Values + {f}
      && (forall p: nat | p < PAGE_LIMIT :: Walk(mem', f, p) == None)
      && (forall r, p: nat | Root(r) in tree && p < PAGE_LIMIT :: Walk(mem', r, p) == Walk(mem, r, p))
  {
    hide IsTree, IndicesOf, Walk, Lookup;
    var mem', tree' := mem[f := Zeroes()], tree[Root(f) := f];
    NewRootKeepsTree(mem, tree, f);
    if Root(f) in tree { RootFrame(mem, tree, f); }
    forall r, p: nat | Root(r) in tree' && p < PAGE_LIMIT
      ensures Walk(mem', r, p) == if r == f then None else Walk(mem, r, p)
    {
      WalkIsLookup(mem', tree', r, p);
      NewRootLookup(mem, tree, f, r, IndicesOf(p));
      if r != f { WalkIsLookup(mem, tree, r, p); }
    }
  }

  /** In every address space that existed, page p of root has the translation `now`, and every
      other page the one it had. */
  ghost predicate Updated(mem: Memory, tree: Tree, mem': Memory, root: nat, page: nat, now: Option<nat>)
  {
    forall r, p: nat {:trigger Walk(mem', r, p)} | Root(r) in tree && p < PAGE_LIMIT ::
      Walk(mem', r, p) == if r == root && p == page then now else Walk(mem, r, p)
  }

  /** The processor grants on page p of root exactly the rights of the flags, and on every other page what it did. */
  ghost predicate RightsUpdated(mem: Memory, tree: Tree, mem': Memory, root: nat, page: nat, flags: nat)
  {
    forall r, p: nat, right {:trigger Permits(mem', r, p, right)} | Root(r) in tree && p < PAGE_LIMIT ::
      Permits(mem', r, p, right) <==>
        if r == root && p == page then Grants(flags, right) else Permits(mem, r, p, right)
  }

  lemma RightsFollow(mem: Memory, tree: Tree, mem': Memory, tree': Tree, root: nat, page: nat, now: Option<nat>,
      flags: nat)
    requires IsTree(mem, tree) && IsTree(mem', tree') && Extends(tree, tree')
    requires Updated(mem, tree, mem', root, page, now)
    requires forall right :: now.Some? && Grants(now.value, right) <==> Grants(flags, right)
    ensures RightsUpdated(mem, tree, mem', root, page, flags)
  {
    hide IsTree, Walk, Permits, Grants;
    forall r, p: nat, right | Root(r) in tree && p < PAGE_LIMIT
      ensures Permits(mem', r, p, right) <==>
        if r == root && p == page then Grants(flags, right) else Permits(mem, r, p, right)
    {
      RightsAreTheLeafs(mem, tree, r, p, right);
      RightsAreTheLeafs(mem', tree', r, p, right);
    }
  }

  lemma StaysCoherent(mem: Memory, tree: Tree, mem': Memory, tree': Tree, cr3: nat, tlb: map<nat, nat>, root: nat,
      page: nat, now: Option<nat>)
    requires Coherent(mem, tree, cr3, tlb) && Updated(mem, tree, mem', root, page, now)
    requires forall r | Root(r) in tree' :: Root(r) in tree
    ensures Coherent(mem', tree', cr3, if root == cr3 then tlb - {page} else tlb)
  {
    hide Walk;
  }

  lemma SameThroughout(m: Memory, t: Tree, m1: Memory, t1: Tree, m2: Memory, t2: Tree)
    requires SameTranslations(m, t, m1, t1) && SameTranslations(m1, t1, m2, t2)
    ensures SameTranslations(m, t, m2, t2)
  {
  }

  lemma AbsentBelow(mem: Memory, tree: Tree, k: Path, i: nat)
    requires IsTree(mem, tree)
    ensures k !in tree ==> Down(k, i) !in tree
  {
    if k !in tree { NothingBelow(mem, tree, k, i); }
  }

  lemma Hung(mem: Memory, tree: Tree, k: Path, i: nat, f: nat)
    requires IsTree(mem, tree) && k in tree && Depth(k) < 3 && i < ENTRIES && Down(k, i) !in tree
    requires tree[k] in mem && |mem[tree[k]]| == ENTRIES
    requires f < FRAME_LIMIT && f !in tree.Values
    ensures f != tree[k]
    ensures IsTree(Hang(mem, tree, k, i, f), tree[Down(k, i) := f])
    ensures SameTranslations(mem, tree, Hang(mem, tree, k, i, f), tree[Down(k, i) := f])
    ensures Extends(tree, tree[Down(k, i) := f])
    ensures tree[Down(k, i) := f].Values <= tree.Values + {f}
  {
    hide Lookup, Hang, IsTree;
    assert tree[k] in tree.Values;
    HangKeepsTree(mem, tree, k, i, f);
    forall root, ix: Indices | ix.Valid()
      ensures Lookup(Hang(mem, tree, k, i, f), tree[Down(k, i) := f], root, ix) == Lookup(mem, tree, root, ix)
    {
      HangLookup(mem, tree, k, i, f, root, ix);
    }
  }
}
