/** 4-level page tables (kernel/memory/paging.c) as values: entries, the walk that the processor
    makes, and the tree that the tables must form for the walk to be a flat map.  Frames are
    numbered; frame f is the physical page at 4096 * f.  The walk follows section 4.5 of volume 3A
    of the Intel SDM. */
module PageTables {
  import opened Wrappers

  const ENTRIES: nat := 512
  const FRAME_LIMIT: nat := 0x100_0000_0000
  const PAGE_LIMIT: nat := 0x10_0000_0000

  // ---------- entries ----------

  predicate Present(e: nat) { e % 2 == 1 }

  /** *entry & PHYS_ADDR_MASK, as a frame number. */
  function FrameOf(e: nat): nat { e / 4096 % FRAME_LIMIT }

  function LowFlags(e: nat): nat { e % 4096 }

  /** The global bit, bit 8 of an entry. */
  predicate Global(e: nat) { e / 256 % 2 == 1 }

  predicate Bit(n: nat, j: nat)
  {
    if j == 0 then n % 2 == 1 else Bit(n / 2, j - 1)
  }

  /** An entry above the last level with bit 7 set maps a large page and leads to no table. */
  predicate Large(e: nat) { Bit(e, 7) }

  /** The rights an entry can grant: writing is bit 1 of it, user mode bit 2. */
  datatype Right = ToWrite | ForUser

  predicate Grants(e: nat, right: Right)
  {
    match right
    case ToWrite => Bit(e, 1)
    case ForUser => Bit(e, 2)
  }

  /** The k low bits of two numbers are the same. */
  predicate Agree(x: nat, y: nat, k: nat)
  {
    k == 0 || (x % 2 == y % 2 && Agree(x / 2, y / 2, k - 1))
  }

  lemma {:induction false} AgreeBit(x: nat, y: nat, k: nat, j: nat)
    requires Agree(x, y, k) && j < k
    ensures Bit(x, j) <==> Bit(y, j)
    decreases k
  {
    if j > 0 { AgreeBit(x / 2, y / 2, k - 1, j - 1); }
  }

  lemma {:induction false} AgreeAbove(high: nat, low: nat, k: nat)
    ensures Agree(high * TwoTo(k) + low, low, k)
    decreases k
  {
    if k > 0 {
      var a := high * TwoTo(k - 1);
      assert high * TwoTo(k) == 2 * a;
      Halved(a, low);
      AgreeAbove(high, low / 2, k - 1);
    }
  }

  lemma Halved(a: nat, low: nat)
    ensures (2 * a + low) / 2 == a + low / 2 && (2 * a + low) % 2 == low % 2
  {
  }

  lemma TwelveBits()
    ensures TwoTo(12) == 4096
  {
    assert TwoTo(6) == 64 by { assert TwoTo(3) == 8; }
    assert TwoTo(9) == 512;
  }

  /** Setting the present bit of the low flags keeps all others; what lies above does not matter. */
  lemma LowDecides(high: nat, flags: nat, j: nat)
    requires 1 <= j < 12
    ensures Bit(high * 4096 + WithPresent(flags), j) <==> Bit(flags, j)
  {
    hide Bit;
    var low, with := flags % 4096, WithPresent(flags);
    TwelveBits();
    AgreeAbove(high, with, 12);
    AgreeBit(high * 4096 + with, with, 12, j);
    AgreeAbove(flags / 4096, low, 12);
    assert flags == flags / 4096 * 4096 + low;
    AgreeBit(flags, low, 12, j);
    PresentAside(low, with, j);
  }

  lemma PresentAside(low: nat, with: nat, j: nat)
    requires with == (if low % 2 == 1 then low else low + 1) && 1 <= j
    ensures Bit(with, j) <==> Bit(low, j)
  {
    assert with / 2 == low / 2;
  }

  /** Bitwise or of the k low bits of two numbers. */
  function OrBits(a: nat, b: nat, k: nat): nat
    decreases k
  {
    if k == 0 then 0 else 2 * OrBits(a / 2, b / 2, k - 1) + (if a % 2 == 1 || b % 2 == 1 then 1 else 0)
  }

  /** The k low bits of b are all set in a. */
  predicate BitsWithin(b: nat, a: nat, k: nat)
  {
    k == 0 || ((b % 2 == 1 ==> a % 2 == 1) && BitsWithin(b / 2, a / 2, k - 1))
  }

  function TwoTo(k: nat): nat
  {
    if k == 0 then 1 else 2 * TwoTo(k - 1)
  }

  lemma {:induction false} OrWithin(a: nat, b: nat, k: nat)
    requires a < TwoTo(k)
    ensures OrBits(a, b, k) < TwoTo(k)
    ensures OrBits(a, b, k) == a <==> BitsWithin(b, a, k)
    ensures b == 0 ==> BitsWithin(b, a, k)
    decreases k
  {
    if k > 0 { OrWithin(a / 2, b / 2, k - 1); }
  }

  lemma {:induction false} OrBitAt(a: nat, b: nat, k: nat, j: nat)
    requires j < k
    ensures Bit(OrBits(a, b, k), j) <==> Bit(a, j) || Bit(b, j)
    decreases k
  {
    var rest := OrBits(a / 2, b / 2, k - 1);
    assert OrBits(a, b, k) / 2 == rest;
    if j > 0 { OrBitAt(a / 2, b / 2, k - 1, j - 1); }
  }

  /** The low flags with the present bit set. */
  function WithPresent(flags: nat): nat
  {
    if flags % 2 == 1 then flags % 4096 else flags % 4096 + 1
  }

  lemma BitFields(c: nat, g: nat, d: nat, a: nat)
    requires g < 2 && d < 128 && a < 2
    ensures var x := 512 * c + 256 * g + 2 * d + a; x % 2 == a && x / 256 % 2 == g
  {
    assert (512 * c + 256 * g + 2 * d + a) / 256 == 2 * c + g;
  }

  lemma Unpacked(x: nat)
    ensures x == 512 * (x / 512) + 256 * (x / 256 % 2) + 2 * (x % 256 / 2) + x % 2
  {
    assert x / 256 == 2 * (x / 512) + x / 256 % 2;
    assert x == 256 * (x / 256) + x % 256;
    assert x % 256 % 2 == x % 2;
  }

  lemma EntrySplits(frame: nat, low: nat)
    requires frame < FRAME_LIMIT && low < 4096
    ensures FrameOf(frame * 4096 + low) == frame && LowFlags(frame * 4096 + low) == low
  {
    assert (frame * 4096 + low) / 4096 == frame;
  }

  lemma EntryFields(frame: nat, flags: nat)
    requires frame < FRAME_LIMIT
    ensures var e := frame * 4096 + WithPresent(flags);
      && FrameOf(e) == frame && LowFlags(e) == WithPresent(flags)
      && Present(e) && (Global(e) <==> flags / 256 % 2 == 1)
  {
    var q, r := flags / 4096, flags % 4096;
    var c, g, d, a := r / 512, r / 256 % 2, r % 256 / 2, r % 2;
    Unpacked(r);
    BitFields(8 * q + c, g, d, a);
    assert flags == 512 * (8 * q + c) + 256 * g + 2 * d + a;
    BitFields(8 * frame + c, g, d, 1);
    assert WithPresent(flags) == 512 * c + 256 * g + 2 * d + 1;
    assert WithPresent(flags) < 4096;
    EntrySplits(frame, WithPresent(flags));
    hide FrameOf, LowFlags;
    assert frame * 4096 + WithPresent(flags) == 512 * (8 * frame + c) + 256 * g + 2 * d + 1;
  }

  lemma OrIsFull(frame: nat, b: nat)
    requires frame < FRAME_LIMIT
    ensures var f := 16 * (frame / 16) + OrBits(frame % 16, b, 4);
      f < FRAME_LIMIT && (f == frame <==> BitsWithin(b, frame % 16, 4)) && (b == 0 ==> f == frame)
  {
    assert TwoTo(4) == 16 by { assert TwoTo(2) == 4; }
    var t, u := frame / 16, frame % 16;
    assert frame == 16 * t + u && t < 0x10_0000_0000;
    OrWithin(u, b, 4);
    hide OrBits, BitsWithin;
  }

  lemma OrIsBitwise(frame: nat, b: nat)
    ensures var low := OrBits(frame % 16, b, 4);
      var f := 16 * (frame / 16) + low;
      && f / 16 == frame / 16 && f % 16 == low
      && forall j | 0 <= j < 4 :: Bit(low, j) <==> Bit(frame % 16, j) || Bit(b, j)
  {
    hide OrBits, Bit;
    assert TwoTo(4) == 16 by { assert TwoTo(2) == 4; }
    OrWithin(frame % 16, b, 4);
    forall j | 0 <= j < 4 ensures Bit(OrBits(frame % 16, b, 4), j) <==> Bit(frame % 16, j) || Bit(b, j) {
      OrBitAt(frame % 16, b, 4, j);
    }
  }

  /** The frame number with the upper four of 16 flag bits or-ed into it. */
  function FullFrame(frame: nat, flags: nat): (f: nat)
    requires frame < FRAME_LIMIT && flags < 65536
    ensures f < FRAME_LIMIT && (f == frame <==> BitsWithin(flags / 4096, frame % 16, 4))
    ensures flags < 4096 ==> f == frame
    ensures f / 16 == frame / 16
    ensures forall j | 0 <= j < 4 :: Bit(f % 16, j) <==> Bit(frame % 16, j) || Bit(flags / 4096, j)
  {
    OrIsFull(frame, flags / 4096);
    OrIsBitwise(frame, flags / 4096);
    hide OrBits, BitsWithin, Bit;
    16 * (frame / 16) + OrBits(frame % 16, flags / 4096, 4)
  }

  lemma FlagBits(frame: nat, flags: nat)
    ensures var e := frame * 4096 + WithPresent(flags);
      && (forall j | 1 <= j < 12 :: Bit(e, j) <==> Bit(flags, j))
      && (forall right :: Grants(e, right) <==> Grants(flags, right))
  {
    hide Bit, WithPresent;
    forall j | 1 <= j < 12 ensures Bit(frame * 4096 + WithPresent(flags), j) <==> Bit(flags, j) {
      LowDecides(frame, flags, j);
    }
  }

  /** phys | VM_FLAG_PRESENT | flags, for a page-aligned phys. */
  function MakeEntry(frame: nat, flags: nat): (e: nat)
    requires frame < FRAME_LIMIT && flags < 65536
    ensures Present(e) && FrameOf(e) == FullFrame(frame, flags)
    ensures LowFlags(e) == WithPresent(flags) && (Global(e) <==> flags / 256 % 2 == 1)
    ensures e < 4096 * FRAME_LIMIT && forall j | 1 <= j < 12 :: Bit(e, j) <==> Bit(flags, j)
    ensures forall right :: Grants(e, right) <==> Grants(flags, right)
  {
    FlagBits(FullFrame(frame, flags), flags);
    hide Bit, Grants;
    EntryFields(FullFrame(frame, flags), flags);
    hide Present, Global, FrameOf, LowFlags, WithPresent, FullFrame;
    FullFrame(frame, flags) * 4096 + WithPresent(flags)
  }

  /** The entry that links a table: present, writable, for the user. */
  function TableEntry(frame: nat): (e: nat)
    requires frame < FRAME_LIMIT
    ensures Present(e) && FrameOf(e) == frame && Opens(e)
    ensures e < 4096 * FRAME_LIMIT && LowFlags(e) == 7
  {
    hide MakeEntry, FullFrame, FrameOf, Present, Bit;
    SevenOpens(MakeEntry(frame, 7));
    MakeEntry(frame, 7)
  }

  lemma SevenOpens(e: nat)
    ensures (forall j | 1 <= j < 12 :: Bit(e, j) <==> Bit(7, j)) ==> Opens(e)
  {
    assert Bit(7, 1) && Bit(7, 2) && !Bit(7, 7);
  }

  /** A link that takes away no right of the pages below it, and is not a large page. */
  predicate Opens(e: nat)
  {
    Grants(e, ToWrite) && Grants(e, ForUser) && !Large(e)
  }

  // ---------- virtual addresses ----------

  /** The 36-bit page number of a virtual address: what the four indices see of it. */
  function PageOf(virt: nat): (p: nat)
    ensures p < PAGE_LIMIT
  {
    virt / 4096 % PAGE_LIMIT
  }

  datatype Indices = Indices(i4: nat, i3: nat, i2: nat, i1: nat) {
    predicate Valid() { i4 < ENTRIES && i3 < ENTRIES && i2 < ENTRIES && i1 < ENTRIES }
  }

  function IndicesOf(page: nat): (r: Indices)
    requires page < PAGE_LIMIT
    ensures r.Valid()
    ensures page == ((r.i4 * 512 + r.i3) * 512 + r.i2) * 512 + r.i1
  {
    Indices(page / 512 / 512 / 512, page / 512 / 512 % 512, page / 512 % 512, page % 512)
  }

  /** Pages are told apart by their indices. */
  lemma IndicesInjective(p: nat, q: nat)
    requires p < PAGE_LIMIT && q < PAGE_LIMIT && IndicesOf(p) == IndicesOf(q)
    ensures p == q
  {
  }

  /** The shifts and masks of get_pml1_entry pick the indices of the page. */
  lemma ShiftsAreIndices(virt: nat)
    ensures var r := IndicesOf(PageOf(virt));
      && virt / 0x80_0000_0000 % 512 == r.i4
      && virt / 0x4000_0000 % 512 == r.i3
      && virt / 0x20_0000 % 512 == r.i2
      && virt / 0x1000 % 512 == r.i1
  {
    var v := virt / 4096;
    ShiftTwice(virt);
    SplitShifts(v / PAGE_LIMIT, PageOf(virt));
    assert v == PAGE_LIMIT * (v / PAGE_LIMIT) + PageOf(virt);
  }

  lemma ShiftTwice(virt: nat)
    ensures virt / 0x20_0000 == virt / 4096 / 512
    ensures virt / 0x4000_0000 == virt / 4096 / 512 / 512
    ensures virt / 0x80_0000_0000 == virt / 4096 / 512 / 512 / 512
  {
  }

  lemma SplitShifts(k: nat, p: nat)
    requires p < PAGE_LIMIT
    ensures var v := PAGE_LIMIT * k + p;
      && v % 512 == p % 512 && v / 512 % 512 == p / 512 % 512 && v / 512 / 512 % 512 == p / 512 / 512 % 512
      && v / 512 / 512 / 512 % 512 == p / 512 / 512 / 512
  {
    var v := PAGE_LIMIT * k + p;
    assert v / 512 == 0x800_0000 * k + p / 512;
    assert v / 512 / 512 == 0x4_0000 * k + p / 512 / 512;
    assert v / 512 / 512 / 512 == 512 * k + p / 512 / 512 / 512;
  }

  // ---------- memory and the hardware walk ----------

  /** Frames that hold tables or are free, as 512 words each. */
  type Memory = map<nat, seq<nat>>

  /** The table that entry i of the table in frame f leads to. */
  function Follow(mem: Memory, f: Option<nat>, i: nat): Option<nat>
  {
    var e := EntryOf(mem, f, i);
    if e.Some? && !Large(e.value) then Some(FrameOf(e.value)) else None
  }

  /** Entry i of the table in frame f, if it is present. */
  function EntryOf(mem: Memory, f: Option<nat>, i: nat): Option<nat>
  {
    if f.Some? && f.value in mem && i < |mem[f.value]| && Present(mem[f.value][i]) then Some(mem[f.value][i]) else None
  }

  /** The entry that translates a page in the address space rooted at root, if there is one. */
  function Walk(mem: Memory, root: nat, page: nat): Option<nat>
    requires page < PAGE_LIMIT
  {
    var ix := IndicesOf(page);
    var pml1 := Follow(mem, Follow(mem, Follow(mem, Some(root), ix.i4), ix.i3), ix.i2);
    EntryOf(mem, pml1, ix.i1)
  }

  /** A right the processor grants on a page: every one of the four entries on the way to it has to. */
  predicate Permits(mem: Memory, root: nat, page: nat, right: Right)
    requires page < PAGE_LIMIT
  {
    var ix := IndicesOf(page);
    var pml3 := Follow(mem, Some(root), ix.i4);
    var pml2 := Follow(mem, pml3, ix.i3);
    var pml1 := Follow(mem, pml2, ix.i2);
    && Allows(mem, Some(root), ix.i4, right) && Allows(mem, pml3, ix.i3, right)
    && Allows(mem, pml2, ix.i2, right) && Allows(mem, pml1, ix.i1, right)
  }

  predicate Allows(mem: Memory, f: Option<nat>, i: nat, right: Right)
  {
    EntryOf(mem, f, i).Some? && Grants(EntryOf(mem, f, i).value, right)
  }

  // ---------- the tree of tables ----------

  /** Where a table hangs: a root, or an entry of a table higher up. */
  datatype Path = Root(frame: nat) | Down(up: Path, index: nat)

  function Depth(k: Path): nat
  {
    match k
    case Root(_) => 0
    case Down(up, _) => 1 + Depth(up)
  }

  type Tree = map<Path, nat>

  /** Entry i of the table at k is present exactly if a table hangs there, and leads to it with all rights. */
  ghost predicate SlotOk(mem: Memory, tree: Tree, k: Path, i: nat)
    requires k in tree && tree[k] in mem && i < |mem[tree[k]]|
  {
    var e := mem[tree[k]][i];
    && (Present(e) <==> Down(k, i) in tree)
    && (Down(k, i) in tree ==> FrameOf(e) == tree[Down(k, i)] && Opens(e))
  }

  ghost predicate PathOk(mem: Memory, tree: Tree, k: Path)
    requires k in tree
  {
    && Depth(k) <= 3
    && tree[k] in mem && |mem[tree[k]]| == ENTRIES
    && (k.Root? ==> tree[k] == k.frame)
    && (k.Down? ==> k.up in tree && k.index < ENTRIES)
  }

  /** The tables form one tree per root and no frame serves twice. */
  ghost predicate IsTree(mem: Memory, tree: Tree)
  {
    && (forall k | k in tree :: PathOk(mem, tree, k))
    && (forall k, l | k in tree && l in tree && tree[k] == tree[l] :: k == l)
    && (forall k, i: nat {:trigger SlotOk(mem, tree, k, i)}
          | k in tree && Depth(k) < 3 && tree[k] in mem && i < |mem[tree[k]]| ::
          SlotOk(mem, tree, k, i))
  }

  function LeafPath(root: nat, ix: Indices): (k: Path)
    ensures Depth(k) == 3
  {
    var k3 := Down(Root(root), ix.i4);
    assert Depth(k3) == 1;
    Down(Down(k3, ix.i3), ix.i2)
  }

  /** The flat reading of the tree. */
  ghost function Lookup(mem: Memory, tree: Tree, root: nat, ix: Indices): Option<nat>
  {
    var k := LeafPath(root, ix);
    if k in tree && tree[k] in mem && ix.i1 < |mem[tree[k]]| && Present(mem[tree[k]][ix.i1])
    then Some(mem[tree[k]][ix.i1]) else None
  }

  lemma FollowByTree(mem: Memory, tree: Tree, k: Path, i: nat)
    requires IsTree(mem, tree) && k in tree && Depth(k) < 3 && i < ENTRIES
    ensures Follow(mem, Some(tree[k]), i) == if Down(k, i) in tree then Some(tree[Down(k, i)]) else None
    ensures forall right :: Allows(mem, Some(tree[k]), i, right) <==> Down(k, i) in tree
  {
    hide Present, FrameOf, Grants, Large;
    assert PathOk(mem, tree, k);
    assert SlotOk(mem, tree, k, i);
    forall right ensures Allows(mem, Some(tree[k]), i, right) <==> Down(k, i) in tree {
      assert right == ToWrite || right == ForUser;
    }
  }

  /** A table in the tree has all the tables above it in the tree. */
  lemma UpInTree(mem: Memory, tree: Tree, k: Path)
    requires IsTree(mem, tree) && k in tree && k.Down?
    ensures k.up in tree
  {
    assert PathOk(mem, tree, k);
  }

  lemma NothingBelow(mem: Memory, tree: Tree, k: Path, i: nat)
    requires IsTree(mem, tree) && k !in tree
    ensures Down(k, i) !in tree
  {
    if Down(k, i) in tree { UpInTree(mem, tree, Down(k, i)); }
  }

  /** The processor's walk reads the tree as a flat map. */
  lemma WalkIsLookup(mem: Memory, tree: Tree, root: nat, page: nat)
    requires IsTree(mem, tree) && Root(root) in tree && page < PAGE_LIMIT
    ensures Walk(mem, root, page) == Lookup(mem, tree, root, IndicesOf(page))
  {
    hide Present, FrameOf, IsTree;
    var ix := IndicesOf(page);
    var k4 := Root(root);
    var k3 := Down(k4, ix.i4);
    var k2 := Down(k3, ix.i3);
    var k1 := Down(k2, ix.i2);
    RootFrame(mem, tree, root);
    FollowByTree(mem, tree, k4, ix.i4);
    if k3 in tree {
      FollowByTree(mem, tree, k3, ix.i3);
      if k2 in tree {
        FollowByTree(mem, tree, k2, ix.i2);
      }
    }
    if k1 in tree {
      UpInTree(mem, tree, k1);
      UpInTree(mem, tree, k2);
    }
    if k2 in tree { UpInTree(mem, tree, k2); }
  }

  /** The links take no right away: what the processor grants on a page is what its last entry says. */
  lemma RightsAreTheLeafs(mem: Memory, tree: Tree, root: nat, page: nat, right: Right)
    requires IsTree(mem, tree) && Root(root) in tree && page < PAGE_LIMIT
    ensures Permits(mem, root, page, right) <==>
      Walk(mem, root, page).Some? && Grants(Walk(mem, root, page).value, right)
  {
    hide IsTree, EntryOf, Grants, Follow, IndicesOf;
    var ix := IndicesOf(page);
    var k4 := Root(root);
    var k3 := Down(k4, ix.i4);
    var k2 := Down(k3, ix.i3);
    RootFrame(mem, tree, root);
    FollowByTree(mem, tree, k4, ix.i4);
    NowhereFollows(mem, ix.i3);
    NowhereFollows(mem, ix.i2);
    NowhereFollows(mem, ix.i1);
    if k3 in tree {
      FollowByTree(mem, tree, k3, ix.i3);
      if k2 in tree {
        FollowByTree(mem, tree, k2, ix.i2);
      }
    }
  }

  lemma NowhereFollows(mem: Memory, i: nat)
    ensures Follow(mem, None, i) == None && EntryOf(mem, None, i) == None
  {
  }

  lemma RootFrame(mem: Memory, tree: Tree, root: nat)
    requires IsTree(mem, tree) && Root(root) in tree
    ensures tree[Root(root)] == root && root in tree.Values
  {
    assert PathOk(mem, tree, Root(root));
    assert tree[Root(root)] in tree.Values;
  }

  // ---------- what the operations do to the tree ----------

  /** Memory with entry i of frame f set to e. */
  function Put(mem: Memory, f: nat, i: nat, e: nat): Memory
    requires f in mem && i < |mem[f]|
  {
    var table: seq<nat> := mem[f][i := e];
    mem[f := table]
  }

  /** What memset leaves in a frame. */
  function Zeroes(): (z: seq<nat>)
    ensures |z| == ENTRIES && forall i | 0 <= i < ENTRIES :: z[i] == 0
  {
    seq(ENTRIES, i => 0)
  }

  /** Writing an entry of a last-level table keeps the tree. */
  lemma PutLeafKeepsTree(mem: Memory, tree: Tree, k: Path, i: nat, e: nat)
    requires IsTree(mem, tree) && k in tree && Depth(k) == 3 && i < ENTRIES && tree[k] in mem
      && |mem[tree[k]]| == ENTRIES
    ensures IsTree(Put(mem, tree[k], i, e), tree)
  {
    hide Present, FrameOf;
    var mem' := Put(mem, tree[k], i, e);
    forall l | l in tree ensures PathOk(mem', tree, l) { assert PathOk(mem, tree, l); }
    forall l, j: nat | l in tree && Depth(l) < 3 && tree[l] in mem' && j < |mem'[tree[l]]|
      ensures SlotOk(mem', tree, l, j)
    {
      assert tree[l] != tree[k];
      assert SlotOk(mem, tree, l, j);
    }
  }

  /** ... and changes the translation of exactly one page of one address space. */
  lemma PutLeafLookup(mem: Memory, tree: Tree, k: Path, i: nat, e: nat, root: nat, ix: Indices)
    requires IsTree(mem, tree) && k in tree && Depth(k) == 3 && i < ENTRIES && tree[k] in mem
      && |mem[tree[k]]| == ENTRIES
    requires ix.Valid()
    ensures Lookup(Put(mem, tree[k], i, e), tree, root, ix) ==
      if k == LeafPath(root, ix) && i == ix.i1 then (if Present(e) then Some(e) else None)
      else Lookup(mem, tree, root, ix)
  {
    hide Present, FrameOf;
  }

  /** Hanging a zeroed frame into an absent entry keeps the tree. */
  lemma HangKeepsTree(mem: Memory, tree: Tree, k: Path, i: nat, f: nat)
    requires IsTree(mem, tree) && k in tree && Depth(k) < 3 && i < ENTRIES && Down(k, i) !in tree
    requires tree[k] in mem && |mem[tree[k]]| == ENTRIES
    requires f < FRAME_LIMIT && f !in tree.Values
    ensures IsTree(Hang(mem, tree, k, i, f), tree[Down(k, i) := f])
  {
    hide Present, FrameOf;
    assert forall l | l in tree :: tree[l] in tree.Values;
    var mem', tree' := Hang(mem, tree, k, i, f), tree[Down(k, i) := f];
    HangPaths(mem, tree, k, i, f);
    hide Hang, PathOk, SlotOk, Depth;
    forall l, j: nat | l in tree' && Depth(l) < 3 && tree'[l] in mem' && j < |mem'[tree'[l]]|
      ensures SlotOk(mem', tree', l, j)
    {
      HangSlot(mem, tree, k, i, f, l, j);
    }
  }

  lemma HangPaths(mem: Memory, tree: Tree, k: Path, i: nat, f: nat)
    requires IsTree(mem, tree) && k in tree && Depth(k) < 3 && i < ENTRIES && Down(k, i) !in tree
    requires tree[k] in mem && |mem[tree[k]]| == ENTRIES
    requires f < FRAME_LIMIT && f !in tree.Values && f != tree[k]
    ensures var mem', tree' := Hang(mem, tree, k, i, f), tree[Down(k, i) := f];
      forall l | l in tree' :: PathOk(mem', tree', l) && |mem'[tree'[l]]| == ENTRIES
  {
    hide Present, FrameOf;
    var mem', tree' := Hang(mem, tree, k, i, f), tree[Down(k, i) := f];
    forall l | l in tree' ensures PathOk(mem', tree', l) {
      if l in tree { assert PathOk(mem, tree, l); }
    }
  }

  function Hang(mem: Memory, tree: Tree, k: Path, i: nat, f: nat): Memory
    requires k in tree && tree[k] in mem && i < |mem[tree[k]]| && f < FRAME_LIMIT && f != tree[k]
  {
    Put(mem[f := Zeroes()], tree[k], i, TableEntry(f))
  }

  lemma HangSlot(mem: Memory, tree: Tree, k: Path, i: nat, f: nat, l: Path, j: nat)
    requires IsTree(mem, tree) && k in tree && Depth(k) < 3 && i < ENTRIES && Down(k, i) !in tree
    requires tree[k] in mem && |mem[tree[k]]| == ENTRIES
    requires f < FRAME_LIMIT && f !in tree.Values && f != tree[k]
    requires l in tree[Down(k, i) := f] && Depth(l) < 3 && j < ENTRIES
    requires var mem', tree' := Hang(mem, tree, k, i, f), tree[Down(k, i) := f];
             tree'[l] in mem' && |mem'[tree'[l]]| == ENTRIES
    ensures SlotOk(Hang(mem, tree, k, i, f), tree[Down(k, i) := f], l, j)
  {
    hide FrameOf;
    var mem', tree' := Hang(mem, tree, k, i, f), tree[Down(k, i) := f];
    if l == Down(k, i) {
      NothingBelow(mem, tree, l, j);
      assert mem'[f] == Zeroes();
    } else {
      assert PathOk(mem, tree, l) && SlotOk(mem, tree, l, j);
      assert tree[l] in tree.Values;
      hide Present;
      if l != k { assert tree[l] != tree[k]; }
    }
  }

  /** ... and changes no translation. */
  lemma HangLookup(mem: Memory, tree: Tree, k: Path, i: nat, f: nat, root: nat, ix: Indices)
    requires IsTree(mem, tree) && k in tree && Depth(k) < 3 && i < ENTRIES && Down(k, i) !in tree
    requires tree[k] in mem && |mem[tree[k]]| == ENTRIES
    requires f < FRAME_LIMIT && f !in tree.Values && f != tree[k] && ix.Valid()
    ensures Lookup(Hang(mem, tree, k, i, f), tree[Down(k, i) := f], root, ix) == Lookup(mem, tree, root, ix)
  {
    hide FrameOf;
    var leaf := LeafPath(root, ix);
    if leaf in tree {
      assert PathOk(mem, tree, leaf);
      assert tree[leaf] in tree.Values;
      assert leaf != k;
    }
  }

  /** A fresh zeroed root is an address space with nothing mapped. */
  lemma NewRootKeepsTree(mem: Memory, tree: Tree, f: nat)
    requires IsTree(mem, tree) && f !in tree.Values
    ensures IsTree(mem[f := Zeroes()], tree[Root(f) := f])
  {
    var mem', tree' := mem[f := Zeroes()], tree[Root(f) := f];
    assert forall l | l in tree :: tree[l] in tree.Values;
    if Root(f) in tree { RootFrame(mem, tree, f); }
    forall l | l in tree' ensures PathOk(mem', tree', l) {
      if l in tree { assert PathOk(mem, tree, l); }
    }
    forall l, j: nat | l in tree' && Depth(l) < 3 && tree'[l] in mem' && j < |mem'[tree'[l]]|
      ensures SlotOk(mem', tree', l, j)
    {
      if l in tree {
        assert SlotOk(mem, tree, l, j);
      } else {
        NothingBelow(mem, tree, l, j);
      }
    }
  }

  lemma NewRootLookup(mem: Memory, tree: Tree, f: nat, root: nat, ix: Indices)
    requires IsTree(mem, tree) && f !in tree.Values
    ensures Lookup(mem[f := Zeroes()], tree[Root(f) := f], root, ix) == Lookup(mem, tree, root, ix)
    ensures root == f ==> Lookup(mem, tree, root, ix) == None
  {
    var leaf := LeafPath(root, ix);
    if leaf in tree {
      assert tree[leaf] in tree.Values;
      UpInTree(mem, tree, leaf);
      UpInTree(mem, tree, leaf.up);
      UpInTree(mem, tree, leaf.up.up);
      assert PathOk(mem, tree, Root(root));
      assert tree[Root(root)] in tree.Values;
    }
  }

  /** Memory with entry i of a table linked to frame f, whatever f holds. */
  function LinkedTo(mem: Memory, pml: nat, i: nat, f: nat): (mem': Memory)
    requires pml in mem && i < |mem[pml]| && f < FRAME_LIMIT
    ensures pml in mem' && |mem'[pml]| == |mem[pml]|
  {
    Put(mem, pml, i, TableEntry(f))
  }

  lemma LinkedFollow(mem: Memory, pml: nat, i: nat, f: nat, j: nat)
    requires pml in mem && i < |mem[pml]| && f < FRAME_LIMIT
    ensures Follow(LinkedTo(mem, pml, i, f), Some(pml), j) == if j == i then Some(f) else Follow(mem, Some(pml), j)
  {
    hide Present, FrameOf, TableEntry;
  }

  /** pmm_alloc returns NULL when no frame is left, and get_next_pml links it like any other address:
      two entries filled that way lead to the same frame, and no tree describes the result.  This is
      why the paging operations need as many free frames as tables are missing. */
  lemma OutOfFramesShares(mem: Memory, pml: nat, i: nat, j: nat, f: nat, tree: Tree, k: Path)
    requires pml in mem && |mem[pml]| == ENTRIES && i < ENTRIES && j < ENTRIES && i != j && f < FRAME_LIMIT
    ensures var mem' := LinkedTo(LinkedTo(mem, pml, i, f), pml, j, f);
      && Follow(mem', Some(pml), i) == Follow(mem', Some(pml), j) == Some(f)
      && !(IsTree(mem', tree) && k in tree && tree[k] == pml && Depth(k) < 3)
  {
    hide LinkedTo, Follow;
    var mem' := LinkedTo(LinkedTo(mem, pml, i, f), pml, j, f);
    LinkedFollow(mem, pml, i, f, i);
    LinkedFollow(LinkedTo(mem, pml, i, f), pml, j, f, i);
    LinkedFollow(LinkedTo(mem, pml, i, f), pml, j, f, j);
    if IsTree(mem', tree) && k in tree && tree[k] == pml && Depth(k) < 3 {
      FollowByTree(mem', tree, k, i);
      FollowByTree(mem', tree, k, j);
    }
  }
}
