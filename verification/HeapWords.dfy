/** How kernel/memory/kmalloc.c keeps its bookkeeping inside the heap itself: the metadata word at
    the start of every chunk, the list links in every free chunk and the footer at its end.  The
    heap is a sequence of 8-byte words; pointers stored in it are byte addresses. */
module HeapWords {
  import opened HeapLayout

  const HEAP_START: nat := 0xffff_8100_0000_0000
  const NULL: nat := 0

  /** Byte address of the i-th word of the heap, and back. */
  function Ptr(i: nat): (a: nat)
    ensures Idx(a) == i && a % 8 == 0 && a != NULL
  {
    HEAP_START + 8 * i
  }

  function Idx(a: nat): int
  {
    (a - HEAP_START) / 8
  }

  // ---------- the metadata word: size above bit 3, two flags below ----------

  function GetSz(w: nat): (sz: nat)
    ensures sz % 8 == 0
  {
    w / 8 * 8
  }

  predicate IsFree(w: nat) { w % 2 == 1 }

  predicate IsPrevFree(w: nat) { w / 2 % 2 == 1 }

  /** The fields of a word are independent: a word is its size, its unused bit and its flags. */
  lemma Fields(size: nat, unused: nat, prevFree: nat, free: nat)
    requires unused < 2 && prevFree < 2 && free < 2
    ensures var w := 8 * size + 4 * unused + 2 * prevFree + free;
      GetSz(w) == 8 * size && w / 4 % 2 == unused && IsPrevFree(w) == (prevFree == 1) && IsFree(w) == (free == 1)
  {
    var w := 8 * size + 4 * unused + 2 * prevFree + free;
    assert w / 2 == 4 * size + 2 * unused + prevFree;
    assert w / 4 == 2 * size + unused;
  }

  lemma Unpack(w: nat)
    ensures w == 8 * (w / 8) + 4 * (w / 4 % 2) + 2 * (w / 2 % 2) + w % 2
  {
    assert w / 2 == 2 * (w / 4) + w / 2 % 2;
    assert w / 4 == 2 * (w / 8) + w / 4 % 2;
  }

  function SetSz(w: nat, sz: nat): (r: nat)
    ensures GetSz(r) == sz / 8 * 8
    ensures IsFree(r) == IsFree(w) && IsPrevFree(r) == IsPrevFree(w)
  {
    Unpack(w);
    Fields(sz / 8, w / 4 % 2, w / 2 % 2, w % 2);
    sz / 8 * 8 + w % 8
  }

  function PutFree(w: nat, b: bool): (r: nat)
    ensures GetSz(r) == GetSz(w) && IsFree(r) == b && IsPrevFree(r) == IsPrevFree(w)
  {
    Unpack(w);
    Fields(w / 8, w / 4 % 2, w / 2 % 2, if b then 1 else 0);
    w - w % 2 + (if b then 1 else 0)
  }

  function PutPrevFree(w: nat, b: bool): (r: nat)
    ensures GetSz(r) == GetSz(w) && IsFree(r) == IsFree(w) && IsPrevFree(r) == b
  {
    Unpack(w);
    Fields(w / 8, w / 4 % 2, if b then 1 else 0, w % 2);
    w - 2 * (w / 2 % 2) + (if b then 2 else 0)
  }

  // ---------- headers and footers ----------

  ghost predicate HeaderOk(h: seq<nat>, m: Layout, s: int)
    requires s in m
  {
    0 <= s < |h| && GetSz(h[s]) == 8 * m[s].size && IsFree(h[s]) == m[s].free
  }

  /** IS_PREV_FREE of the right neighbour tells whether s is free, and if it is then s ends in a
      footer that holds its size. */
  ghost predicate BoundaryOk(h: seq<nat>, m: Layout, s: int)
    requires s in m
  {
    var t := Next(m, s);
    t in m ==> 0 < t < |h| && IsPrevFree(h[t]) == m[s].free && (m[s].free ==> h[t - 1] == 8 * m[s].size)
  }

  ghost predicate Tagged(h: seq<nat>, m: Layout)
  {
    && 0 in m && |h| > 0 && !IsPrevFree(h[0])
    && (forall s | s in m :: HeaderOk(h, m, s))
    && (forall s | s in m :: BoundaryOk(h, m, s))
  }

  // ---------- the free list ----------

  /** The pointer to the i-th node of the list, NULL at either end. */
  function Link(list: seq<nat>, i: int): nat
  {
    if 0 <= i < |list| then Ptr(list[i]) else NULL
  }

  ghost predicate NodeLinked(h: seq<nat>, list: seq<nat>, i: int)
    requires 0 <= i < |list|
  {
    && list[i] + 2 < |h|
    && h[list[i] + 1] == Link(list, i - 1)
    && h[list[i] + 2] == Link(list, i + 1)
  }

  /** The words behind head form a doubly linked list through exactly the nodes of `list`. */
  ghost predicate Linked(h: seq<nat>, head: nat, list: seq<nat>)
  {
    && head == Link(list, 0)
    && forall i | 0 <= i < |list| :: NodeLinked(h, list, i)
  }

  /** List nodes are far enough apart for their links not to overlap. */
  ghost predicate Spaced(list: seq<nat>)
  {
    forall i, j | 0 <= i < j < |list| :: Apart(list[i], list[j])
  }

  predicate Apart(x: nat, y: nat)
  {
    x + MIN_WORDS <= y || y + MIN_WORDS <= x
  }

  function Without(list: seq<nat>, k: nat): seq<nat>
    requires k < |list|
  {
    list[..k] + list[k + 1..]
  }

  /** Only link words of the nodes in `list` differ. */
  ghost predicate OnlyLinks(h: seq<nat>, h': seq<nat>, list: seq<nat>)
  {
    && |h'| == |h|
    && forall i {:trigger h'[i]} | 0 <= i < |h| && h'[i] != h[i] :: i - 1 in list || i - 2 in list
  }

  /** The heap after node x was put in front of the list. */
  ghost function WithNode(h: seq<nat>, list: seq<nat>, x: nat): (h': seq<nat>)
    requires Linked(h, Link(list, 0), list) && x + 2 < |h|
    ensures |h'| == |h|
  {
    var h1 := h[x + 1 := NULL][x + 2 := Link(list, 0)];
    if list == [] then h1 else assert NodeLinked(h, list, 0); h1[list[0] + 1 := Ptr(x)]
  }

  lemma AddLinks(h: seq<nat>, list: seq<nat>, x: nat)
    requires Linked(h, Link(list, 0), list) && x + 2 < |h| && Spaced([x] + list)
    ensures Linked(WithNode(h, list, x), Ptr(x), [x] + list)
    ensures OnlyLinks(h, WithNode(h, list, x), [x] + list)
  {
    var h', list' := WithNode(h, list, x), [x] + list;
    forall i | 0 <= i < |list'| ensures NodeLinked(h', list', i) {
      AddLinksAt(h, list, x, i);
    }
    assert x == list'[0] && x in list';
    if list != [] { assert NodeLinked(h, list, 0) && list[0] == list'[1] && list[0] in list'; }
  }

  lemma AddLinksAt(h: seq<nat>, list: seq<nat>, x: nat, i: nat)
    requires Linked(h, Link(list, 0), list) && x + 2 < |h| && Spaced([x] + list) && i <= |list|
    ensures NodeLinked(WithNode(h, list, x), [x] + list, i)
  {
    var h', list' := WithNode(h, list, x), [x] + list;
    if list != [] {
      assert NodeLinked(h, list, 0);
      assert Apart(list'[0], list'[1]) && list'[1] == list[0];
    }
    if i > 0 {
      assert NodeLinked(h, list, i - 1);
      assert list'[i] == list[i - 1] && Apart(list'[0], list'[i]);
      assert i > 1 ==> Apart(list'[1], list'[i]);
      assert Link(list', i - 1) == if i == 1 then Ptr(x) else Link(list, i - 2);
      assert Link(list', i + 1) == Link(list, i);
    }
  }

  /** The heap after the k-th node was taken off the list. */
  ghost function WithoutNode(h: seq<nat>, list: seq<nat>, k: nat): (h': seq<nat>)
    requires Linked(h, Link(list, 0), list) && k < |list|
    ensures |h'| == |h|
  {
    var h1 := if k > 0 then assert NodeLinked(h, list, k - 1); h[list[k - 1] + 2 := Link(list, k + 1)] else h;
    if k + 1 < |list| then assert NodeLinked(h, list, k + 1); h1[list[k + 1] + 1 := Link(list, k - 1)] else h1
  }

  lemma RemoveLinks(h: seq<nat>, list: seq<nat>, k: nat)
    requires Linked(h, Link(list, 0), list) && k < |list| && Spaced(list)
    ensures Linked(WithoutNode(h, list, k), Link(Without(list, k), 0), Without(list, k))
    ensures OnlyLinks(h, WithoutNode(h, list, k), list)
  {
    var h', list' := WithoutNode(h, list, k), Without(list, k);
    forall i | 0 <= i < |list'| ensures NodeLinked(h', list', i) {
      RemoveLinksAt(h, list, k, i);
    }
    if k > 0 { assert NodeLinked(h, list, k - 1) && list[k - 1] in list; }
    if k + 1 < |list| { assert NodeLinked(h, list, k + 1) && list[k + 1] in list; }
  }

  lemma RemoveLinksAt(h: seq<nat>, list: seq<nat>, k: nat, i: nat)
    requires Linked(h, Link(list, 0), list) && k < |list| && Spaced(list) && i < |list| - 1
    ensures NodeLinked(WithoutNode(h, list, k), Without(list, k), i)
  {
    hide Ptr, Spaced, Linked, WithoutNode;
    var j := if i < k then i else i + 1;
    LinkOfRest(list, k, i);
    WordsOfRest(h, list, k, j);
  }

  lemma LinkOfRest(list: seq<nat>, k: nat, i: nat)
    requires k < |list| && i < |list| - 1
    ensures var list', j := Without(list, k), if i < k then i else i + 1;
      && list'[i] == list[j]
      && Link(list', i - 1) == (if j == k + 1 then Link(list, k - 1) else Link(list, j - 1))
      && Link(list', i + 1) == (if j + 1 == k then Link(list, k + 1) else Link(list, j + 1))
  {
  }

  lemma WordsOfRest(h: seq<nat>, list: seq<nat>, k: nat, j: nat)
    requires Linked(h, Link(list, 0), list) && k < |list| && Spaced(list) && j < |list| && j != k
    ensures list[j] + 2 < |h|
    ensures var h' := WithoutNode(h, list, k);
      && h'[list[j] + 1] == (if j == k + 1 then Link(list, k - 1) else Link(list, j - 1))
      && h'[list[j] + 2] == (if j + 1 == k then Link(list, k + 1) else Link(list, j + 1))
  {
    hide Ptr;
    assert NodeLinked(h, list, j);
    assert k > 0 ==> NodeLinked(h, list, k - 1);
    assert k > 0 && j != k - 1 ==> Apart(list[k - 1], list[j]);
    assert k + 1 < |list| ==> NodeLinked(h, list, k + 1);
    assert k + 1 < |list| && j != k + 1 ==> Apart(list[k + 1], list[j]);
    hide Link, Linked, Spaced;
  }

  /** Stores a word; what lies outside the heap is somebody else's memory. */
  method Poke(mem: array<nat>, i: int, w: nat)
    modifies mem
    ensures mem[..] == if 0 <= i < mem.Length then old(mem[..])[i := w] else old(mem[..])
  {
    if 0 <= i < mem.Length {
      mem[i] := w;
    }
  }

  /** node is a place in the heap for a node in front of the list behind head. */
  ghost predicate OffList(h: seq<nat>, head: nat, node: nat, list: seq<nat>)
  {
    && HEAP_START <= node && node == Ptr(Idx(node)) && Idx(node) + 2 < |h|
    && Linked(h, head, list) && Spaced([Idx(node)] + list)
  }

  /** Links a node in front of the list. */
  method FreelistAddNode(mem: array<nat>, head: nat, node: nat, ghost list: seq<nat>) returns (head': nat)
    modifies mem
    ensures head' == node
    ensures old(OffList(mem[..], head, node, list)) ==>
      && mem[..] == WithNode(old(mem[..]), list, Idx(node))
      && Linked(mem[..], head', [Idx(node)] + list)
      && OnlyLinks(old(mem[..]), mem[..], [Idx(node)] + list)
  {
    var x := Idx(node);
    if OffList(mem[..], head, node, list) {
      AddLinks(mem[..], list, x);
      assert list != [] ==> NodeLinked(mem[..], list, 0);
    }
    if head == NULL {
      head' := node;
      Poke(mem, x + 1, NULL);
      Poke(mem, x + 2, NULL);
    } else {
      Poke(mem, x + 1, NULL);
      Poke(mem, x + 2, head);
      Poke(mem, Idx(head) + 1, node);
      head' := node;
    }
  }

  /** node is the k-th node of the list behind head. */
  ghost predicate OnList(h: seq<nat>, head: nat, node: nat, list: seq<nat>, k: nat)
  {
    k < |list| && node == Ptr(list[k]) && Linked(h, head, list) && Spaced(list)
  }

  /** Unlinks a node.  One that is on the list leaves it; in any case only the two words its links lead
      to change. */
  method FreelistRemoveNode(mem: array<nat>, head: nat, node: nat, ghost list: seq<nat>, ghost k: nat)
    returns (head': nat)
    requires OnList(mem[..], head, node, list, k)
      || (HEAP_START <= node && node == Ptr(Idx(node)) && Idx(node) + 2 < mem.Length)
    modifies mem
    ensures old(OnList(mem[..], head, node, list, k)) ==>
      && mem[..] == WithoutNode(old(mem[..]), list, k)
      && Linked(mem[..], head', Without(list, k))
      && OnlyLinks(old(mem[..]), mem[..], list)
    ensures 0 <= Idx(node) && Idx(node) + 2 < mem.Length
    ensures forall j | 0 <= j < mem.Length
      && j != Idx(old(mem[Idx(node) + 1])) + 2 && j != Idx(old(mem[Idx(node) + 2])) + 1 :: mem[j] == old(mem[j])
  {
    var x := Idx(node);
    if OnList(mem[..], head, node, list, k) {
      RemoveLinks(mem[..], list, k);
      assert NodeLinked(mem[..], list, k);
      assert k > 0 ==> NodeLinked(mem[..], list, k - 1);
      assert k + 1 < |list| ==> NodeLinked(mem[..], list, k + 1);
    }
    var prev, next := mem[x + 1], mem[x + 2];
    if prev != NULL {
      Poke(mem, Idx(prev) + 2, next);
    }
    if next != NULL {
      Poke(mem, Idx(next) + 1, prev);
    }
    head' := head;
    if node == head {
      head' := mem[x + 2];
    }
  }

  // ---------- the whole heap ----------

  ghost predicate NoDuplicates(list: seq<nat>)
  {
    forall i, j | 0 <= i < j < |list| :: list[i] != list[j]
  }

  /** The list holds exactly the chunks flagged free, each once. */
  ghost predicate ListsFree(m: Layout, list: seq<nat>)
  {
    && NoDuplicates(list)
    && (forall i | 0 <= i < |list| :: list[i] in m && m[list[i]].free)
    && (forall s | s in m && m[s].free :: 0 <= s && s in list)
  }

  ghost predicate WellFormed(h: seq<nat>, head: nat, m: Layout, list: seq<nat>)
  {
    Shape(m, |h|) && Tagged(h, m) && Linked(h, head, list) && ListsFree(m, list)
  }

  lemma ListIsSpaced(m: Layout, n: int, list: seq<nat>)
    requires Tiles(m, n) && NoDuplicates(list)
    requires forall i | 0 <= i < |list| :: list[i] in m
    ensures Spaced(list)
  {
  }

  lemma LinkedFrame(h: seq<nat>, h': seq<nat>, head: nat, list: seq<nat>)
    requires Linked(h, head, list) && |h'| == |h|
    requires forall i | 0 <= i < |list| && list[i] + 2 < |h| ::
               h'[list[i] + 1] == h[list[i] + 1] && h'[list[i] + 2] == h[list[i] + 2]
    ensures Linked(h', head, list)
  {
    forall i | 0 <= i < |list| ensures NodeLinked(h', list, i) {
      assert NodeLinked(h, list, i);
    }
  }

  /** Word k is a link of a chunk that is free, or of the chunk at x. */
  ghost predicate IsLink(m: Layout, x: int, k: int)
  {
    (k - 1 in m && (m[k - 1].free || k - 1 == x)) || (k - 2 in m && (m[k - 2].free || k - 2 == x))
  }

  /** Words written by freeing x into [lo, hi): headers, the footer and list links only. */
  ghost predicate FreeTouches(h: seq<nat>, h': seq<nat>, m: Layout, x: int, lo: int, hi: int)
  {
    && |h'| == |h|
    && forall k {:trigger h'[k]} | 0 <= k < |h| && h'[k] != h[k] ::
         k == lo || k == x || k == hi || k == hi - 1 || IsLink(m, x, k)
  }

  /** No payload word of a live block other than x changes. */
  ghost predicate PayloadKept(h: seq<nat>, h': seq<nat>, m: Layout, x: int)
  {
    && |h'| == |h|
    && forall s, k {:trigger m[s], h'[k]} | s in m && !m[s].free && s != x && s < k < Next(m, s) && 0 <= k < |h| ::
         h'[k] == h[k]
  }

  /** Inside a chunk off [lo, hi) only the header behind the freed chunk and list links change. */
  lemma FreeUntouched(h: seq<nat>, h': seq<nat>, m: Layout, x: int, lo: int, hi: int, s: int, k: int)
    requires Tiles(m, |h|) && lo in m && x in m && lo <= x < hi && FreeTouches(h, h', m, x, lo, hi)
    requires hi == |h| || hi in m
    requires s in m && (s < lo || hi <= s) && 0 <= s <= k < Next(m, s) && k != hi && k < |h|
    requires k == s || s + 2 < k || !m[s].free
    ensures h'[k] == h[k]
  {
  }

  lemma FreeKeepsPayload(h: seq<nat>, h': seq<nat>, m: Layout, x: int, lo: int)
    requires |h'| == |h| && Shape(m, |h|) && MergeStart(m, x, lo)
    requires FreeTouches(h, h', m, x, lo, MergeEnd(m, x))
    ensures PayloadKept(h, h', m, x)
  {
    hide FreeTouches, NoAdjacentFree;
    FreeShape(m, |h|, x, lo);
    forall s, k | s in m && !m[s].free && s != x && s < k < Next(m, s) && 0 <= k < |h| ensures h'[k] == h[k] {
      MergedAreFree(m, |h|, x, lo, s);
      FreeUntouched(h, h', m, x, lo, MergeEnd(m, x), s, k);
    }
  }

  /** Apart from x itself only free chunks are merged. */
  lemma MergedAreFree(m: Layout, n: int, x: int, lo: int, s: int)
    requires Shape(m, n) && MergeStart(m, x, lo) && s in m
    ensures lo <= s < MergeEnd(m, x) ==> s == x || m[s].free
  {
  }

  /** What kfree leaves at the ends of the merged chunk [lo, hi). */
  ghost predicate FreedEnds(h: seq<nat>, h': seq<nat>, lo: int, hi: int)
  {
    && |h'| == |h| && 0 <= lo < hi <= |h|
    && GetSz(h'[lo]) == 8 * (hi - lo) && IsFree(h'[lo]) && IsPrevFree(h'[lo]) == IsPrevFree(h[lo])
    && (hi < |h| ==>
          && h'[hi - 1] == 8 * (hi - lo)
          && GetSz(h'[hi]) == GetSz(h[hi]) && IsFree(h'[hi]) == IsFree(h[hi]) && IsPrevFree(h'[hi]))
  }

  lemma FreeTagged(h: seq<nat>, h': seq<nat>, m: Layout, x: int, lo: int)
    requires Shape(m, |h|) && Tagged(h, m) && MergeStart(m, x, lo)
    requires FreeTouches(h, h', m, x, lo, MergeEnd(m, x)) && FreedEnds(h, h', lo, MergeEnd(m, x))
    ensures Tagged(h', Merge(m, lo, MergeEnd(m, x)))
  {
    hide FreeTouches, Tiles, NoAdjacentFree, GetSz, IsFree, IsPrevFree;
    FreeShape(m, |h|, x, lo);
    var hi := MergeEnd(m, x);
    var m' := Merge(m, lo, hi);
    forall s | s in m' ensures HeaderOk(h', m', s) && BoundaryOk(h', m', s) {
      if s != lo { FreeTaggedAt(h, h', m, x, lo, s); }
    }
    if lo != 0 {
      OutsideNext(m, |h|, lo, hi, 0);
      FreeUntouched(h, h', m, x, lo, hi, 0, 0);
    }
  }

  lemma FreeTaggedAt(h: seq<nat>, h': seq<nat>, m: Layout, x: int, lo: int, s: int)
    requires Shape(m, |h|) && MergeStart(m, x, lo)
    requires FreeTouches(h, h', m, x, lo, MergeEnd(m, x)) && FreedEnds(h, h', lo, MergeEnd(m, x))
    requires s in m && HeaderOk(h, m, s) && BoundaryOk(h, m, s) && !(lo <= s < MergeEnd(m, x))
    ensures HeaderOk(h', Merge(m, lo, MergeEnd(m, x)), s)
    ensures BoundaryOk(h', Merge(m, lo, MergeEnd(m, x)), s)
  {
    hide FreeTouches, Tiles, NoAdjacentFree, GetSz, IsFree, IsPrevFree;
    FreeShape(m, |h|, x, lo);
    var hi := MergeEnd(m, x);
    var m' := Merge(m, lo, hi);
    var t := Next(m, s);
    OutsideNext(m, |h|, lo, hi, s);
    if s != hi { FreeUntouched(h, h', m, x, lo, hi, s, s); }
    if t in m' {
      if m[s].free { FreeUntouched(h, h', m, x, lo, hi, s, t - 1); }
      if t != lo {
        OutsideNext(m, |h|, lo, hi, t);
        FreeUntouched(h, h', m, x, lo, hi, t, t);
      }
    }
  }

  /** The right neighbour of a chunk off [lo, hi) is off it too, or is the chunk at lo. */
  lemma OutsideNext(m: Layout, n: int, lo: int, hi: int, s: int)
    requires Tiles(m, n) && lo in m && lo < hi && (hi == n || hi in m) && s in m && (s < lo || hi <= s)
    ensures 0 <= s && s + MIN_WORDS <= Next(m, s) <= n
    ensures if s < lo then Next(m, s) <= lo else hi < Next(m, s)
  {
  }

  /** Words written by carving need words from the free chunk at f. */
  ghost predicate AllocTouches(h: seq<nat>, h': seq<nat>, m: Layout, f: int, need: nat)
    requires f in m
  {
    && |h'| == |h|
    && forall k {:trigger h'[k]} | 0 <= k < |h| && h'[k] != h[k] ::
         f <= k <= Next(m, f) || IsLink(m, f, k)
  }

  lemma AllocUntouched(h: seq<nat>, h': seq<nat>, m: Layout, f: int, need: nat, s: int, k: int)
    requires Tiles(m, |h|) && f in m && AllocTouches(h, h', m, f, need)
    requires s in m && s != f && 0 <= s <= k < Next(m, s) && k != Next(m, f) && k < |h|
    requires k == s || s + 2 < k || !m[s].free
    ensures h'[k] == h[k]
  {
  }

  lemma AllocKeepsPayload(h: seq<nat>, h': seq<nat>, m: Layout, f: int, need: nat)
    requires |h'| == |h| && Tiles(m, |h|) && f in m && m[f].free && AllocTouches(h, h', m, f, need)
    ensures PayloadKept(h, h', m, f)
  {
    hide AllocTouches;
    forall s, k | s in m && !m[s].free && s != f && s < k < Next(m, s) && 0 <= k < |h| ensures h'[k] == h[k] {
      AllocUntouched(h, h', m, f, need, s, k);
    }
  }

  /** What kmalloc leaves at the ends of the carved chunk. */
  ghost predicate CarvedEnds(h: seq<nat>, h': seq<nat>, f: int, need: nat, end: int)
  {
    && |h'| == |h| && 0 <= f < f + need <= end <= |h|
    && GetSz(h'[f]) == 8 * need && !IsFree(h'[f]) && IsPrevFree(h'[f]) == IsPrevFree(h[f])
    && (f + need == end < |h| ==>
          GetSz(h'[end]) == GetSz(h[end]) && IsFree(h'[end]) == IsFree(h[end]) && !IsPrevFree(h'[end]))
    && (f + need < end ==>
          && GetSz(h'[f + need]) == 8 * (end - (f + need)) && IsFree(h'[f + need]) && !IsPrevFree(h'[f + need])
          && h'[end - 1] == 8 * (end - (f + need))
          && (end < |h| ==> h'[end] == h[end]))
  }

  lemma AllocTagged(h: seq<nat>, h': seq<nat>, m: Layout, f: int, need: nat)
    requires Shape(m, |h|) && Tagged(h, m)
    requires f in m && m[f].free && Fits(m[f].size, need) && MIN_WORDS <= need
    requires AllocTouches(h, h', m, f, need) && CarvedEnds(h, h', f, need, Next(m, f))
    ensures Tagged(h', Allocate(m, f, need))
  {
    hide AllocTouches, Tiles, NoAdjacentFree, GetSz, IsFree, IsPrevFree;
    var m' := Allocate(m, f, need);
    var end := Next(m, f);
    assert HeaderOk(h, m, f) && BoundaryOk(h, m, f);
    forall s | s in m' ensures HeaderOk(h', m', s) && BoundaryOk(h', m', s) {
      ChunkFacts(m, |h|, f, f);
      if s == f {
      } else if s == f + need && f + need < end {
      } else {
        AllocTaggedAt(h, h', m, f, need, s);
      }
    }
    if f != 0 {
      ChunkFacts(m, |h|, f, 0);
      AllocUntouched(h, h', m, f, need, 0, 0);
    }
  }

  lemma AllocTaggedAt(h: seq<nat>, h': seq<nat>, m: Layout, f: int, need: nat, s: int)
    requires Shape(m, |h|) && s in m && HeaderOk(h, m, s) && BoundaryOk(h, m, s) && s != f
    requires f in m && m[f].free && Fits(m[f].size, need) && MIN_WORDS <= need
    requires AllocTouches(h, h', m, f, need) && CarvedEnds(h, h', f, need, Next(m, f))
    ensures s in Allocate(m, f, need) && Allocate(m, f, need)[s] == m[s]
    ensures HeaderOk(h', Allocate(m, f, need), s)
    ensures BoundaryOk(h', Allocate(m, f, need), s)
  {
    hide AllocTouches, Tiles, NoAdjacentFree, GetSz, IsFree, IsPrevFree;
    var m' := Allocate(m, f, need);
    var end := Next(m, f);
    var t := Next(m, s);
    ChunkFacts(m, |h|, f, s);
    if s != end { AllocUntouched(h, h', m, f, need, s, s); }
    if t in m {
      if m[s].free { AllocUntouched(h, h', m, f, need, s, t - 1); }
      ChunkFacts(m, |h|, f, t);
      if t != f { AllocUntouched(h, h', m, f, need, t, t); }
    }
  }

  lemma ChunkFacts(m: Layout, n: int, f: int, s: int)
    requires Tiles(m, n) && f in m && s in m
    ensures 0 <= s && s + MIN_WORDS <= Next(m, s) <= n
    ensures Next(m, s) == n || Next(m, s) in m
    ensures s < f ==> Next(m, s) <= f
    ensures s > f ==> Next(m, f) <= s
    ensures f < f + MIN_WORDS <= Next(m, f) <= n
  {
  }

  // ---------- the list of free chunks ----------

  lemma ListAfterRemove(m: Layout, m': Layout, list: seq<nat>, k: nat)
    requires ListsFree(m, list) && k < |list|
    requires forall s | s in m && m[s].free && s != list[k] :: s in m' && m'[s].free
    requires forall s | s in m' && m'[s].free :: s in m && m[s].free && s != list[k]
    ensures ListsFree(m', Without(list, k))
  {
    var list' := Without(list, k);
    forall i | 0 <= i < |list'| ensures list'[i] == list[if i < k then i else i + 1] {}
    forall s | s in m' && m'[s].free ensures 0 <= s && s in list' {
      var i :| 0 <= i < |list| && list[i] == s;
      assert list'[if i < k then i else i - 1] == s;
    }
  }

  lemma ListAfterAdd(m: Layout, m': Layout, list: seq<nat>, x: nat)
    requires ListsFree(m, list) && !(x in m && m[x].free)
    requires x in m' && m'[x].free
    requires forall s | s in m && m[s].free :: s in m' && m'[s].free
    requires forall s | s in m' && m'[s].free && s != x :: s in m && m[s].free
    ensures ListsFree(m', [x] + list)
  {
    var list' := [x] + list;
    assert list'[0] == x;
    forall s | s in m' && m'[s].free && s != x ensures 0 <= s && s in list' {
      var i :| 0 <= i < |list| && list[i] == s;
      assert list'[i + 1] == s;
    }
  }
}
