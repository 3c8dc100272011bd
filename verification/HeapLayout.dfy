/** The shape of the kernel heap (kernel/memory/kmalloc.c), free of memory words.

    Addresses and sizes are counted in 8-byte words from HEAP_START, so every chunk start and
    every chunk size is a multiple of HEAP_ALIGNMENT by construction.  A layout maps the start of
    each chunk to its size and its free flag. */
module HeapLayout {

  /** FREE_CHUNK_MIN_SZ: a free_node_t and a free_footer_t, 32 bytes. */
  const MIN_WORDS: nat := 4

  datatype Chunk = Chunk(size: nat, free: bool)

  type Layout = map<int, Chunk>

  /** Where the chunk at s ends. */
  function Next(m: Layout, s: int): int
    requires s in m
  {
    s + m[s].size
  }

  /** The chunks tile the words [0, n): the first starts at 0, each ends where another starts or
      at n, and no two overlap. */
  ghost predicate Tiles(m: Layout, n: int)
  {
    && 0 in m
    && (forall s | s in m :: 0 <= s && MIN_WORDS <= m[s].size)
    && (forall s {:trigger Next(m, s)} | s in m :: Next(m, s) <= n && (Next(m, s) == n || Next(m, s) in m))
    && (forall s, t | s in m && t in m && s < t :: s + m[s].size <= t)
  }

  ghost predicate NoAdjacentFree(m: Layout)
  {
    forall s {:trigger Next(m, s)} | s in m && m[s].free && Next(m, s) in m :: !m[Next(m, s)].free
  }

  ghost predicate Shape(m: Layout, n: int)
  {
    Tiles(m, n) && NoAdjacentFree(m)
  }

  /** The whole heap as one free chunk, as kmalloc_init leaves it. */
  function InitialLayout(n: nat): Layout
  {
    map[0 := Chunk(n, true)]
  }

  /** size_t is 64 bits wide. */
  const SIZE_LIMIT: nat := 0x1_0000_0000_0000_0000

  /** Size in words of the chunk that kmalloc(sz) asks for: a header word in front, rounded up to
      the alignment and to the smallest chunk.  Both additions wrap, so the block holds sz bytes
      exactly when they do not. */
  function Need(sz: nat): (r: nat)
    requires sz < SIZE_LIMIT
    ensures MIN_WORDS <= r
    ensures sz <= 8 * (r - 1) <==> sz + 15 < SIZE_LIMIT
    ensures sz + 15 < SIZE_LIMIT ==> r == MIN_WORDS || 8 * (r - 2) < sz
  {
    var w := ((sz + 8) % SIZE_LIMIT + 7) % SIZE_LIMIT / 8;
    if w < MIN_WORDS then MIN_WORDS else w
  }

  /** An exact fit, or room for a remainder that is itself a chunk. */
  predicate Fits(size: nat, need: nat)
  {
    size == need || size >= need + MIN_WORDS
  }

  /** The search condition: the same, with the sum taken in 64 bits. */
  predicate Accepts(size: nat, need: nat)
  {
    size == need || 8 * size >= (8 * need + 32) % SIZE_LIMIT
  }

  /** Requests for which that sum wraps around. */
  predicate Overlong(sz: nat)
    requires sz < SIZE_LIMIT
  {
    8 * Need(sz) + 32 >= SIZE_LIMIT
  }

  lemma OverlongExactly(sz: nat)
    requires sz < SIZE_LIMIT
    ensures Overlong(sz) <==> SIZE_LIMIT - 47 <= sz <= SIZE_LIMIT - 16
    ensures Overlong(sz) ==> SIZE_LIMIT - 32 <= 8 * Need(sz) < SIZE_LIMIT
  {
  }

  /** One of them: neither the header nor the alignment wraps, and the bound becomes 0. */
  lemma OverlongRequest()
    ensures var sz := SIZE_LIMIT - 40;
      sz + 15 < SIZE_LIMIT && Overlong(sz) && 8 * Need(sz) == SIZE_LIMIT - 32 && Accepts(MIN_WORDS, Need(sz))
  {
  }

  /** The search does what it should for every other request; for these it takes any chunk at all. */
  lemma AcceptsExactly(size: nat, sz: nat)
    requires sz < SIZE_LIMIT && MIN_WORDS <= size
    ensures Overlong(sz) ==> Accepts(size, Need(sz))
    ensures !Overlong(sz) ==> (Accepts(size, Need(sz)) <==> Fits(size, Need(sz)))
  {
    OverlongExactly(sz);
    hide Need;
    if Overlong(sz) {
      assert (8 * Need(sz) + 32) % SIZE_LIMIT == 8 * Need(sz) + 32 - SIZE_LIMIT;
    }
  }

  /** The chunk at f is allocated; what is left over becomes a free chunk behind it. */
  function Allocate(m: Layout, f: int, need: nat): Layout
    requires f in m
  {
    if m[f].size <= need then m[f := Chunk(need, false)]
    else m[f := Chunk(need, false)][f + need := Chunk(m[f].size - need, true)]
  }

  /** The words [lo, hi) become one free chunk. */
  function Merge(m: Layout, lo: int, hi: int): Layout
    requires lo <= hi
  {
    (map s | s in m && !(lo <= s < hi) :: m[s])[lo := Chunk(hi - lo, true)]
  }

  /** End of the free chunk that results from freeing x: past the right neighbour if it is free. */
  function MergeEnd(m: Layout, x: int): (hi: int)
    requires x in m
    ensures Next(m, x) <= hi
  {
    var next := Next(m, x);
    if next in m && m[next].free then Next(m, next) else next
  }

  /** lo is where the free chunk that results from freeing x starts: at x, or at the chunk to
      its left if that one is free. */
  ghost predicate MergeStart(m: Layout, x: int, lo: int)
  {
    && x in m && lo in m
    && if lo == x then forall p | p in m && Next(m, p) == x :: !m[p].free
       else m[lo].free && Next(m, lo) == x
  }

  /** Every chunk but the first has a left neighbour. */
  lemma {:induction false} LeftNeighbour(m: Layout, n: int, x: int, from: int) returns (p: int)
    requires Tiles(m, n) && x in m && from in m && from < x
    ensures p in m && Next(m, p) == x
    decreases x - from
  {
    var next := Next(m, from);
    assert Next(m, x) <= n;
    if next == x {
      p := from;
    } else {
      assert next <= x;
      p := LeftNeighbour(m, n, x, next);
    }
  }

  lemma LeftNeighbourUnique(m: Layout, n: int, p: int, q: int)
    requires Tiles(m, n) && p in m && q in m
    requires Next(m, p) == Next(m, q)
    ensures p == q
  {
  }

  lemma InitialShape(n: nat)
    requires MIN_WORDS <= n
    ensures Shape(InitialLayout(n), n)
  {
  }

  lemma AllocateTiles(m: Layout, n: int, f: int, need: nat)
    requires Tiles(m, n) && f in m && Fits(m[f].size, need) && MIN_WORDS <= need
    ensures Tiles(Allocate(m, f, need), n)
  {
    var m' := Allocate(m, f, need);
    assert Next(m, f) <= n;
    forall s | s in m' ensures Next(m', s) <= n && (Next(m', s) == n || Next(m', s) in m') {
      if s in m && s != f { assert Next(m, s) == Next(m', s); }
    }
    AllocateApart(m, n, f, need);
  }

  lemma AllocateApart(m: Layout, n: int, f: int, need: nat)
    requires Tiles(m, n) && f in m && Fits(m[f].size, need) && MIN_WORDS <= need
    ensures var m' := Allocate(m, f, need); forall s, t | s in m' && t in m' && s < t :: s + m'[s].size <= t
  {
    var m' := Allocate(m, f, need);
    forall s, t | s in m' && t in m' && s < t ensures s + m'[s].size <= t {
      if s in m {
        if t in m { assert s + m[s].size <= t; } else { assert t == f + need; }
      } else {
        assert s == f + need && f < t;
      }
    }
  }

  lemma AllocateNoAdjacentFree(m: Layout, n: int, f: int, need: nat)
    requires Shape(m, n) && f in m && m[f].free && Fits(m[f].size, need) && MIN_WORDS <= need
    ensures NoAdjacentFree(Allocate(m, f, need))
  {
    var m' := Allocate(m, f, need);
    forall s | s in m' && m'[s].free && Next(m', s) in m' ensures !m'[Next(m', s)].free {
      if s == f + need {
        assert Next(m, f) == Next(m', s);
      } else {
        assert s in m && Next(m, s) == Next(m', s);
      }
    }
  }

  lemma MergeTiles(m: Layout, n: int, lo: int, hi: int)
    requires Tiles(m, n) && lo in m && lo + MIN_WORDS <= hi && (hi == n || hi in m)
    ensures Tiles(Merge(m, lo, hi), n)
  {
    var m' := Merge(m, lo, hi);
    forall s | s in m' ensures Next(m', s) <= n && (Next(m', s) == n || Next(m', s) in m') {
      MergeNext(m, n, lo, hi, s);
    }
    MergeApart(m, n, lo, hi);
  }

  lemma MergeNext(m: Layout, n: int, lo: int, hi: int, s: int)
    requires Tiles(m, n) && lo in m && lo + MIN_WORDS <= hi && (hi == n || hi in m)
    requires s in Merge(m, lo, hi)
    ensures var m' := Merge(m, lo, hi); Next(m', s) <= n && (Next(m', s) == n || Next(m', s) in m')
  {
    if s == lo {
      assert hi in m ==> Next(m, hi) <= n;
    } else {
      assert s in m && Next(m, s) == Next(Merge(m, lo, hi), s);
    }
  }

  lemma MergeApart(m: Layout, n: int, lo: int, hi: int)
    requires Tiles(m, n) && lo in m && lo + MIN_WORDS <= hi && (hi == n || hi in m)
    ensures var m' := Merge(m, lo, hi); forall s, t | s in m' && t in m' && s < t :: s + m'[s].size <= t
  {
    var m' := Merge(m, lo, hi);
    forall s, t | s in m' && t in m' && s < t ensures s + m'[s].size <= t {
      assert s in m && t in m;
      if s != lo { assert m'[s] == m[s]; }
    }
  }

  lemma MergeNoAdjacentFree(m: Layout, n: int, x: int, lo: int)
    requires Shape(m, n) && x in m && MergeStart(m, x, lo)
    ensures NoAdjacentFree(Merge(m, lo, MergeEnd(m, x)))
  {
    var hi := MergeEnd(m, x);
    var m' := Merge(m, lo, hi);
    forall s | s in m' && m'[s].free && Next(m', s) in m' ensures !m'[Next(m', s)].free {
      if s == lo {
        assert Next(m', lo) == hi;
        if hi != Next(m, x) { assert Next(m, Next(m, x)) == hi; }
      } else {
        assert s in m && Next(m, s) == Next(m', s);
      }
    }
  }

  /** Freeing x leaves a well-formed heap, whichever neighbours it is joined with. */
  lemma FreeShape(m: Layout, n: int, x: int, lo: int)
    requires Shape(m, n) && x in m && MergeStart(m, x, lo)
    ensures 0 <= lo <= x < MergeEnd(m, x) <= n
    ensures lo + MIN_WORDS <= MergeEnd(m, x)
    ensures MergeEnd(m, x) == n || MergeEnd(m, x) in m
    ensures Shape(Merge(m, lo, MergeEnd(m, x)), n)
  {
    var next := Next(m, x);
    assert next <= n;
    if next in m { assert Next(m, next) <= n; }
    MergeTiles(m, n, lo, MergeEnd(m, x));
    MergeNoAdjacentFree(m, n, x, lo);
  }

  /** Allocating from the free chunk at f leaves a well-formed heap. */
  lemma AllocateShape(m: Layout, n: int, f: int, need: nat)
    requires Shape(m, n) && f in m && m[f].free && Fits(m[f].size, need) && MIN_WORDS <= need
    ensures Shape(Allocate(m, f, need), n)
  {
    AllocateTiles(m, n, f, need);
    AllocateNoAdjacentFree(m, n, f, need);
  }

  /** kfree undoes kmalloc: freeing a block right after it was allocated gives back the layout
      from before, remainder joined again. */
  lemma FreeUndoesAllocate(m: Layout, n: int, f: int, need: nat, lo: int)
    requires Shape(m, n) && f in m && m[f].free && Fits(m[f].size, need) && MIN_WORDS <= need
    requires MergeStart(Allocate(m, f, need), f, lo)
    ensures lo == f && Merge(Allocate(m, f, need), lo, MergeEnd(Allocate(m, f, need), f)) == m
  {
    var m' := Allocate(m, f, need);
    if lo in m && lo != f && Next(m, lo) == f { NoFreeLeft(m, n, f, lo); }
    AllocatedEnd(m, n, f, need);
    MergedBack(m, n, f, need);
    assert lo == f;
  }

  lemma AllocatedEnd(m: Layout, n: int, f: int, need: nat)
    requires Shape(m, n) && f in m && m[f].free && Fits(m[f].size, need) && MIN_WORDS <= need
    ensures f in Allocate(m, f, need) && MergeEnd(Allocate(m, f, need), f) == Next(m, f)
  {
    var m' := Allocate(m, f, need);
    if m[f].size > need {
      assert Next(m', f) == f + need && Next(m', f + need) == Next(m, f);
    } else {
      assert Next(m', f) == Next(m, f);
    }
  }

  lemma MergedBack(m: Layout, n: int, f: int, need: nat)
    requires Shape(m, n) && f in m && m[f].free && Fits(m[f].size, need) && MIN_WORDS <= need
    ensures Merge(Allocate(m, f, need), f, Next(m, f)) == m
  {
    var back := Merge(Allocate(m, f, need), f, Next(m, f));
    assert back.Keys == m.Keys;
  }

  lemma NoFreeLeft(m: Layout, n: int, f: int, p: int)
    requires Shape(m, n) && f in m && m[f].free && p in m && p != f && Next(m, p) == f
    ensures !m[p].free
  {
  }

  // ---------- conservation ----------

  /** Words in the chunks from s on whose free flag is `free`. */
  ghost function Words(m: Layout, n: int, s: int, free: bool): nat
    requires Tiles(m, n) && (s == n || s in m)
    decreases n - s
  {
    if s == n then 0
    else (if m[s].free == free then m[s].size else 0) + Words(m, n, Next(m, s), free)
  }

  lemma {:induction false} Conservation(m: Layout, n: int, s: int)
    requires Tiles(m, n) && (s == n || s in m)
    ensures Words(m, n, s, true) + Words(m, n, s, false) == n - s
    decreases n - s
  {
    if s != n { Conservation(m, n, Next(m, s)); }
  }

  lemma {:induction false} WordsAgree(m: Layout, m': Layout, n: int, s: int, free: bool)
    requires Tiles(m, n) && Tiles(m', n) && (s == n || s in m) && (s == n || s in m')
    requires forall t | t in m && s <= t :: t in m' && m'[t] == m[t]
    ensures Words(m', n, s, free) == Words(m, n, s, free)
    decreases n - s
  {
    if s != n { WordsAgree(m, m', n, Next(m, s), free); }
  }

  /** m' is m with need words carved from the front of the free chunk at f. */
  ghost predicate Carved(m: Layout, m': Layout, f: int, need: nat)
  {
    && f in m && m[f].free && f in m' && m'[f] == Chunk(need, false)
    && (m[f].size == need || (need < m[f].size && f + need in m' && m'[f + need] == Chunk(m[f].size - need, true)))
    && (forall t | t in m && t != f :: t in m' && m'[t] == m[t])
  }

  lemma {:induction false} CarvedWords(m: Layout, m': Layout, n: int, f: int, need: nat, s: int)
    requires Tiles(m, n) && Tiles(m', n) && Carved(m, m', f, need)
    requires s in m && s in m' && s <= f
    ensures Words(m', n, s, false) == Words(m, n, s, false) + need
    decreases n - s
  {
    if s < f {
      assert s + m[s].size <= f && Next(m, f) <= n;
      assert Next(m', s) == Next(m, s);
      CarvedWords(m, m', n, f, need, Next(m, s));
    } else {
      CarvedWordsHere(m, m', n, f, need);
    }
  }

  lemma CarvedWordsHere(m: Layout, m': Layout, n: int, f: int, need: nat)
    requires Tiles(m, n) && Tiles(m', n) && Carved(m, m', f, need)
    ensures Words(m', n, f, false) == Words(m, n, f, false) + need
  {
    var next := Next(m, f);
    WordsAgree(m, m', n, next, false);
    WordsUnfold(m, n, f);
    WordsUnfold(m', n, f);
    if m[f].size != need {
      assert Next(m', f + need) == next;
      WordsUnfold(m', n, f + need);
    }
    hide Words, Tiles;
  }

  lemma WordsUnfold(m: Layout, n: int, s: int)
    requires Tiles(m, n) && s in m
    ensures Next(m, s) == n || Next(m, s) in m
    ensures Words(m, n, s, false) == (if m[s].free then 0 else m[s].size) + Words(m, n, Next(m, s), false)
  {
  }

  /** kmalloc moves exactly the words it hands out from the free side to the used side. */
  lemma AllocateWords(m: Layout, n: int, f: int, need: nat)
    requires Shape(m, n) && f in m && m[f].free && Fits(m[f].size, need) && MIN_WORDS <= need
    ensures Tiles(Allocate(m, f, need), n)
    ensures Words(Allocate(m, f, need), n, 0, false) == Words(m, n, 0, false) + need
  {
    AllocateTiles(m, n, f, need);
    AllocateCarves(m, n, f, need);
    CarvedWords(m, Allocate(m, f, need), n, f, need, 0);
  }

  lemma AllocateCarves(m: Layout, n: int, f: int, need: nat)
    requires Tiles(m, n) && f in m && m[f].free && Fits(m[f].size, need) && MIN_WORDS <= need
    ensures Carved(m, Allocate(m, f, need), f, need)
  {
    if m[f].size > need {
      assert f + need !in m;
    }
  }

  /** kfree moves exactly the freed words back. */
  lemma {:induction false} MergeWords(m: Layout, n: int, lo: int, hi: int, s: int)
    requires Tiles(m, n) && lo in m && lo + MIN_WORDS <= hi && (hi == n || hi in m)
    requires s in m && s <= lo
    ensures Tiles(Merge(m, lo, hi), n) && s in Merge(m, lo, hi)
    ensures Words(Merge(m, lo, hi), n, s, false) + Words(m, n, lo, false)
         == Words(m, n, s, false) + Words(m, n, hi, false)
    decreases n - s
  {
    var m' := Merge(m, lo, hi);
    MergeTiles(m, n, lo, hi);
    if s < lo {
      assert s + m[s].size <= lo;
      assert Next(m, lo) <= n;
      assert Next(m', s) == Next(m, s);
      MergeWords(m, n, lo, hi, Next(m, s));
    } else {
      WordsAgree(m, m', n, hi, false);
      assert Next(m', lo) == hi;
    }
  }

  lemma FreeWords(m: Layout, n: int, x: int, lo: int)
    requires Shape(m, n) && x in m && !m[x].free && MergeStart(m, x, lo)
    ensures Shape(Merge(m, lo, MergeEnd(m, x)), n)
    ensures Words(Merge(m, lo, MergeEnd(m, x)), n, 0, false) + m[x].size == Words(m, n, 0, false)
  {
    var hi := MergeEnd(m, x);
    FreeShape(m, n, x, lo);
    MergeWords(m, n, lo, hi, 0);
    var next := Next(m, x);
    assert next == n || next in m;
    assert Words(m, n, x, false) == m[x].size + Words(m, n, next, false);
    assert Words(m, n, next, false) == Words(m, n, hi, false) by {
      if hi != next { assert hi == Next(m, next) && m[next].free; }
    }
    assert Words(m, n, lo, false) == Words(m, n, x, false) by {
      if lo != x { assert Next(m, lo) == x && m[lo].free; }
    }
  }

  lemma {:induction false} NothingUsed(m: Layout, n: int, s: int, t: int)
    requires Tiles(m, n) && s in m && Words(m, n, s, false) == 0
    requires t in m && s <= t
    ensures m[t].free && t < n
    decreases n - s
  {
    assert Next(m, t) <= n;
    if s < t {
      assert s + m[s].size <= t;
      NothingUsed(m, n, Next(m, s), t);
    }
  }

  /** With no live block left, the heap is one free chunk again. */
  lemma FullyCoalesced(m: Layout, n: int)
    requires Shape(m, n) && Words(m, n, 0, false) == 0
    ensures m == InitialLayout(n)
  {
    forall t | t in m ensures m[t].free && t < n { NothingUsed(m, n, 0, t); }
    AllFree(m, n);
  }

  lemma AllFree(m: Layout, n: nat)
    requires Shape(m, n) && forall t | t in m :: m[t].free
    ensures m == InitialLayout(n)
  {
    assert Next(m, 0) == n;
    forall t | t in m ensures t == 0 {
      assert Next(m, t) <= n;
    }
  }

  // ---------- runs ----------

  datatype Op = Malloc(f: int, need: nat) | Free(x: int, lo: int)

  /** A call of kmalloc or kfree that returns. */
  ghost predicate Enabled(m: Layout, op: Op)
  {
    match op
    case Malloc(f, need) => f in m && m[f].free && Fits(m[f].size, need) && MIN_WORDS <= need
    case Free(x, lo) => x in m && !m[x].free && MergeStart(m, x, lo)
  }

  ghost function Apply(m: Layout, op: Op): Layout
    requires Enabled(m, op)
  {
    match op
    case Malloc(f, need) => Allocate(m, f, need)
    case Free(x, lo) =>
      Merge(m, lo, MergeEnd(m, x))
  }

  /** Words that one call moves from the free side to the used side. */
  ghost function Moved(m: Layout, op: Op): int
    requires Enabled(m, op)
  {
    if op.Malloc? then op.need else -(m[op.x].size as int)
  }

  /** Words handed out minus words given back over a run. */
  ghost function Balance(n: nat, ops: seq<Op>, ms: seq<Layout>): int
    requires IsRun(n, ops, ms)
    decreases |ops|
  {
    if ops == [] then 0
    else
      var k := |ops| - 1;
      Balance(n, ops[..k], ms[..k + 1]) +
      Moved(ms[k], ops[k])
  }

  ghost predicate IsRun(n: nat, ops: seq<Op>, ms: seq<Layout>)
  {
    && |ms| == |ops| + 1
    && ms[0] == InitialLayout(n)
    && forall i | 0 <= i < |ops| :: Enabled(ms[i], ops[i]) && ms[i + 1] == Apply(ms[i], ops[i])
  }

  /** Every run of kmalloc and kfree keeps the heap well formed and conserves its words: the live
      chunks hold exactly what was handed out and not yet given back, the free chunks the rest. */
  lemma {:induction false} RunsAreSafe(n: nat, ops: seq<Op>, ms: seq<Layout>)
    requires MIN_WORDS <= n && IsRun(n, ops, ms)
    ensures Shape(ms[|ops|], n)
    ensures Words(ms[|ops|], n, 0, false) == Balance(n, ops, ms)
    ensures Words(ms[|ops|], n, 0, true) == n - Balance(n, ops, ms)
    decreases |ops|
  {
    hide Tiles, NoAdjacentFree, Enabled, Apply, Moved;
    if ops == [] {
      InitialRun(n);
    } else {
      var k := |ops| - 1;
      RunsAreSafe(n, ops[..k], ms[..k + 1]);
      StepIsSafe(n, ms[k], ops[k]);
    }
    FreeSide(ms[|ops|], n);
  }

  lemma FreeSide(m: Layout, n: int)
    requires Shape(m, n)
    ensures Words(m, n, 0, true) == n - Words(m, n, 0, false)
  {
    Conservation(m, n, 0);
  }

  lemma InitialRun(n: nat)
    requires MIN_WORDS <= n
    ensures Shape(InitialLayout(n), n) && Words(InitialLayout(n), n, 0, false) == 0
  {
    InitialShape(n);
    assert Next(InitialLayout(n), 0) == n;
  }

  lemma StepIsSafe(n: nat, m: Layout, op: Op)
    requires Shape(m, n) && Enabled(m, op)
    ensures Shape(Apply(m, op), n)
    ensures Words(Apply(m, op), n, 0, false) == Words(m, n, 0, false) + Moved(m, op)
  {
    match op
    case Malloc(f, need) =>
      AllocateShape(m, n, f, need);
      AllocateWords(m, n, f, need);
    case Free(x, lo) =>
      FreeWords(m, n, x, lo);
      FreeShape(m, n, x, lo);
  }

  /** Once everything handed out was given back, in whatever order, the heap is a single free
      chunk of the full size. */
  lemma AllFreedIsOneChunk(n: nat, ops: seq<Op>, ms: seq<Layout>)
    requires MIN_WORDS <= n && IsRun(n, ops, ms)
    ensures Balance(n, ops, ms) == 0 <==> ms[|ops|] == InitialLayout(n)
  {
    RunsAreSafe(n, ops, ms);
    if Balance(n, ops, ms) == 0 { FullyCoalesced(ms[|ops|], n); }
    if ms[|ops|] == InitialLayout(n) {
      assert Next(InitialLayout(n), 0) == n;
    }
  }
}
