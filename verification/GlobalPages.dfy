/**
 * Which loads of CR3 are safe (kernel/memory/paging.c), in terms of the tables.
 *
 * A translation marked global survives a load.  What the TLB holds at a load is
 * up to the processor, so a load is safe when no TLB it may have can hold a
 * translation that the new tables do not have.
 */
module GlobalPages {
  import opened Wrappers
  import opened PageTables
  import opened Mmu

  ghost predicate IsGlobal(entry: Option<nat>)
  {
    entry.Some? && Global(entry.value)
  }

  /** Each page that the tables at a map as global has the same entry in those at b. */
  ghost predicate SharesGlobals(mem: Memory, a: nat, b: nat)
  {
    forall p: nat | p < PAGE_LIMIT && IsGlobal(Walk(mem, a, p)) :: Walk(mem, b, p) == Walk(mem, a, p)
  }

  /** Every TLB that is coherent with the tables at a stays so when b is loaded if and only if a shares its
      global pages with b. */
  lemma LoadKeepsExactly(mem: Memory, tree: Tree, a: nat, b: nat)
    requires Root(a) in tree && Root(b) in tree
    ensures (forall tlb | Coherent(mem, tree, a, tlb) :: Coherent(mem, tree, b, OnlyGlobals(tlb)))
      <==> SharesGlobals(mem, a, b)
  {
    hide Walk, Global;
    if SharesGlobals(mem, a, b) {
      forall tlb | Coherent(mem, tree, a, tlb) ensures Coherent(mem, tree, b, OnlyGlobals(tlb)) {
        LoadIsSafe(mem, tree, a, b, tlb);
      }
    } else {
      var p: nat :| p < PAGE_LIMIT && IsGlobal(Walk(mem, a, p)) && Walk(mem, b, p) != Walk(mem, a, p);
      var tlb := map[p := Walk(mem, a, p).value];
      assert Coherent(mem, tree, a, tlb);
      assert p in OnlyGlobals(tlb) && OnlyGlobals(tlb)[p] == tlb[p];
      assert !Coherent(mem, tree, b, OnlyGlobals(tlb));
    }
  }

  lemma LoadIsSafe(mem: Memory, tree: Tree, a: nat, b: nat, tlb: map<nat, nat>)
    requires Root(a) in tree && SharesGlobals(mem, a, b) && Coherent(mem, tree, a, tlb)
    ensures GlobalsAgree(mem, b, tlb) && Coherent(mem, tree, b, OnlyGlobals(tlb))
  {
    hide Walk, Global;
    forall p | p in tlb && Global(tlb[p]) ensures p < PAGE_LIMIT && Walk(mem, b, p) == Some(tlb[p]) {
      assert Walk(mem, a, p) == Some(tlb[p]) && IsGlobal(Walk(mem, a, p));
    }
  }

  // ---------- whole runs ----------

  /** The root loaded last. */
  function RootAfter(cr3: nat, ops: seq<Op>): nat
  {
    if ops == [] then cr3 else ops[|ops| - 1].RootThen(RootAfter(cr3, ops[..|ops| - 1]))
  }

  /** After the steps `done`, a page is global where it is loaded and differs in the tables at root. */
  ghost predicate Clashes(mem: Memory, cr3: nat, done: seq<Op>, root: nat, p: nat)
    requires p < PAGE_LIMIT
  {
    var entry := Expected(mem, done, RootAfter(cr3, done), p);
    IsGlobal(entry) && Expected(mem, done, root, p) != entry
  }

  /** No load of the run finds a global page that the tables to be loaded do not have: a condition on the steps
      and the tables at the start. */
  ghost predicate LoadsShare(mem: Memory, cr3: nat, ops: seq<Op>)
  {
    forall i, p: nat | 0 <= i < |ops| && ops[i].LoadOp? && p < PAGE_LIMIT ::
      !Clashes(mem, cr3, ops[..i], ops[i].root, p)
  }

  ghost predicate Starts(history: seq<Snapshot>, ops: seq<Op>)
  {
    && IsHistory(history, ops) && history[0].IsCoherent() && Root(history[0].cr3) in history[0].tree
    && forall i | 0 <= i < |ops| :: ops[i].Allowed(history[0].tree)
  }

  /** The tables and the root at any point of a run are those its steps make. */
  lemma {:induction false} RunIsFlat(history: seq<Snapshot>, ops: seq<Op>, n: nat)
    requires IsHistory(history, ops) && n <= |ops|
    ensures Flat(history[0].mem, history[0].tree, history[n].mem, ops[..n])
    ensures SameSpaces(history[0].tree, history[n].tree)
    ensures history[n].cr3 == RootAfter(history[0].cr3, ops[..n])
  {
    hide Flat, SameSpaces, Stepped, CoherenceStep, NoNewGlobals;
    if n == 0 {
      assert ops[..0] == [];
      NothingStepped(history[0].mem, history[0].tree);
    } else {
      RunIsFlat(history, ops, n - 1);
      assert ops[..n] == ops[..n - 1] + [ops[n - 1]] && ops[..n][..n - 1] == ops[..n - 1];
      assert Transition(history[n - 1], ops[n - 1], history[n]);
      FlatStep(history[0].mem, history[0].tree, history[n - 1], history[n], ops[..n - 1], ops[n - 1]);
    }
  }

  lemma RootIsSpace(history: seq<Snapshot>, ops: seq<Op>, n: nat)
    requires Starts(history, ops) && n <= |ops|
    ensures Root(RootAfter(history[0].cr3, ops[..n])) in history[0].tree
    decreases n
  {
    hide Transition;
    if n == 0 {
      assert ops[..0] == [];
    } else {
      RootIsSpace(history, ops, n - 1);
      assert ops[..n][..n - 1] == ops[..n - 1] && ops[n - 1].Allowed(history[0].tree);
    }
  }

  /** Two spaces at any point of a run: they share their global pages exactly when no page clashes. */
  lemma SharesIs(history: seq<Snapshot>, ops: seq<Op>, n: nat, root: nat)
    requires Starts(history, ops) && n <= |ops| && Root(root) in history[0].tree
    ensures SharesGlobals(history[n].mem, history[n].cr3, root)
      <==> forall p: nat | p < PAGE_LIMIT :: !Clashes(history[0].mem, history[0].cr3, ops[..n], root, p)
  {
    hide Transition, Walk, Expected, Global;
    RunIsFlat(history, ops, n);
    RootIsSpace(history, ops, n);
    var m, r := history[n].mem, history[n].cr3;
    forall p: nat | p < PAGE_LIMIT
      ensures Clashes(history[0].mem, history[0].cr3, ops[..n], root, p)
        <==> IsGlobal(Walk(m, r, p)) && Walk(m, root, p) != Walk(m, r, p)
    {
      assert Walk(m, r, p) == Expected(history[0].mem, ops[..n], r, p);
      assert Walk(m, root, p) == Expected(history[0].mem, ops[..n], root, p);
    }
  }

  /** A run whose loads share their global pages keeps the TLB coherent, whatever the processor caches and drops
      on the way. */
  lemma {:induction false} SharedIsCoherent(history: seq<Snapshot>, ops: seq<Op>, n: nat)
    requires Starts(history, ops) && n <= |ops| && LoadsShare(history[0].mem, history[0].cr3, ops)
    ensures forall i | 0 <= i <= n :: history[i].IsCoherent()
  {
    hide Coherent, Walk, Clashes, SharesGlobals, GlobalsAgree, Stepped, NoNewGlobals;
    if n > 0 {
      SharedIsCoherent(history, ops, n - 1);
      var s, op := history[n - 1], ops[n - 1];
      assert Transition(s, op, history[n]);
      if op.LoadOp? {
        assert op.Allowed(history[0].tree);
        SharesIs(history, ops, n - 1, op.root);
        RunIsFlat(history, ops, n - 1);
        RootIsSpace(history, ops, n - 1);
        LoadIsSafe(s.mem, s.tree, s.cr3, op.root, s.tlb);
      }
    }
  }

  /** And where a load clashes at a page, caching that page right before it is enough to break coherence. */
  lemma ClashIsSeen(history: seq<Snapshot>, done: seq<Op>, p: nat, root: nat)
    requires p < PAGE_LIMIT && Starts(history, done + [FillOp(p), LoadOp(root)])
    requires Clashes(history[0].mem, history[0].cr3, done, root, p)
    ensures !history[|done| + 2].IsCoherent()
  {
    hide Walk, Expected, Global, Stepped, NoNewGlobals, CoherenceStep;
    var ops, n := done + [FillOp(p), LoadOp(root)], |done|;
    assert ops[..n] == done && ops[n] == FillOp(p) && ops[n + 1] == LoadOp(root);
    StepAt(history, ops, n);
    StepAt(history, ops, n + 1);
    RunIsFlat(history, ops, n);
    RunIsFlat(history, ops, n + 1);
    RunIsFlat(history, ops, n + 2);
    RootIsSpace(history, ops, n);
    assert ops[n + 1].Allowed(history[0].tree);
    ClashStays(history[0].mem, history[0].cr3, ops, n, p, root);
    var entry := Expected(history[0].mem, done, RootAfter(history[0].cr3, done), p);
    assert p in history[n + 1].tlb && history[n + 1].tlb[p] == entry.value;
    assert p in history[n + 2].tlb && history[n + 2].tlb[p] == entry.value;
  }

  lemma StepAt(history: seq<Snapshot>, ops: seq<Op>, i: nat)
    requires IsHistory(history, ops) && i < |ops|
    ensures Transition(history[i], ops[i], history[i + 1])
  {
  }

  /** Neither the fill nor the load changes what the tables hold. */
  lemma ClashStays(mem: Memory, cr3: nat, ops: seq<Op>, n: nat, p: nat, root: nat)
    requires n + 2 == |ops| && ops[n].FillOp? && ops[n + 1].LoadOp? && p < PAGE_LIMIT
    ensures Expected(mem, ops[..n + 2], root, p) == Expected(mem, ops[..n], root, p)
    ensures RootAfter(cr3, ops[..n + 2]) == ops[n + 1].root
  {
    assert ops[..n + 2][..n + 1] == ops[..n + 1] && ops[..n + 1][..n] == ops[..n];
  }

  /** So it goes, on any machine with two spaces: a page mapped as global in the one loaded, cached, and the other
      loaded, which does not have it. */
  method GlobalOutlivesLoad(mmu: Mmu, other: nat, virt: nat, frame: nat)
    requires mmu.Valid() && Root(mmu.cr3) in mmu.tree && Root(other) in mmu.tree && other != mmu.cr3
    requires Walk(mmu.mem, other, PageOf(virt)) == None && frame < FRAME_LIMIT
    requires |TablesFor(mmu.cr3, IndicesOf(PageOf(virt))) - mmu.tree.Keys| <= |mmu.free|
    modifies mmu
    ensures mmu.Tables() && mmu.cr3 == other && !mmu.Valid()
  {
    hide IsTree, FreeList, Walk, IndicesOf, Expected, TablesFor, Transition, Coherent, MakeEntry;
    var map256 := MapOp(mmu.cr3, virt, frame, 256);
    var page := PageOf(virt);
    var ops := [map256, FillOp(page), LoadOp(other)];
    OnlyFirstNeeds(map256, page, other);
    ghost var history := mmu.Run(ops);
    assert ops == [map256] + [FillOp(page), LoadOp(other)];
    GlobalClashes(history[0].mem, history[0].cr3, other, virt, frame, 256);
    RunIsFlat(history, ops, 3);
    assert ops[..3] == ops;
    LastRoot(history[0].cr3, ops);
    ClashIsSeen(history, [map256], page, other);
  }

  lemma OnlyFirstNeeds(op: Op, page: nat, root: nat)
    ensures TablesOf([op, FillOp(page), LoadOp(root)]) == op.Tables()
  {
    var ops := [op, FillOp(page), LoadOp(root)];
    assert ops[3..] == [] && TablesOf(ops[3..]) == {};
    assert ops[2..][1..] == ops[3..] && TablesOf(ops[2..]) == {};
    assert ops[1..][1..] == ops[2..] && TablesOf(ops[1..]) == {};
  }

  lemma LastRoot(cr3: nat, ops: seq<Op>)
    requires ops != [] && ops[|ops| - 1].LoadOp?
    ensures RootAfter(cr3, ops) == ops[|ops| - 1].root
  {
  }

  lemma GlobalClashes(mem: Memory, a: nat, b: nat, virt: nat, frame: nat, flags: nat)
    requires a != b && frame < FRAME_LIMIT && flags < 65536 && flags / 256 % 2 == 1
    requires Walk(mem, b, PageOf(virt)) == None
    ensures Clashes(mem, a, [MapOp(a, virt, frame, flags)], b, PageOf(virt))
  {
    hide Walk, PageOf, MakeEntry, Global;
    var p, ops := PageOf(virt), [MapOp(a, virt, frame, flags)];
    assert ops[..0] == [] && Expected(mem, [], a, p) == Walk(mem, a, p) && Expected(mem, [], b, p) == None;
    assert RootAfter(a, []) == a && RootAfter(a, ops) == a;
    assert Expected(mem, ops, a, p) == Some(MakeEntry(frame, flags)) && Expected(mem, ops, b, p) == None;
  }
}
