/**
 * The operations that change the namespace: installing and uninstalling nodes
 * and tearing the whole tree down (uacpi/source/namespace.c).
 */
module Namespace {
  import opened NamespaceTree
  import opened Wrappers

  datatype Status = Ok | Dangling | Denied | InternalError

  const BUGGED: nat := 0xFFFF_FFFF

  /** Dropping one reference to n; the last one frees its record or, for a static one, clears it. */
  function Unreferenced(m: Nodes, n: Addr): (r: Nodes)
    requires n in m
    ensures SameOff(m, r, n)
  {
    var node := m[n];
    if node.refs == 0 || node.refs == BUGGED then m[n := node.(refs := BUGGED)]
    else if node.refs > 1 then m[n := node.(refs := node.refs - 1)]
    else if node.predefined then m[n := Node(node.name, NULL, NULL, NULL, None, false, false, true, 0)]
    else m - {n}
  }

  /** A node of m0 that has left the namespace: without another reference its record is freed or, for a static one,
      cleared; with more it stays, dangling and without an object, with one reference less.  A broken count stays
      broken and keeps the record. */
  ghost predicate Gone(m0: Nodes, m: Nodes, n: Addr) {
    && n in m0
    && var refs := m0[n].refs;
    && (refs == 1 && !m0[n].predefined ==> n !in m)
    && (refs == 1 && m0[n].predefined ==>
          n in m && m[n] == Node(m0[n].name, NULL, NULL, NULL, None, false, false, true, 0))
    && (refs != 1 ==>
          && n in m && m[n].name == m0[n].name && m[n].dangling && m[n].attached.None?
          && m[n].refs == if refs == 0 || refs == BUGGED then BUGGED else refs - 1)
  }

  /** A record of which at most links changed. */
  ghost predicate LinksOnly(m0: Nodes, m1: Nodes, a: Addr) {
    && (a in m0 <==> a in m1)
    && (a in m0 ==> m1[a] == m0[a].(parent := m1[a].parent, child := m1[a].child, next := m1[a].next))
  }

  class Namespace {
    var nodes: Nodes
    const root: Addr
    ghost var tree: Tree

    ghost predicate Valid()
      reads this
    {
      TreeOk(nodes, tree, root)
    }

    /** A namespace of the root alone. */
    constructor (kind: nat)
      ensures Valid() && tree == Tree(map[root := []], map[root := 0])
      ensures nodes.Keys == {root}
    {
      root := 1;
      nodes := map[1 := Node("\\\0\0\0", NULL, NULL, NULL, Some(kind), false, false, true, 1)];
      tree := Tree(map[1 := []], map[1 := 0]);
      new;
      LeafIsLinked(nodes, root);
    }

    /** Appends a node to the children of `parent`, or of the root when none is given. */
    method Install(parent: Addr, node: Addr) returns (status: Status)
      requires Valid() && (parent == NULL || parent in tree.kids)
      requires node in nodes && node != NULL && node !in tree.kids && nodes[node].child == NULL
        && nodes[node].next == NULL
      modifies this
      ensures Valid()
      ensures status == if old(nodes[node].dangling) then Dangling else Ok
      ensures !status.Ok? ==> nodes == old(nodes) && tree == old(tree)
      ensures status.Ok? ==>
                var p := if parent == NULL then root else parent;
                && tree == Appended(old(tree), p, node)
                && SameButLinks(old(nodes), nodes)
    {
      hide TreeOk, Linked;
      var p := if parent == NULL then root else parent;
      if nodes[node].dangling {
        return Dangling;
      }
      InTree(nodes, tree, root, p);
      hide Appended;
      AttachKeepsTree(nodes, tree, root, p, node);
      FirstIsNull(nodes, tree, root, p);
      ghost var s, m0 := tree.kids[p], nodes;
      if nodes[p].child == NULL {
        nodes := nodes[p := nodes[p].(child := node)];
      } else {
        var prev := LastPeer(p);
        nodes := nodes[prev := nodes[prev].(next := node)];
      }
      nodes := nodes[node := nodes[node].(parent := p)];
      tree := Appended(tree, p, node);
      AttachChangesLinks(m0, s, p, node);
      status := Ok;
    }

    /** The last child of a node that has one. */
    method LastPeer(p: Addr) returns (prev: Addr)
      requires Valid() && p in tree.kids && p in nodes && nodes[p].child != NULL
      ensures tree.kids[p] != [] && prev == tree.kids[p][|tree.kids[p]| - 1]
    {
      hide TreeOk;
      ListFacts(nodes, tree, root, p);
      InTree(nodes, tree, root, p);
      ghost var s, i := tree.kids[p], 0;
      prev := nodes[p].child;
      while nodes[prev].next != NULL
        invariant i < |s| && prev == s[i] && prev in nodes
        decreases |s| - i
      {
        prev := nodes[prev].next;
        i := i + 1;
      }
    }

    /**
     * Takes a childless node out of the namespace: its peers close up, its
     * object is detached, its record is marked dangling and one reference to it
     * is dropped.  A node with a child is refused.
     */
    method Uninstall(node: Addr) returns (status: Status)
      requires Valid() && node in nodes
      requires node in tree.kids || nodes[node].dangling || nodes[node].parent == NULL
      modifies this
      ensures Valid()
      ensures status == if old(nodes[node].dangling) then InternalError
                        else if old(nodes[node].child) != NULL then Denied
                        else if node in old(tree.kids) && node != root then Ok
                        else InternalError
      ensures !status.Ok? ==> tree == old(tree)
      ensures status.Denied? || old(nodes[node].dangling) ==> nodes == old(nodes)
      ensures status.InternalError? && !old(nodes[node].dangling) ==>
        nodes == old(nodes)[node := old(nodes)[node].(attached := None)]
      ensures status.Ok? ==> Gone(old(nodes), nodes, node) && IsPruned(old(tree), node, old(nodes[node].parent), tree)
      ensures status.Ok? ==> OutsideKept(old(tree), old(nodes), nodes)
      ensures status.Ok? ==> forall a | a != node :: LinksOnly(old(nodes), nodes, a)
    {
      hide TreeOk;
      if nodes[node].dangling {
        return InternalError;
      }
      if nodes[node].child != NULL {
        return Denied;
      }
      ghost var m0 := nodes;
      DetachKeepsTree(nodes, tree, root, node);
      nodes := Detached(nodes, node);
      var p := nodes[node].parent;
      if p == NULL {
        // not linked to any peer
        NoParent(m0, tree, root, node);
        return InternalError;
      }
      ghost var i := FindChild(nodes, tree, root, node);
      ghost var m1 := nodes;
      SkipPeer(node, i);
      nodes := nodes[node := nodes[node].(dangling := true)];
      nodes := Unreferenced(nodes, node);
      UninstallKeepsTree(m0, m1, nodes, tree, root, node, i);
      tree := Pruned(tree, p, i);
      status := Ok;
    }

    /** Uninstalls every child of a node whose children have none; none is refused. */
    method Wipe(a: Addr) returns (ghost results: seq<Status>)
      requires Valid() && a in nodes && OnlyLeaves(tree, a)
      modifies this
      ensures Valid() && tree == Cleared(old(tree), a, |old(tree.kids[a])|)
      ensures |results| == |old(tree.kids[a])| && forall r | r in results :: r.Ok?
      ensures forall c | c in old(tree.kids[a]) :: Gone(old(nodes), nodes, c)
      ensures forall c | c !in old(tree.kids[a]) :: LinksOnly(old(nodes), nodes, c)
      ensures OutsideKept(old(tree), old(nodes), nodes)
    {
      hide TreeOk, Cleared, Gone, OutsideKept, LinksOnly;
      ghost var t, s, n := tree, tree.kids[a], 0;
      NothingCleared(t, a);
      ListFacts(nodes, tree, root, a);
      NotOwnChild(nodes, tree, root, a);
      OutsideIsKept(t, nodes);
      AllLinksOnly(nodes);
      results := [];
      FirstIsNull(nodes, tree, root, a);
      while nodes[a].child != NULL
        invariant Valid() && n <= |s| && tree == Cleared(t, a, n) && a in nodes
        invariant nodes[a].child == NULL <==> n == |s|
        invariant |results| == n && forall r | r in results :: r.Ok?
        invariant forall k | 0 <= k < n :: Gone(old(nodes), nodes, s[k])
        invariant forall c | c !in s[..n] :: LinksOnly(old(nodes), nodes, c)
        invariant OutsideKept(t, old(nodes), nodes)
        decreases |s| - n
      {
        ghost var before := nodes;
        ClearedFacts(nodes, t, tree, root, a, n);
        var status := Uninstall(nodes[a].child);
        results := results + [status];
        ClearOneMore(t, a, n, tree);
        GoneStays(t, a, n, old(nodes), before, nodes);
        n := n + 1;
        ClearedEnd(nodes, t, tree, root, a, n);
      }
      assert s[..n] == s;
    }

    /**
     * Tears the namespace down without a stack: it goes down into every node
     * that has children, and on the way back up uninstalls the children of the
     * node it leaves.  It ends with the root alone, every other node gone, and
     * no uninstall refused.
     */
    method Deinitialize() returns (ghost results: seq<Status>)
      requires Valid() && nodes[root].predefined
      modifies this
      ensures Valid() && tree.kids == map[root := []]
      ensures forall c | c in old(tree.kids) && c != root :: Gone(old(nodes), nodes, c)
      ensures root in old(nodes) && root in nodes
      ensures nodes[root]
           == Node(old(nodes)[root].name, NULL, NULL, NULL, None, false, false, true, old(nodes)[root].refs)
      ensures forall r | r in results :: r.Ok?
      ensures OutsideKept(old(tree), old(nodes), nodes)
    {
      results := ClearTree();
      RootAlone(nodes, tree, root);
      FirstIsNull(nodes, tree, root, root);
      nodes := Detached(nodes, root);
      nodes := nodes[root := Node(nodes[root].name, NULL, NULL, NULL, None, false, false, true, nodes[root].refs)];
      LeafIsLinked(nodes, root);
    }

    method ClearTree() returns (ghost results: seq<Status>)
      requires Valid()
      modifies this
      ensures Valid() && tree.kids.Keys == {root}
      ensures forall c | c in old(tree.kids) && c != root :: Gone(old(nodes), nodes, c)
      ensures LinksOnly(old(nodes), nodes, root)
      ensures forall r | r in results :: r.Ok?
      ensures OutsideKept(old(tree), old(nodes), nodes)
    {
      hide TreeOk, AllGone, Gone, LinksOnly, OutsideKept, Cleared, Working, PathOk;
      hide LeavesUpTo, NonLeaf, Elements, OnlyLeaves, IsLeaf;
      var current: Addr, next: Addr, depth: nat := root, NULL, 1;
      ghost var t0 := tree;
      ghost var path: seq<Addr>, at: seq<nat>, done: nat := [root], [], 0;
      StartOfPath(nodes, tree, root);
      results := [];
      while depth != 0
        invariant Valid() && depth == |path|
        invariant depth != 0 ==> Working(tree, root, path, at, done, current, next)
        invariant depth == 0 ==> IsLeaf(tree, root)
        invariant AllGone(t0, tree, old(nodes), nodes)
        invariant forall r | r in results :: r.Ok?
        invariant OutsideKept(t0, old(nodes), nodes)
        decreases |NonLeaf(tree) - Elements(path)|, depth, if depth == 0 then 0 else KidsLeft(tree, current, done)
      {
        WorkingFacts(nodes, tree, root, path, at, done, current, next);
        ghost var last := next;
        next := if next == NULL then nodes[current].child else nodes[next].next;
        if next == NULL {
          depth := depth - 1;
          ghost var t1, m1 := tree, nodes;
          ListFacts(nodes, tree, root, current);
          ghost var rs := Wipe(current);
          results := results + rs;
          WipeIsGone(t0, t1, current, old(nodes), m1, nodes);
          WipeKeepsPath(t1, m1, nodes, root, path, at, done, current, last);
          next := current;
          current := nodes[current].parent;
          if depth != 0 {
            done := at[depth - 1] + 1;
            at := at[..depth - 1];
          }
          path := path[..depth];
        } else {
          if nodes[next].child != NULL {
            PathDown(nodes, tree, root, path, at, done, current, last);
            depth := depth + 1;
            current := next;
            next := NULL;
            path, at, done := path + [current], at + [done], 0;
          } else {
            NextPeer(tree, root, path, at, done, current, last);
            done := done + 1;
          }
        }
      }
      OnlyRoot(nodes, tree, root);
      AllIsGone(t0, tree, old(nodes), nodes, root);
    }

    /** Closes the gap a node leaves among its peers. */
    method SkipPeer(node: Addr, ghost i: nat)
      requires Valid() && node in nodes && nodes[node].parent in tree.kids
      requires i < |tree.kids[nodes[node].parent]| && tree.kids[nodes[node].parent][i] == node
      modifies this`nodes
      ensures var p := old(nodes[node].parent);
              var s := tree.kids[p];
              p in old(nodes) && (i > 0 ==> s[i - 1] in old(nodes)) && nodes == Skipped(old(nodes), p, s, i)
      ensures node in nodes
    {
      hide TreeOk, Linked, NoDup;
      var p := nodes[node].parent;
      ghost var s := tree.kids[p];
      PeerFacts(nodes, tree, root, p, i);
      InTree(nodes, tree, root, p);
      var prev := nodes[p].child;
      assert prev == s[0];
      if prev == node {
        nodes := nodes[p := nodes[p].(child := nodes[node].next)];
      } else {
        ghost var j := 0;
        while prev != NULL && nodes[prev].next != node
          invariant j < i && prev == s[j] && prev in nodes
          decreases i - j
        {
          prev := nodes[prev].next;
          j := j + 1;
        }
        assert s[j + 1] == s[i];
        nodes := nodes[prev := nodes[prev].(next := nodes[node].next)];
      }
    }
  }

  // ----- teardown -----

  function Firsts(s: seq<Addr>, n: nat): set<Addr>
    requires n <= |s|
  {
    set c | c in s[..n]
  }

  /** The shape once the first n children of a are gone. */
  function Cleared(t: Tree, a: Addr, n: nat): Tree
    requires a in t.kids && n <= |t.kids[a]|
  {
    Tree(t.kids[a := t.kids[a][n..]] - Firsts(t.kids[a], n), t.level - Firsts(t.kids[a], n))
  }

  /** A node all of whose children are childless. */
  ghost predicate OnlyLeaves(t: Tree, a: Addr) {
    a in t.kids && forall i | 0 <= i < |t.kids[a]| :: IsLeaf(t, t.kids[a][i])
  }

  ghost predicate IsLeaf(t: Tree, a: Addr) {
    a in t.kids && t.kids[a] == []
  }

  lemma NothingCleared(t: Tree, a: Addr)
    requires a in t.kids
    ensures Cleared(t, a, 0) == t
  {
    assert t.kids[a][0..] == t.kids[a];
    assert t.kids[a := t.kids[a]] == t.kids;
  }

  /** Records of nodes that were not in the tree are as they were. */
  ghost predicate OutsideKept(t: Tree, m0: Nodes, m1: Nodes) {
    forall a | a !in t.kids :: (a in m1 <==> a in m0) && (a in m0 ==> m1[a] == m0[a])
  }

  lemma OutsideIsKept(t: Tree, m: Nodes)
    ensures OutsideKept(t, m, m)
  {
  }

  lemma NotOwnChild(m: Nodes, t: Tree, root: Addr, a: Addr)
    requires TreeOk(m, t, root) && a in t.kids
    ensures a !in t.kids[a]
  {
    assert Below(t, a);
  }

  /** Where the wipe stands: the first child left is the next one, it is childless and installed. */
  lemma ClearedFacts(m: Nodes, t: Tree, c: Tree, root: Addr, a: Addr, n: nat)
    requires OnlyLeaves(t, a) && n < |t.kids[a]| && c == Cleared(t, a, n) && TreeOk(m, c, root) && a !in t.kids[a]
    requires NoDup(t.kids[a])
    ensures a in m && m[a].child == t.kids[a][n] && t.kids[a][n] in m && t.kids[a][n] in c.kids && t.kids[a][n] != root
    ensures !m[t.kids[a][n]].dangling && m[t.kids[a][n]].child == NULL && m[t.kids[a][n]].parent == a
  {
    var s := t.kids[a];
    assert c.kids[a] == s[n..];
    assert s[n..][0] == s[n];
    InTree(m, c, root, a);
    ChildFacts(m, c, root, a, 0);
    assert IsLeaf(t, s[n]);
    assert s[n] !in Firsts(s, n);
    assert c.kids[s[n]] == [];
    FirstIsNull(m, c, root, s[n]);
    InTree(m, c, root, s[n]);
  }

  lemma ClearedEnd(m: Nodes, t: Tree, c: Tree, root: Addr, a: Addr, n: nat)
    requires a in t.kids && n <= |t.kids[a]| && c == Cleared(t, a, n) && TreeOk(m, c, root) && a !in t.kids[a]
    ensures a in m && (m[a].child == NULL <==> n == |t.kids[a]|)
  {
    assert c.kids[a] == t.kids[a][n..];
    FirstIsNull(m, c, root, a);
  }

  lemma GoneStays(t: Tree, a: Addr, n: nat, m0: Nodes, m1: Nodes, m2: Nodes)
    requires a in t.kids && n < |t.kids[a]| && OutsideKept(t, m0, m1) && NoDup(t.kids[a])
    requires forall k | 0 <= k < n :: Gone(m0, m1, t.kids[a][k])
    requires forall c | c !in t.kids[a][..n] :: LinksOnly(m0, m1, c)
    requires Gone(m1, m2, t.kids[a][n]) && OutsideKept(Cleared(t, a, n), m1, m2)
    requires forall c | c != t.kids[a][n] :: LinksOnly(m1, m2, c)
    ensures OutsideKept(t, m0, m2)
    ensures forall k | 0 <= k < n + 1 :: Gone(m0, m2, t.kids[a][k])
    ensures forall c | c !in t.kids[a][..n + 1] :: LinksOnly(m0, m2, c)
  {
    var s := t.kids[a];
    assert s[..n + 1] == s[..n] + [s[n]];
    forall k | 0 <= k < n + 1 ensures Gone(m0, m2, s[k]) {
      if k < n {
        assert s[k] == s[..n][k];
        assert s[k] in Firsts(s, n);
        assert s[k] !in Cleared(t, a, n).kids;
      } else {
        assert s[n] !in s[..n];
        GoneLater(m0, m1, m2, s[n]);
      }
    }
    forall c | c !in s[..n + 1] ensures LinksOnly(m0, m2, c) {
      assert LinksOnly(m0, m1, c) && LinksOnly(m1, m2, c);
    }
  }

  lemma GoneLater(m0: Nodes, m1: Nodes, m2: Nodes, n: Addr)
    requires LinksOnly(m0, m1, n) && Gone(m1, m2, n)
    ensures Gone(m0, m2, n)
  {
  }

  lemma AllLinksOnly(m: Nodes)
    ensures forall a :: LinksOnly(m, m, a)
  {
  }

  lemma ClearOneMore(t: Tree, a: Addr, n: nat, r: Tree)
    requires a in t.kids && n < |t.kids[a]| && NoDup(t.kids[a]) && a !in t.kids[a]
    requires IsPruned(Cleared(t, a, n), t.kids[a][n], a, r)
    ensures r == Cleared(t, a, n + 1)
  {
    var s, c := t.kids[a], Cleared(t, a, n);
    assert c.kids[a] == s[n..];
    var i: nat :| PrunedAt(c, s[n], a, i, r);
    assert s[n..][i] == s[n + i];
    assert i == 0;
    assert Without(s[n..], 0) == s[n + 1..];
    assert s[..n + 1] == s[..n] + [s[n]];
    assert Firsts(s, n + 1) == Firsts(s, n) + {s[n]};
    assert r.kids == Cleared(t, a, n + 1).kids;
    assert r.level == Cleared(t, a, n + 1).level;
  }

  /** The nodes from the root down to the one being worked on; child number at[k] of path[k] is path[k + 1]. */
  ghost predicate PathOk(t: Tree, root: Addr, path: seq<Addr>, at: seq<nat>) {
    && |path| == |at| + 1 && path[0] == root
    && (forall k | 0 <= k < |path| :: path[k] in t.kids && path[k] in t.level && t.level[path[k]] == k)
    && (forall k | 0 <= k < |at| :: StepsDown(t, path, at, k))
  }

  ghost predicate StepsDown(t: Tree, path: seq<Addr>, at: seq<nat>, k: nat)
    requires k < |at| && k + 1 < |path|
  {
    && path[k] in t.kids && at[k] < |t.kids[path[k]]| && t.kids[path[k]][at[k]] == path[k + 1]
    && LeavesUpTo(t, path[k], at[k])
  }

  /** The first n children of a are childless. */
  ghost predicate LeavesUpTo(t: Tree, a: Addr, n: nat)
    requires a in t.kids
  {
    n <= |t.kids[a]| && forall q | 0 <= q < n :: IsLeaf(t, t.kids[a][q])
  }

  /** Where the teardown stands: at the end of the path, past its first `done` children. */
  ghost predicate Working(t: Tree, root: Addr, path: seq<Addr>, at: seq<nat>, done: nat, current: Addr, next: Addr) {
    && PathOk(t, root, path, at) && current == path[|path| - 1]
    && LeavesUpTo(t, current, done)
    && next == if done == 0 then NULL else t.kids[current][done - 1]
  }

  /** The nodes of t0 that are no longer in t have gone. */
  /** What has left the tree is gone, what has not is as it was but for links. */
  ghost predicate AllGone(t0: Tree, t: Tree, m0: Nodes, m: Nodes) {
    && t.kids.Keys <= t0.kids.Keys && (forall c | c in t0.kids && c !in t.kids :: Gone(m0, m, c))
    && (forall c | c in t.kids :: LinksOnly(m0, m, c))
  }

  function KidsLeft(t: Tree, a: Addr, done: nat): int {
    if a in t.kids then |t.kids[a]| - done else 0
  }

  lemma WorkingFacts(m: Nodes, t: Tree, root: Addr, path: seq<Addr>, at: seq<nat>, done: nat, current: Addr, next: Addr)
    requires TreeOk(m, t, root) && Working(t, root, path, at, done, current, next)
    ensures |path| == |at| + 1 && current in t.kids && current in m && done <= |t.kids[current]|
    ensures next != NULL ==> next in m
    ensures var n := if next == NULL then m[current].child else m[next].next;
            && n == At(t.kids[current], done)
            && (n == NULL ==> done == |t.kids[current]| && OnlyLeaves(t, current))
            && (n != NULL ==>
                  done < |t.kids[current]| && n in m && n in t.kids && (m[n].child == NULL <==> IsLeaf(t, n)))
  {
    InTree(m, t, root, current);
    ListFacts(m, t, root, current);
    if done < |t.kids[current]| {
      FirstIsNull(m, t, root, t.kids[current][done]);
    }
  }

  lemma NextPeer(t: Tree, root: Addr, path: seq<Addr>, at: seq<nat>, done: nat, current: Addr, last: Addr)
    requires Working(t, root, path, at, done, current, last)
    requires done < |t.kids[current]| && IsLeaf(t, t.kids[current][done])
    ensures Working(t, root, path, at, done + 1, current, t.kids[current][done])
    ensures KidsLeft(t, current, done + 1) < KidsLeft(t, current, done) && KidsLeft(t, current, done) > 0
  {
  }

  lemma WipeIsGone(t0: Tree, t: Tree, a: Addr, m0: Nodes, m: Nodes, m1: Nodes)
    requires a in t.kids && AllGone(t0, t, m0, m) && OutsideKept(t, m, m1)
    requires forall c | c in t.kids[a] :: Gone(m, m1, c)
    requires forall i | 0 <= i < |t.kids[a]| :: t.kids[a][i] in t.kids
    requires forall c | c !in t.kids[a] :: LinksOnly(m, m1, c)
    requires OutsideKept(t0, m0, m)
    ensures AllGone(t0, Cleared(t, a, |t.kids[a]|), m0, m1) && OutsideKept(t0, m0, m1)
  {
    var c := Cleared(t, a, |t.kids[a]|);
    assert t.kids[a][..|t.kids[a]|] == t.kids[a];
    forall x | x in t0.kids && x !in c.kids ensures Gone(m0, m1, x) {
      if x in t.kids {
        assert x in t.kids[a];
        GoneLater(m0, m, m1, x);
      } else {
        assert Gone(m0, m, x);
      }
    }
  }

  lemma AllIsGone(t0: Tree, t: Tree, m0: Nodes, m: Nodes, root: Addr)
    requires AllGone(t0, t, m0, m) && t.kids.Keys == {root}
    ensures LinksOnly(m0, m, root) && forall c | c in t0.kids && c != root :: Gone(m0, m, c)
  {
  }

  function NonLeaf(t: Tree): set<Addr> {
    set a | a in t.kids && t.kids[a] != []
  }

  function Elements(s: seq<Addr>): set<Addr> {
    set a | a in s
  }

  lemma StartOfPath(m: Nodes, t: Tree, root: Addr)
    requires TreeOk(m, t, root)
    ensures Working(t, root, [root], [], 0, root, NULL)
    ensures AllGone(t, t, m, m) && OutsideKept(t, m, m)
  {
  }

  /** Going down into the next child, which has children of its own. */
  lemma PathDown(m: Nodes, t: Tree, root: Addr, path: seq<Addr>, at: seq<nat>, done: nat, a: Addr, last: Addr)
    requires TreeOk(m, t, root) && Working(t, root, path, at, done, a, last)
    requires done < |t.kids[a]| && !IsLeaf(t, t.kids[a][done])
    ensures var n := t.kids[a][done];
            && Working(t, root, path + [n], at + [done], 0, n, NULL)
            && |NonLeaf(t) - Elements(path + [n])| < |NonLeaf(t) - Elements(path)|
  {
    var n := t.kids[a][done];
    assert Below(t, a);
    assert n in t.kids[a];
    forall k | 0 <= k < |at| + 1 ensures StepsDown(t, path + [n], at + [done], k) {
      assert k < |at| ==> StepsDown(t, path, at, k);
    }
    assert n in NonLeaf(t) - Elements(path);
    assert NonLeaf(t) - Elements(path + [n]) == NonLeaf(t) - Elements(path) - {n};
  }

  /** Node x survives the wipe below path's end, with its children unless it is that end. */
  lemma WipeKeepsUpper(m: Nodes, t: Tree, root: Addr, a: Addr, x: Addr)
    requires TreeOk(m, t, root) && a in t.kids && x in t.kids && t.level[x] <= t.level[a]
    ensures var c := Cleared(t, a, |t.kids[a]|);
            x in c.kids && x in c.level && c.level[x] == t.level[x] && c.kids[x] == if x == a then [] else t.kids[x]
  {
    var s := t.kids[a];
    assert Below(t, a);
    assert s[..|s|] == s;
    assert x !in s;
  }

  lemma WipeKeepsLeaves(m: Nodes, t: Tree, root: Addr, a: Addr, x: Addr, n: nat)
    requires TreeOk(m, t, root) && a in t.kids && x in t.kids && t.level[x] < t.level[a]
    requires LeavesUpTo(t, x, n)
    ensures var c := Cleared(t, a, |t.kids[a]|);
            x in c.kids && LeavesUpTo(c, x, n)
  {
    var c := Cleared(t, a, |t.kids[a]|);
    WipeKeepsUpper(m, t, root, a, x);
    assert Below(t, x);
    forall q | 0 <= q < n ensures IsLeaf(c, c.kids[x][q]) {
      var y := t.kids[x][q];
      assert IsLeaf(t, y);
      assert y in t.kids[x];
      WipeKeepsUpper(m, t, root, a, y);
    }
  }

  lemma WipeKeepsSteps(t: Tree, m: Nodes, root: Addr, path: seq<Addr>, at: seq<nat>, a: Addr, k: nat)
    requires TreeOk(m, t, root) && PathOk(t, root, path, at) && a == path[|at|] && k < |at|
    ensures var c := Cleared(t, a, |t.kids[a]|);
            && path[k] in c.kids && path[k] in c.level && c.level[path[k]] == k
            && StepsDown(c, path, at, k) && c.kids[path[k]] == t.kids[path[k]]
  {
    hide Cleared, LeavesUpTo;
    assert StepsDown(t, path, at, k);
    WipeKeepsUpper(m, t, root, a, path[k]);
    WipeKeepsLeaves(m, t, root, a, path[k], at[k]);
  }

  lemma PathUp(t: Tree, m: Nodes, m1: Nodes, root: Addr, path: seq<Addr>, at: seq<nat>, a: Addr)
    requires TreeOk(m, t, root) && PathOk(t, root, path, at) && a == path[|at|] && |at| != 0
    requires a in m1 && TreeOk(m1, Cleared(t, a, |t.kids[a]|), root)
    requires IsLeaf(Cleared(t, a, |t.kids[a]|), a)
    ensures Working(Cleared(t, a, |t.kids[a]|), root, path[..|at|], at[..|at| - 1], at[|at| - 1] + 1, m1[a].parent, a)
  {
    hide TreeOk, Cleared;
    var c := Cleared(t, a, |t.kids[a]|);
    var up, upAt := path[..|at|], at[..|at| - 1];
    forall k | 0 <= k < |up| ensures up[k] in c.kids && up[k] in c.level && c.level[up[k]] == k {
      WipeKeepsSteps(t, m, root, path, at, a, k);
    }
    forall k | 0 <= k < |upAt| ensures StepsDown(c, up, upAt, k) {
      WipeKeepsSteps(t, m, root, path, at, a, k);
    }
    WipeKeepsSteps(t, m, root, path, at, a, |upAt|);
    ChildFacts(m1, c, root, up[|upAt|], at[|upAt|]);
  }

  /** After the children of the path's end are gone, the path without its end still stands. */
  lemma WipeKeepsPath(t: Tree, m: Nodes, m1: Nodes, root: Addr, path: seq<Addr>, at: seq<nat>, done: nat, a: Addr,
      last: Addr)
    requires TreeOk(m, t, root) && Working(t, root, path, at, done, a, last)
    requires TreeOk(m1, Cleared(t, a, |t.kids[a]|), root)
    ensures var c := Cleared(t, a, |t.kids[a]|);
            && IsLeaf(c, a) && a in m1
            && |NonLeaf(c) - Elements(path[..|at|])| <= |NonLeaf(t) - Elements(path)|
            && (|at| == 0 ==> a == root)
            && (|at| != 0 ==> Working(c, root, path[..|at|], at[..|at| - 1], at[|at| - 1] + 1, m1[a].parent, a))
  {
    hide NonLeaf, Elements, Cleared, LeavesUpTo;
    WipeKeepsUpper(m, t, root, a, a);
    InTree(m1, Cleared(t, a, |t.kids[a]|), root, a);
    NotOwnChild(m, t, root, a);
    WipeShrinks(t, Cleared(t, a, |t.kids[a]|), a, path, at);
    if |at| != 0 {
      PathUp(t, m, m1, root, path, at, a);
    }
  }

  lemma WipeShrinks(t: Tree, c: Tree, a: Addr, path: seq<Addr>, at: seq<nat>)
    requires a in t.kids && c == Cleared(t, a, |t.kids[a]|) && |path| == |at| + 1 && a == path[|at|]
    requires a !in t.kids[a]
    ensures |NonLeaf(c) - Elements(path[..|at|])| <= |NonLeaf(t) - Elements(path)|
  {
    assert t.kids[a][|t.kids[a]|..] == [];
    var x, y := NonLeaf(c) - Elements(path[..|at|]), NonLeaf(t) - Elements(path);
    assert path == path[..|at|] + [a];
    assert x <= y;
    Smaller(x, y);
  }

  lemma Smaller(x: set<Addr>, y: set<Addr>)
    requires x <= y
    ensures |x| <= |y|
  {
    assert y == x + (y - x);
  }

  /** With no child of the root left there is no other node at all. */
  lemma OnlyRoot(m: Nodes, t: Tree, root: Addr)
    requires TreeOk(m, t, root) && IsLeaf(t, root)
    ensures t.kids.Keys == {root}
  {
    forall c | c in t.kids ensures c == root {
      NoneBelow(m, t, root, c);
    }
  }

  lemma {:induction false} NoneBelow(m: Nodes, t: Tree, root: Addr, c: Addr)
    requires TreeOk(m, t, root) && IsLeaf(t, root) && c in t.kids
    ensures c == root
    decreases t.level[c]
  {
    if c != root {
      assert Hangs(m, t, c);
      assert Below(t, m[c].parent);
      NoneBelow(m, t, root, m[c].parent);
    }
  }

  lemma RootAlone(m: Nodes, t: Tree, root: Addr)
    requires TreeOk(m, t, root) && t.kids.Keys == {root}
    ensures t.kids == map[root := []]
  {
    if t.kids[root] != [] {
      ChildFacts(m, t, root, root, 0);
    }
  }

  /** The peers before p's child number i run up to it and not past it. */
  lemma PeerFacts(m: Nodes, t: Tree, root: Addr, p: Addr, i: nat)
    requires TreeOk(m, t, root) && p in t.kids && i < |t.kids[p]|
    ensures var s := t.kids[p];
            && s[i] in m && p in m && p != s[i]
            && (forall j | 0 <= j < i :: s[j] in m && s[j] != NULL && s[j] != s[i] && m[s[j]].next == s[j + 1])
  {
    ListFacts(m, t, root, p);
    ChildFacts(m, t, root, p, i);
  }

  lemma UninstallKeepsTree(m0: Nodes, m1: Nodes, m2: Nodes, t: Tree, root: Addr, n: Addr, i: nat)
    requires TreeOk(m1, t, root) && n in m0 && n in t.kids && m1 == Detached(m0, n)
    requires var p := m1[n].parent;
             && p in t.kids && i < |t.kids[p]| && t.kids[p][i] == n && n != root
             && p in m1 && (i > 0 ==> t.kids[p][i - 1] in m1)
             && var skipped := Skipped(m1, p, t.kids[p], i);
             n in skipped && m2 == Unreferenced(skipped[n := skipped[n].(dangling := true)], n)
    requires m1[n].child == NULL
    ensures TreeOk(m2, Pruned(t, m1[n].parent, i), root)
    ensures Gone(m0, m2, n) && forall a | a != n :: LinksOnly(m0, m2, a)
    ensures IsPruned(t, n, m0[n].parent, Pruned(t, m1[n].parent, i))
    ensures OutsideKept(t, m0, m2)
  {
    hide Gone, LinksOnly, OutsideKept;
    var p := m1[n].parent;
    FirstIsNull(m1, t, root, n);
    ChildFacts(m1, t, root, p, i);
    PeersInTree(m1, t, root, p);
    SkipKeepsTree(m1, t, root, p, i, m2);
    assert PrunedAt(t, n, p, i, Pruned(t, p, i));
    hide TreeOk, Linked, Below, Pruned;
    UninstalledRecords(m0, m1, m2, p, t.kids[p], i, t);
  }

  lemma PeersInTree(m: Nodes, t: Tree, root: Addr, p: Addr)
    requires TreeOk(m, t, root) && p in t.kids
    ensures forall i | 0 <= i < |t.kids[p]| :: t.kids[p][i] in t.kids
    ensures forall i | 0 <= i < |t.kids[p]| :: t.kids[p][i] != p
    ensures NoDup(t.kids[p])
  {
    ListFacts(m, t, root, p);
    NotOwnChild(m, t, root, p);
  }

  /** What uninstalling the i-th child of p leaves of the records. */
  lemma UninstalledRecords(m0: Nodes, m1: Nodes, m2: Nodes, p: Addr, s: seq<Addr>, i: nat, t: Tree)
    requires i < |s| && s[i] in m0 && m1 == Detached(m0, s[i]) && p in m1 && (i > 0 ==> s[i - 1] in m1)
    requires p in t.kids && (forall j | 0 <= j < |s| :: s[j] in t.kids && s[j] != p) && NoDup(s)
    requires var skipped := Skipped(m1, p, s, i);
             s[i] in skipped && m2 == Unreferenced(skipped[s[i] := skipped[s[i]].(dangling := true)], s[i])
    ensures Gone(m0, m2, s[i]) && (forall a | a != s[i] :: LinksOnly(m0, m2, a)) && OutsideKept(t, m0, m2)
  {
    assert i > 0 ==> s[i - 1] != s[i];
  }

  /** The record with its object detached. */
  function Detached(m: Nodes, n: Addr): Nodes
    requires n in m
  {
    m[n := m[n].(attached := None)]
  }

  /** Tree t with n gone from under p and everything else in place. */
  ghost predicate IsPruned(t: Tree, n: Addr, p: Addr, r: Tree) {
    exists i: nat :: PrunedAt(t, n, p, i, r)
  }

  ghost predicate PrunedAt(t: Tree, n: Addr, p: Addr, i: nat, r: Tree) {
    p in t.kids && i < |t.kids[p]| && t.kids[p][i] == n && r == Pruned(t, p, i)
  }

  lemma DetachKeepsTree(m: Nodes, t: Tree, root: Addr, n: Addr)
    requires TreeOk(m, t, root) && n in m
    ensures TreeOk(Detached(m, n), t, root)
  {
    var m1 := Detached(m, n);
    forall a | a in t.kids ensures Linked(m1, a, t.kids[a]) {
      var k := t.kids[a];
      assert Linked(m, a, k);
      forall i | 0 <= i < |k| ensures LinkedAt(m1, a, k, i) {
        assert LinkedAt(m, a, k, i);
      }
    }
    forall a | a in t.kids ensures Live(m1, a) {
      assert Live(m, a);
    }
    forall c | c in t.kids && c != root ensures Hangs(m1, t, c) {
      assert Hangs(m, t, c);
    }
    forall a | a in t.kids ensures Below(t, a) {
      assert Below(t, a);
    }
  }

  lemma NoParent(m: Nodes, t: Tree, root: Addr, n: Addr)
    requires TreeOk(m, t, root) && n in m && m[n].parent == NULL
    ensures n in t.kids ==> n == root
  {
    assert n in t.kids && n != root ==> Hangs(m, t, n);
  }

  lemma FindChild(m: Nodes, t: Tree, root: Addr, n: Addr) returns (i: nat)
    requires TreeOk(m, t, root) && n in t.kids && n in m && m[n].parent != NULL
    ensures m[n].parent in t.kids && i < |t.kids[m[n].parent]| && t.kids[m[n].parent][i] == n && n != root
  {
    assert Hangs(m, t, n);
    i :| 0 <= i < |t.kids[m[n].parent]| && t.kids[m[n].parent][i] == n;
  }

  /** Everything but the links of the records is as it was. */
  ghost predicate SameButLinks(m0: Nodes, m1: Nodes) {
    && m0.Keys == m1.Keys
    && forall a | a in m0 :: m1[a] == m0[a].(parent := m1[a].parent, child := m1[a].child, next := m1[a].next)
  }

  lemma AttachChangesLinks(m: Nodes, s: seq<Addr>, p: Addr, n: Addr)
    requires p in m && n in m && (s != [] ==> s[|s| - 1] in m)
    ensures SameButLinks(m, Attached(m, s, p, n))
  {
  }

  lemma FirstIsNull(m: Nodes, t: Tree, root: Addr, p: Addr)
    requires TreeOk(m, t, root) && p in t.kids
    ensures p in m && (m[p].child == NULL <==> t.kids[p] == [])
  {
    InTree(m, t, root, p);
    ListFacts(m, t, root, p);
  }

  lemma InTree(m: Nodes, t: Tree, root: Addr, a: Addr)
    requires TreeOk(m, t, root) && (a == root || a in t.kids)
    ensures root in t.kids && a in t.kids && a in t.level && a in m && a != NULL && root in m
    ensures m[a].child == At(t.kids[a], 0) && !m[a].dangling
  {
    assert Live(m, a) && Live(m, root) && Below(t, a) && Linked(m, a, t.kids[a]);
  }

  /** The children of p, as the peer links run through them. */
  lemma ListFacts(m: Nodes, t: Tree, root: Addr, p: Addr)
    requires TreeOk(m, t, root) && p in t.kids
    ensures var s := t.kids[p];
            forall i | 0 <= i < |s| :: s[i] in m && s[i] != NULL && s[i] in t.kids && m[s[i]].next == At(s, i + 1)
    ensures NoDup(t.kids[p])
  {
    var s := t.kids[p];
    assert Linked(m, p, s) && Below(t, p);
    forall i | 0 <= i < |s| ensures s[i] in m && s[i] != NULL && s[i] in t.kids && m[s[i]].next == At(s, i + 1) {
      ChildFacts(m, t, root, p, i);
    }
  }
}
