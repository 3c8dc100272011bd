/**
 * The ACPI namespace: a tree of named nodes linked by parent, first-child and
 * next-peer pointers (uacpi/source/namespace.c).  What the links mean.
 */
module NamespaceTree {
  import opened Wrappers

  /** Addresses of node records; NULL is none. */
  type Addr = nat
  const NULL: Addr := 0

  /** Names have exactly four characters. */
  type Name = s: string | |s| == 4 witness "____"

  /** A node; `attached` is the type of the object attached to it, if one is. */
  datatype Node = Node(
    name: Name,
    parent: Addr,
    child: Addr,
    next: Addr,
    attached: Option<nat>,
    dangling: bool,
    temporary: bool,
    predefined: bool,
    refs: nat)

  type Nodes = map<Addr, Node>

  /** The shape of the namespace: every node's children in order, and its depth. */
  datatype Tree = Tree(kids: map<Addr, seq<Addr>>, level: map<Addr, nat>)

  function At(s: seq<Addr>, i: nat): Addr {
    if i < |s| then s[i] else NULL
  }

  ghost predicate NoDup(s: seq<Addr>) {
    forall i, j | 0 <= i < j < |s| :: s[i] != s[j]
  }

  /** The links of one node to its children. */
  ghost predicate Linked(m: Nodes, a: Addr, s: seq<Addr>) {
    && a in m && m[a].child == At(s, 0)
    && NoDup(s)
    && forall i | 0 <= i < |s| :: LinkedAt(m, a, s, i)
  }

  ghost predicate LinkedAt(m: Nodes, a: Addr, s: seq<Addr>, i: nat)
    requires i < |s|
  {
    s[i] in m && m[s[i]].parent == a && m[s[i]].next == At(s, i + 1)
  }

  /** The children of a node are nodes one level down. */
  ghost predicate Below(t: Tree, a: Addr)
    requires a in t.kids
  {
    a in t.level && forall c | c in t.kids[a] :: c in t.kids && c in t.level && t.level[c] == t.level[a] + 1
  }

  /** Every node but the root hangs under its parent. */
  ghost predicate Hangs(m: Nodes, t: Tree, c: Addr) {
    c in m && m[c].parent in t.kids && c in t.kids[m[c].parent]
  }

  ghost predicate Live(m: Nodes, a: Addr) {
    a in m && !m[a].dangling
  }

  ghost predicate TreeOk(m: Nodes, t: Tree, root: Addr) {
    && NULL !in t.kids && root in t.kids && t.kids.Keys == t.level.Keys && t.level[root] == 0
    && root in m && m[root].parent == NULL
    && (forall a {:trigger Linked(m, a, t.kids[a])} | a in t.kids :: Linked(m, a, t.kids[a]))
    && (forall a {:trigger Live(m, a)} | a in t.kids :: Live(m, a))
    && (forall a {:trigger Below(t, a)} | a in t.kids :: Below(t, a))
    && (forall c {:trigger Hangs(m, t, c)} | c in t.kids && c != root :: Hangs(m, t, c))
  }

  // ----- installing -----

  /** The shape with n appended to p's children. */
  function Appended(t: Tree, p: Addr, n: Addr): Tree
    requires p in t.kids && p in t.level
  {
    Tree(t.kids[p := t.kids[p] + [n]][n := []], t.level[n := t.level[p] + 1])
  }

  /** The records once n is linked as p's last child. */
  function Attached(m: Nodes, s: seq<Addr>, p: Addr, n: Addr): Nodes
    requires p in m && n in m && (s != [] ==> s[|s| - 1] in m)
  {
    var m1 := if s == [] then m[p := m[p].(child := n)]
              else m[s[|s| - 1] := m[s[|s| - 1]].(next := n)];
    m1[n := m1[n].(parent := p)]
  }

  /** A child's record names its parent, so no node is a child of two. */
  lemma ChildOf(m: Nodes, a: Addr, k: seq<Addr>, c: Addr)
    requires Linked(m, a, k) && c in k
    ensures c in m && m[c].parent == a
  {
    var i :| 0 <= i < |k| && k[i] == c;
    assert LinkedAt(m, a, k, i);
  }

  lemma AttachLinks(m: Nodes, p: Addr, s: seq<Addr>, n: Addr)
    requires Linked(m, p, s) && n in m && n != p && n !in s && p !in s
    requires s != [] ==> s[|s| - 1] in m
    requires m[n].next == NULL
    ensures Linked(Attached(m, s, p, n), p, s + [n])
  {
    var m1 := Attached(m, s, p, n);
    forall i | 0 <= i < |s| + 1 ensures LinkedAt(m1, p, s + [n], i) {
      assert i < |s| ==> LinkedAt(m, p, s, i);
    }
  }

  lemma AttachFrame(m: Nodes, p: Addr, s: seq<Addr>, n: Addr, a: Addr, k: seq<Addr>)
    requires Linked(m, p, s) && n in m && a != p && Linked(m, a, k) && n !in k
    requires s != [] ==> s[|s| - 1] in m
    ensures Linked(Attached(m, s, p, n), a, k)
  {
    var m1 := Attached(m, s, p, n);
    forall i | 0 <= i < |k| ensures LinkedAt(m1, a, k, i) {
      assert LinkedAt(m, a, k, i);
      assert k[i] in k;
      assert s != [] ==> LinkedAt(m, p, s, |s| - 1);
    }
  }

  lemma LevelsApart(t: Tree, a: Addr)
    requires a in t.kids && Below(t, a)
    ensures a !in t.kids[a]
  {
  }

  lemma AttachHangs(m: Nodes, t: Tree, p: Addr, n: Addr, c: Addr)
    requires p in t.kids && p in t.level && p in m && n in m && n !in t.kids
    requires t.kids[p] != [] ==> t.kids[p][|t.kids[p]| - 1] in m
    requires c == n || Hangs(m, t, c)
    ensures Hangs(Attached(m, t.kids[p], p, n), Appended(t, p, n), c)
  {
  }

  lemma AttachBelow(t: Tree, p: Addr, n: Addr, a: Addr)
    requires p in t.kids && p in t.level && n !in t.kids
    requires a == n || (a in t.kids && Below(t, a))
    ensures a in Appended(t, p, n).kids && Below(Appended(t, p, n), a)
  {
  }

  lemma AttachLive(m: Nodes, s: seq<Addr>, p: Addr, n: Addr, a: Addr)
    requires p in m && n in m && (s != [] ==> s[|s| - 1] in m) && Live(m, a)
    ensures Live(Attached(m, s, p, n), a)
  {
  }

  /** Linking a fresh leaf as the last child of p gives the tree with it appended. */
  lemma AttachKeepsTree(m: Nodes, t: Tree, root: Addr, p: Addr, n: Addr)
    requires TreeOk(m, t, root) && p in t.kids
    requires n in m && n != NULL && n !in t.kids && m[n].child == NULL && m[n].next == NULL && !m[n].dangling
    ensures p in m && (t.kids[p] != [] ==> t.kids[p][|t.kids[p]| - 1] in m)
    ensures TreeOk(Attached(m, t.kids[p], p, n), Appended(t, p, n), root)
  {
    hide Linked, Hangs, Below;
    var s := t.kids[p];
    assert Below(t, p) && Live(m, p) && Linked(m, p, s);
    LastIsLive(m, t, root, p);
    var m1, t1 := Attached(m, s, p, n), Appended(t, p, n);
    forall a | a in t1.kids ensures Linked(m1, a, t1.kids[a]) {
      if a == p {
        LevelsApart(t, p);
        KidsAreNodes(t, p);
        AttachLinks(m, p, s, n);
      } else if a == n {
        LeafIsLinked(m1, n);
      } else {
        assert Linked(m, a, t.kids[a]) && Below(t, a);
        KidsAreNodes(t, a);
        AttachFrame(m, p, s, n, a, t.kids[a]);
      }
    }
    forall a | a in t1.kids ensures Below(t1, a) {
      assert a != n ==> Below(t, a);
      AttachBelow(t, p, n, a);
    }
    forall a | a in t1.kids ensures Live(m1, a) {
      assert a != n ==> Live(m, a);
      AttachLive(m, s, p, n, a);
    }
    forall c | c in t1.kids && c != root ensures Hangs(m1, t1, c) {
      assert c != n ==> Hangs(m, t, c);
      AttachHangs(m, t, p, n, c);
    }
  }

  lemma KidsAreNodes(t: Tree, a: Addr)
    requires a in t.kids && Below(t, a)
    ensures forall c | c in t.kids[a] :: c in t.kids
  {
  }

  lemma LastIsLive(m: Nodes, t: Tree, root: Addr, p: Addr)
    requires TreeOk(m, t, root) && p in t.kids
    ensures t.kids[p] != [] ==> t.kids[p][|t.kids[p]| - 1] in m
  {
    var s := t.kids[p];
    assert Below(t, p);
    if s != [] {
      assert s[|s| - 1] in s;
      assert Live(m, s[|s| - 1]);
    }
  }

  lemma LeafIsLinked(m: Nodes, n: Addr)
    requires n in m && m[n].child == NULL
    ensures Linked(m, n, [])
  {
  }

  // ----- uninstalling -----

  function Without(s: seq<Addr>, i: nat): (r: seq<Addr>)
    requires i < |s|
    ensures |r| == |s| - 1
  {
    s[..i] + s[i + 1..]
  }

  /** The shape without p's child number i, which has no children. */
  function Pruned(t: Tree, p: Addr, i: nat): Tree
    requires p in t.kids && i < |t.kids[p]|
  {
    var n := t.kids[p][i];
    Tree(t.kids[p := Without(t.kids[p], i)] - {n}, t.level - {n})
  }

  /** The records once p's child number i has been skipped over. */
  function Skipped(m: Nodes, p: Addr, s: seq<Addr>, i: nat): Nodes
    requires i < |s| && p in m && s[i] in m && (i > 0 ==> s[i - 1] in m)
  {
    if i == 0 then m[p := m[p].(child := m[s[i]].next)]
    else m[s[i - 1] := m[s[i - 1]].(next := m[s[i]].next)]
  }

  /** Two memories that agree on every record but n. */
  ghost predicate SameOff(m0: Nodes, m1: Nodes, n: Addr) {
    forall a | a != n :: (a in m0 <==> a in m1) && (a in m0 ==> m0[a] == m1[a])
  }

  lemma WithoutElements(s: seq<Addr>, i: nat)
    requires i < |s| && NoDup(s)
    ensures NoDup(Without(s, i))
    ensures forall c :: c in Without(s, i) <==> c in s && c != s[i]
  {
    var r := Without(s, i);
    forall c ensures c in r <==> c in s && c != s[i] {
      if c in s && c != s[i] {
        var j :| 0 <= j < |s| && s[j] == c;
        assert r[if j < i then j else j - 1] == c;
      }
      if c in r {
        var j :| 0 <= j < |r| && r[j] == c;
        assert s[if j < i then j else j + 1] == c;
      }
    }
  }

  lemma SkipLinks(m: Nodes, p: Addr, s: seq<Addr>, i: nat, m2: Nodes)
    requires Linked(m, p, s) && i < |s| && p !in s && s[i] in m && (i > 0 ==> s[i - 1] in m)
    requires SameOff(Skipped(m, p, s, i), m2, s[i])
    ensures Linked(m2, p, Without(s, i))
  {
    WithoutElements(s, i);
    var r := Without(s, i);
    assert LinkedAt(m, p, s, i);
    forall j | 0 <= j < |r| ensures LinkedAt(m2, p, r, j) {
      assert LinkedAt(m, p, s, if j < i then j else j + 1);
      assert r[j] in r;
    }
  }

  lemma SkipFrame(m: Nodes, p: Addr, s: seq<Addr>, i: nat, m2: Nodes, a: Addr, k: seq<Addr>)
    requires Linked(m, p, s) && i < |s| && s[i] in m && (i > 0 ==> s[i - 1] in m)
    requires Linked(m, a, k) && a != p && a != s[i]
    requires SameOff(Skipped(m, p, s, i), m2, s[i])
    ensures Linked(m2, a, k)
  {
    assert LinkedAt(m, p, s, i);
    assert i > 0 ==> LinkedAt(m, p, s, i - 1);
    forall j | 0 <= j < |k| ensures LinkedAt(m2, a, k, j) {
      assert LinkedAt(m, a, k, j);
    }
  }

  lemma SkipHangs(m: Nodes, t: Tree, p: Addr, i: nat, m2: Nodes, c: Addr)
    requires p in t.kids && p in m && i < |t.kids[p]| && NoDup(t.kids[p])
    requires t.kids[p][i] in m && (i > 0 ==> t.kids[p][i - 1] in m)
    requires SameOff(Skipped(m, p, t.kids[p], i), m2, t.kids[p][i])
    requires Hangs(m, t, c) && c != t.kids[p][i] && p != t.kids[p][i]
    requires t.kids[p][i] in t.kids && t.kids[t.kids[p][i]] == []
    ensures Hangs(m2, Pruned(t, p, i), c)
  {
    WithoutElements(t.kids[p], i);
  }

  lemma SkipBelow(t: Tree, p: Addr, i: nat, a: Addr)
    requires p in t.kids && i < |t.kids[p]| && NoDup(t.kids[p])
    requires a in t.kids && a != t.kids[p][i] && Below(t, a)
    requires a == p || t.kids[p][i] !in t.kids[a]
    ensures a in Pruned(t, p, i).kids && Below(Pruned(t, p, i), a)
  {
    WithoutElements(t.kids[p], i);
  }

  lemma SkipLive(m: Nodes, p: Addr, s: seq<Addr>, i: nat, m2: Nodes, a: Addr)
    requires i < |s| && p in m && s[i] in m && (i > 0 ==> s[i - 1] in m)
    requires SameOff(Skipped(m, p, s, i), m2, s[i]) && a != s[i] && Live(m, a)
    ensures Live(m2, a)
  {
  }

  /** What TreeOk says of a child, in one place. */
  lemma ChildFacts(m: Nodes, t: Tree, root: Addr, p: Addr, i: nat)
    requires TreeOk(m, t, root) && p in t.kids && i < |t.kids[p]|
    ensures var s := t.kids[p];
            && NoDup(s) && p in m && p !in s && Linked(m, p, s)
            && s[i] in t.kids && s[i] in m && s[i] != root && s[i] != p
            && (i > 0 ==> s[i - 1] in m && s[i - 1] in t.kids)
            && m[s[i]].parent == p && m[s[i]].next == At(s, i + 1) && m[s[i]].child == At(t.kids[s[i]], 0)
            && t.level[s[i]] == t.level[p] + 1
  {
    var s := t.kids[p];
    assert Linked(m, p, s) && Below(t, p);
    assert LinkedAt(m, p, s, i);
    assert s[i] in s;
    assert Linked(m, s[i], t.kids[s[i]]);
    if i > 0 {
      assert s[i - 1] in s;
      assert LinkedAt(m, p, s, i - 1);
    }
  }

  /** Skipping over a childless node, whatever becomes of its record, gives the tree without it. */
  lemma SkipKeepsTree(m: Nodes, t: Tree, root: Addr, p: Addr, i: nat, m2: Nodes)
    requires TreeOk(m, t, root) && p in t.kids && i < |t.kids[p]|
    requires t.kids[p][i] in t.kids && t.kids[t.kids[p][i]] == []
    requires p in m && t.kids[p][i] in m && (i > 0 ==> t.kids[p][i - 1] in m)
    requires SameOff(Skipped(m, p, t.kids[p], i), m2, t.kids[p][i])
    ensures TreeOk(m2, Pruned(t, p, i), root)
  {
    ChildFacts(m, t, root, p, i);
    hide Linked, Hangs, Below, Live, NoDup, SameOff;
    var s, t1 := t.kids[p], Pruned(t, p, i);
    forall a | a in t1.kids ensures Linked(m2, a, t1.kids[a]) {
      if a == p {
        SkipLinks(m, p, s, i, m2);
      } else {
        assert Linked(m, a, t.kids[a]);
        SkipFrame(m, p, s, i, m2, a, t.kids[a]);
      }
    }
    forall a | a in t1.kids ensures Below(t1, a) {
      assert Linked(m, a, t.kids[a]) && Below(t, a);
      if a != p && s[i] in t.kids[a] {
        ChildOf(m, a, t.kids[a], s[i]);
      }
      SkipBelow(t, p, i, a);
    }
    forall a | a in t1.kids ensures Live(m2, a) {
      assert Live(m, a);
      SkipLive(m, p, s, i, m2, a);
    }
    forall c | c in t1.kids && c != root ensures Hangs(m2, t1, c) {
      assert Hangs(m, t, c);
      SkipHangs(m, t, p, i, m2, c);
    }
    SkipRoot(m, p, s, i, m2, root);
  }

  lemma SkipRoot(m: Nodes, p: Addr, s: seq<Addr>, i: nat, m2: Nodes, root: Addr)
    requires i < |s| && p in m && s[i] in m && (i > 0 ==> s[i - 1] in m) && root in m && root != s[i]
    requires SameOff(Skipped(m, p, s, i), m2, s[i])
    ensures root in m2 && m2[root].parent == m[root].parent
  {
  }
}
