/** The event queue of kernel/multitasking/events.c.  Order(tree) is the queue that the tree
    stands for: earliest first, and first come first served among equal times.  The records are
    kept in a map from addresses to records, so that every store goes through an address as in
    the original. */
module EventQueue {
  import opened EventTree

  // ---------- the queue as a sequence ----------

  ghost predicate NotBefore(m: Records, e: Addr, q: seq<Addr>)
  {
    e in m && forall x | x in q :: x in m && m[e].time <= m[x].time
  }

  ghost predicate SortedByTime(m: Records, q: seq<Addr>)
  {
    q != [] ==> NotBefore(m, q[0], q[1..]) && SortedByTime(m, q[1..])
  }

  lemma {:induction false} SortedPair(m: Records, q: seq<Addr>, i: nat, j: nat)
    requires SortedByTime(m, q) && i <= j < |q|
    ensures q[i] in m && q[j] in m && m[q[i]].time <= m[q[j]].time
  {
    if i > 0 {
      SortedPair(m, q[1..], i - 1, j - 1);
    } else if j > 0 {
      assert q[j] == q[1..][j - 1] && q[j] in q[1..];
    }
  }

  /** e belongs between pre and post: after every event that is not later than it. */
  ghost predicate Fits(m: Records, pre: seq<Addr>, e: Addr, post: seq<Addr>)
  {
    && e in m
    && (forall x | x in pre :: x in m && m[x].time <= m[e].time)
    && (forall x | x in post :: x in m && m[e].time < m[x].time)
  }

  /** The stable sorted queue with e added. */
  ghost function Insert(m: Records, q: seq<Addr>, e: Addr): seq<Addr>
    requires e in m
  {
    if q == [] then [e]
    else if q[0] in m && m[q[0]].time <= m[e].time then [q[0]] + Insert(m, q[1..], e)
    else [e] + q
  }

  /** The queue with e taken out. */
  ghost function Without(q: seq<Addr>, e: Addr): seq<Addr>
  {
    if q == [] then []
    else if q[0] == e then q[1..]
    else [q[0]] + Without(q[1..], e)
  }

  lemma {:induction false} InsertSplit(m: Records, pre: seq<Addr>, e: Addr, post: seq<Addr>)
    requires Fits(m, pre, e, post)
    ensures Insert(m, pre + post, e) == pre + [e] + post
    decreases |pre|
  {
    if pre == [] {
      assert pre + post == post && pre + [e] + post == [e] + post;
      if post != [] { assert post[0] in post; }
    } else {
      assert pre[0] in pre && (pre + post)[1..] == pre[1..] + post;
      InsertSplit(m, pre[1..], e, post);
      assert pre + [e] + post == [pre[0]] + (pre[1..] + [e] + post);
    }
  }

  lemma {:induction false} WithoutSplit(pre: seq<Addr>, e: Addr, post: seq<Addr>)
    requires e !in pre
    ensures Without(pre + [e] + post, e) == pre + post
    decreases |pre|
  {
    var q := pre + [e] + post;
    if pre == [] {
      assert q[1..] == post && pre + post == post;
    } else {
      assert pre[0] in pre && q[1..] == pre[1..] + [e] + post;
      WithoutSplit(pre[1..], e, post);
      assert [pre[0]] + (pre[1..] + post) == pre + post;
    }
  }

  lemma {:induction false} WithoutAbsent(q: seq<Addr>, e: Addr)
    requires e !in q
    ensures Without(q, e) == q
  {
    if q != [] { WithoutAbsent(q[1..], e); }
  }

  lemma {:induction false} InsertMembers(m: Records, q: seq<Addr>, e: Addr, x: Addr)
    requires e in m
    ensures x in Insert(m, q, e) <==> x == e || x in q
  {
    if q != [] { InsertMembers(m, q[1..], e, x); }
  }

  /** Insert keeps the queue sorted. */
  lemma {:induction false} InsertSorted(m: Records, q: seq<Addr>, e: Addr)
    requires SortedByTime(m, q) && e in m
    ensures SortedByTime(m, Insert(m, q, e))
  {
    if q != [] {
      if m[q[0]].time <= m[e].time {
        InsertSorted(m, q[1..], e);
        forall x | x in Insert(m, q[1..], e) ensures x in m && m[q[0]].time <= m[x].time {
          InsertMembers(m, q[1..], e, x);
        }
        assert Insert(m, q, e)[1..] == Insert(m, q[1..], e);
      } else {
        assert forall x | x in q :: x == q[0] || x in q[1..];
        assert Insert(m, q, e)[1..] == q;
      }
    }
  }

  // ---------- going down ----------

  lemma SortedSplit(m: Records, a: seq<Addr>, l: seq<Addr>, e: Addr, r: seq<Addr>, b: seq<Addr>)
    requires SortedByTime(m, a + (l + [e] + r) + b)
    ensures e in m
    ensures forall x | x in l :: x in m && m[x].time <= m[e].time
    ensures forall x | x in r :: x in m && m[e].time <= m[x].time
  {
    var q := a + (l + [e] + r) + b;
    var k := |a| + |l|;
    assert q[k] == e;
    SortedPair(m, q, k, k);
    hide SortedByTime;
    forall x | x in l ensures x in m && m[x].time <= m[e].time {
      var i :| 0 <= i < |l| && l[i] == x;
      assert q[|a| + i] == x;
      SortedPair(m, q, |a| + i, k);
    }
    forall x | x in r ensures x in m && m[e].time <= m[x].time {
      var i :| 0 <= i < |r| && r[i] == x;
      assert q[k + 1 + i] == x;
      SortedPair(m, q, k, k + 1 + i);
    }
  }

  /** One step down the tree towards the place of node. */
  lemma GoDown(m: Records, c: Context, t: Tree, node: Addr)
    requires Shape(m, Plug(c, t), NULL) && SortedByTime(m, Order(Plug(c, t))) && t.Node?
    requires Fits(m, Before(c), node, After(c))
    ensures t.e != NULL && t.e in m && m[t.e].left == Ptr(t.l) && m[t.e].right == Ptr(t.r)
    ensures m[node].time < m[t.e].time ==> Fits(m, Before(c), node, [t.e] + Order(t.r) + After(c))
    ensures m[node].time >= m[t.e].time ==> Fits(m, Before(c) + Order(t.l) + [t.e], node, After(c))
  {
    PlugShape(m, c, t, NULL);
    PlugOrder(c, t);
    assert Order(t) == Order(t.l) + [t.e] + Order(t.r);
    hide Order, Before, After, Plug, ShapeAround, SortedByTime, Fits;
    SortedSplit(m, Before(c), Order(t.l), t.e, Order(t.r), After(c));
    FitsDown(m, Before(c), Order(t.l), t.e, Order(t.r), After(c), node);
  }

  lemma FitsDown(m: Records, a: seq<Addr>, l: seq<Addr>, e: Addr, r: seq<Addr>, b: seq<Addr>, node: Addr)
    requires Fits(m, a, node, b) && e in m
    requires forall x | x in l :: x in m && m[x].time <= m[e].time
    requires forall x | x in r :: x in m && m[e].time <= m[x].time
    ensures node in m
    ensures m[node].time < m[e].time ==> Fits(m, a, node, [e] + r + b)
    ensures m[node].time >= m[e].time ==> Fits(m, a + l + [e], node, b)
  {
  }

  /** Comparing with the holder tells which side of it the place is on. */
  lemma Side(m: Records, c: Context, node: Addr)
    requires Fits(m, Before(c), node, After(c))
    ensures c.InLeft? ==> c.e in m && m[node].time < m[c.e].time
    ensures c.InRight? ==> c.e in m && m[c.e].time <= m[node].time
  {
    if c.InLeft? { assert After(c)[0] == c.e; }
    if c.InRight? { assert Before(c)[|Before(c)| - 1] == c.e; }
  }

  // ---------- stores into the records ----------

  function SetLeft(m: Records, e: Addr, v: Addr): (r: Records)
    requires e in m
    ensures SameKeys(m, r) && forall x | x in m && x != e :: r[x] == m[x]
  {
    m[e := m[e].(left := v)]
  }

  function SetRight(m: Records, e: Addr, v: Addr): (r: Records)
    requires e in m
    ensures SameKeys(m, r) && forall x | x in m && x != e :: r[x] == m[x]
  {
    m[e := m[e].(right := v)]
  }

  function SetParent(m: Records, e: Addr, v: Addr): (r: Records)
    requires e in m
    ensures SameKeys(m, r) && forall x | x in m && x != e :: r[x] == m[x]
  {
    m[e := m[e].(parent := v)]
  }

  /** Times and flags are the same in both memories. */
  ghost predicate SameKeys(m: Records, m': Records)
  {
    m'.Keys == m.Keys && forall e | e in m :: m'[e].time == m[e].time && m'[e].enqueued == m[e].enqueued
  }

  lemma SameKeysTrans(m: Records, m1: Records, m2: Records)
    requires SameKeys(m, m1) && SameKeys(m1, m2)
    ensures SameKeys(m, m2)
  {
  }

  /** The records after bst_transplant(u, v). */
  ghost function Transplanted(m: Records, u: Addr, v: Addr): (r: Records)
    requires u in m && (m[u].parent != NULL ==> m[u].parent in m) && (v != NULL ==> v in m)
    ensures SameKeys(m, r)
  {
    var p := m[u].parent;
    var m1 := if p == NULL then m else if m[p].left == u then SetLeft(m, p, v) else SetRight(m, p, v);
    if v == NULL then m1 else SetParent(m1, v, p)
  }

  /** u fills the hole of c. */
  ghost predicate FillsHole(m: Records, c: Context, top: Addr, u: Addr)
  {
    && ShapeAround(m, c, top, u) && DistinctAround(c) && u != NULL && u !in Around(c)
    && u in m && m[u].parent == Holder(c, top) && (c.Top? ==> top == NULL)
  }

  /** Around the hole that u filled, everything links up again with v in its place. */
  lemma TransplantAround(m: Records, c: Context, top: Addr, u: Addr, v: Addr)
    requires FillsHole(m, c, top, u) && (v != NULL ==> v in m && v !in Around(c))
    ensures m[u].parent != NULL ==> m[u].parent in m
    ensures ShapeAround(Transplanted(m, u, v), c, top, v)
  {
    HolderOfHole(m, c, top, u);
    hide ShapeAround, DistinctAround, Around, Transplanted;
    TransplantStores(m, u, v);
    Rehung(m, Transplanted(m, u, v), c, top, u, v);
  }

  /** ... and nothing else changed. */
  lemma TransplantElsewhere(m: Records, c: Context, top: Addr, u: Addr, v: Addr)
    requires FillsHole(m, c, top, u) && (v != NULL ==> v in m && v !in Around(c))
    ensures m[u].parent != NULL ==> m[u].parent in m
    ensures SameKeys(m, Transplanted(m, u, v))
    ensures forall e | e in m && (v == NULL || e != v) && e !in Around(c) :: Transplanted(m, u, v)[e] == m[e]
    ensures v != NULL ==> Links(Transplanted(m, u, v), v, m[v].left, m[v].right, Holder(c, top))
  {
    HolderOfHole(m, c, top, u);
    hide ShapeAround, DistinctAround, Around, Transplanted;
    TransplantStores(m, u, v);
  }

  lemma HolderOfHole(m: Records, c: Context, top: Addr, u: Addr)
    requires FillsHole(m, c, top, u)
    ensures m[u].parent != NULL ==> m[u].parent in m
    ensures if c.Top? then m[u].parent == NULL
            else m[u].parent == c.e && c.e in m && c.e != NULL && c.e in Around(c) && (m[c.e].left == u <==> c.InLeft?)
  {
    if c != Top { NotTheOther(m, c, top, u); }
  }

  /** What bst_transplant stores where. */
  lemma TransplantStores(m: Records, u: Addr, v: Addr)
    requires u in m && (m[u].parent != NULL ==> m[u].parent in m) && (v != NULL ==> v in m)
    requires v != NULL ==> v != m[u].parent
    ensures var p, m' := m[u].parent, Transplanted(m, u, v);
      && SameKeys(m, m')
      && (forall e | e in m && (v == NULL || e != v) && (p == NULL || e != p) :: m'[e] == m[e])
      && (p != NULL ==> m'[p] == if m[p].left == u then m[p].(left := v) else m[p].(right := v))
      && (v != NULL ==> m'[v] == m[v].(parent := p))
  {
  }

  /** The holder's other child is not u. */
  lemma NotTheOther(m: Records, c: Context, top: Addr, u: Addr)
    requires ShapeAround(m, c, top, u) && c != Top && u !in Around(c) && u != NULL
    ensures c.e in m && c.e != NULL && c.e in Around(c) && (m[c.e].left == u <==> c.InLeft?)
  {
    if c.InRight? && c.l.Node? { assert c.l.e in Elems(c.l); }
  }

  // ---------- deletion ----------

  /** The tree with node at the hole of c. */
  ghost predicate Holds(m: Records, c: Context, l: Tree, node: Addr, r: Tree)
  {
    && FillsHole(m, c, NULL, node) && Links(m, node, Ptr(l), Ptr(r), Holder(c, NULL))
    && Shape(m, l, node) && Shape(m, r, node)
    && Distinct(l) && Distinct(r) && Elems(l) !! Elems(r) && Elems(l) !! Around(c) && Elems(r) !! Around(c)
    && node !in Elems(l) && node !in Elems(r)
  }

  lemma TakeApart(m: Records, c: Context, l: Tree, node: Addr, r: Tree)
    requires Shape(m, Plug(c, Node(l, node, r)), NULL) && Distinct(Plug(c, Node(l, node, r)))
    ensures Holds(m, c, l, node, r)
  {
    PlugShape(m, c, Node(l, node, r), NULL);
    PlugDistinct(c, Node(l, node, r));
  }

  lemma PutTogether(m: Records, c: Context, t: Tree)
    requires ShapeAround(m, c, NULL, Ptr(t)) && Shape(m, t, Holder(c, NULL))
    requires DistinctAround(c) && Distinct(t) && Around(c) !! Elems(t)
    ensures Shape(m, Plug(c, t), NULL) && Distinct(Plug(c, t))
    ensures Ptr(Plug(c, t)) == if c.Top? then Ptr(t) else RootPtr(c, NULL)
  {
    PlugShape(m, c, t, NULL);
    PlugDistinct(c, t);
  }

  lemma PtrInTree(m: Records, t: Tree, parent: Addr)
    requires Shape(m, t, parent)
    ensures Ptr(t) != NULL <==> t.Node?
    ensures t.Node? ==> Ptr(t) in m && Ptr(t) in Elems(t)
  {
  }

  /** A node with at most one subtree is replaced by it. */
  lemma DeleteSimple(m: Records, c: Context, l: Tree, node: Addr, r: Tree, sub: Tree)
    requires Holds(m, c, l, node, r) && ((l.Leaf? && sub == r) || (r.Leaf? && sub == l))
    ensures m[node].parent != NULL ==> m[node].parent in m
    ensures Ptr(sub) != NULL ==> Ptr(sub) in m
    ensures var m' := Transplanted(m, node, Ptr(sub));
      && SameKeys(m, m') && m'[node] == m[node]
      && ShapeAround(m', c, NULL, Ptr(sub)) && Shape(m', sub, Holder(c, NULL))
      && OthersKept(m, m', Around(c) + Elems(sub))
  {
    hide ShapeAround, DistinctAround, Around, Transplanted;
    PtrInTree(m, sub, node);
    assert Ptr(sub) != NULL ==> Ptr(sub) !in Around(c);
    hide Shape, Elems;
    TransplantAround(m, c, NULL, node, Ptr(sub));
    TransplantElsewhere(m, c, NULL, node, Ptr(sub));
    Reparented(m, Transplanted(m, node, Ptr(sub)), sub, node, Holder(c, NULL));
  }

  /** Records outside s did not change at all. */
  ghost predicate OthersKept(m: Records, m': Records, s: set<Addr>)
  {
    forall e | e in m && e !in s :: e in m' && m'[e] == m[e]
  }

  /** Taking the minimum y of the right subtree out of it: y sits in d, below the root of that
      subtree, and has no left child. */
  lemma DetachMin(m: Records, d: Context, node: Addr, y: Addr, rr: Tree)
    requires d != Top && Shape(m, Plug(d, Node(Leaf, y, rr)), node) && Distinct(Plug(d, Node(Leaf, y, rr)))
    ensures y in m && y != NULL && m[y].left == NULL && m[y].right == Ptr(rr) && m[y].parent == d.e
    ensures m[y].parent != NULL ==> m[y].parent in m
    ensures Ptr(rr) != NULL ==> Ptr(rr) in m
    ensures var m', r' := Transplanted(m, y, Ptr(rr)), Plug(d, rr);
      && SameKeys(m, m') && Shape(m', r', node) && OthersKept(m, m', Elems(r')) && m'[y] == m[y]
      && Ptr(r') == Ptr(Plug(d, Node(Leaf, y, rr))) && r'.Node?
  {
    var t := Node(Leaf, y, rr);
    PlugShape(m, d, t, node);
    PlugDistinct(d, t);
    PlugElems(d, rr);
    PtrInTree(m, rr, y);
    assert FillsHole(m, d, node, y);
    assert Ptr(rr) != NULL ==> Ptr(rr) !in Around(d) && Ptr(rr) != y;
    assert Distinct(rr) && Shape(m, rr, y) && y !in Elems(rr);
    PlugIsNode(d, rr);
    hide ShapeAround, DistinctAround, Around, Transplanted, Shape, Elems, Plug, FillsHole;
    DetachedShape(m, d, node, y, rr);
  }

  lemma DetachedShape(m: Records, d: Context, node: Addr, y: Addr, rr: Tree)
    requires d != Top && FillsHole(m, d, node, y)
      && (Ptr(rr) != NULL ==> Ptr(rr) in m && Ptr(rr) !in Around(d) && Ptr(rr) != y)
    requires Distinct(rr) && Shape(m, rr, y) && Elems(rr) !! Around(d) && y !in Elems(rr)
    requires rr.Node? <==> Ptr(rr) != NULL
    ensures m[y].parent != NULL ==> m[y].parent in m
    ensures var m' := Transplanted(m, y, Ptr(rr));
      && SameKeys(m, m') && Shape(m', Plug(d, rr), node) && OthersKept(m, m', Around(d) + Elems(rr)) && m'[y] == m[y]
  {
    var m' := Transplanted(m, y, Ptr(rr));
    assert y !in Around(d);
    assert rr.Node? ==> Ptr(rr) in Elems(rr);
    hide ShapeAround, DistinctAround, Around, Transplanted, Shape, Elems, Plug;
    TransplantAround(m, d, node, y, Ptr(rr));
    TransplantElsewhere(m, d, node, y, Ptr(rr));
    Reparented(m, m', rr, y, Holder(d, node));
    PlugShape(m', d, rr, node);
  }

  lemma {:induction false} PlugIsNode(d: Context, t: Tree)
    requires d != Top
    ensures Plug(d, t).Node? && Ptr(Plug(d, t)) == RootPtr(d, NULL)
    ensures forall hole :: RootPtr(d, hole) == RootPtr(d, NULL)
    decreases d
  {
    if d.up != Top {
      PlugIsNode(d.up, if d.InLeft? then Node(t, d.e, d.r) else Node(d.l, d.e, t));
    }
  }

  /** y takes the place of node, with l as its left subtree and rx as its right one. */
  lemma FinishDelete(m: Records, c: Context, l: Tree, node: Addr, y: Addr, rx: Tree)
    requires FillsHole(m, c, NULL, node) && m[node].left == Ptr(l) && l.Node? && Shape(m, l, node) && Distinct(l)
    requires y in m && y != NULL && y != node && m[y].right == Ptr(rx) && Shape(m, rx, y)
    requires y !in Around(c) && y !in Elems(l) && y !in Elems(rx) && node !in Elems(l) && node !in Elems(rx)
    requires Elems(l) !! Around(c) && Elems(rx) !! Around(c) && Elems(l) !! Elems(rx)
    ensures m[node].parent != NULL ==> m[node].parent in m
    ensures Ptr(l) in Transplanted(m, node, y) && node in Transplanted(m, node, y) && y in Transplanted(m, node, y)
    ensures var m1 := Transplanted(m, node, y); m1[node].left == Ptr(l)
    ensures var m' := SetParent(SetLeft(Transplanted(m, node, y), y, Ptr(l)), Ptr(l), y);
      && SameKeys(m, m') && m'[node] == m[node] && OthersKept(m, m', Around(c) + Elems(l) + {y})
      && ShapeAround(m', c, NULL, y) && Shape(m', Node(l, y, rx), Holder(c, NULL))
  {
    PtrInTree(m, l, node);
    assert Ptr(l) != y;
    hide ShapeAround, DistinctAround, Around, Transplanted, Shape, Elems;
    TransplantAround(m, c, NULL, node, y);
    TransplantElsewhere(m, c, NULL, node, y);
    var m1 := Transplanted(m, node, y);
    ShapeFrame(m, m1, l, node);
    ShapeFrame(m, m1, rx, y);
    Adopt(m1, c, l, node, y, rx);
    SameKeysTrans(m, m1, SetParent(SetLeft(m1, y, Ptr(l)), Ptr(l), y));
    hide SameKeys, SetLeft, SetParent;
  }

  /** y adopts l. */
  lemma Adopt(m: Records, c: Context, l: Tree, node: Addr, y: Addr, rx: Tree)
    requires ShapeAround(m, c, NULL, y) && l.Node? && l.e in m && l.e != NULL && Shape(m, l, node) && Distinct(l)
      && l.e in Elems(l)
    requires y in m && y != NULL && m[y].right == Ptr(rx) && m[y].parent == Holder(c, NULL) && Shape(m, rx, y)
    requires y !in Around(c) && y !in Elems(l) && y !in Elems(rx)
    requires Elems(l) !! Around(c) && Elems(l) !! Elems(rx)
    ensures var m' := SetParent(SetLeft(m, y, l.e), l.e, y);
      && SameKeys(m, m') && OthersKept(m, m', {l.e, y})
      && ShapeAround(m', c, NULL, y) && Shape(m', Node(l, y, rx), Holder(c, NULL))
  {
    AdoptStores(m, y, l.e);
    var m' := SetParent(SetLeft(m, y, l.e), l.e, y);
    assert Links(m, l.e, Ptr(l.l), Ptr(l.r), node);
    hide ShapeAround, Around, Elems, SetLeft, SetParent, Shape;
    Reparented(m, m', l, node, y);
    AdoptedRest(m, m', c, l.e, y, rx, Elems(l));
    NodeShape(m', l, y, rx, Holder(c, NULL));
  }

  lemma NodeShape(m: Records, l: Tree, e: Addr, r: Tree, parent: Addr)
    requires Links(m, e, Ptr(l), Ptr(r), parent) && Shape(m, l, e) && Shape(m, r, e)
    ensures Shape(m, Node(l, e, r), parent)
  {
  }

  lemma AdoptedRest(m: Records, m': Records, c: Context, x: Addr, y: Addr, rx: Tree, l: set<Addr>)
    requires ShapeAround(m, c, NULL, y) && Shape(m, rx, y) && OthersKept(m, m', {x, y})
    requires x in l && l !! Around(c) && l !! Elems(rx) && y !in Around(c) && y !in Elems(rx)
    ensures ShapeAround(m', c, NULL, y) && Shape(m', rx, y)
  {
    hide ShapeAround, Shape;
    ShapeFrame(m, m', rx, y);
    AroundFrame(m, m', c, NULL, y);
  }

  lemma AdoptStores(m: Records, y: Addr, x: Addr)
    requires y in m && x in m && x != y
    ensures var m' := SetParent(SetLeft(m, y, x), x, y);
      && SameKeys(m, m') && OthersKept(m, m', {x, y})
      && m'[y] == m[y].(left := x) && m'[x] == m[x].(parent := y)
  {
  }

  /** All that replacing node by y needs. */
  ghost predicate Ready(m: Records, c: Context, l: Tree, node: Addr, y: Addr, rx: Tree)
  {
    && FillsHole(m, c, NULL, node) && m[node].left == Ptr(l) && l.Node? && Shape(m, l, node) && Distinct(l)
    && y in m && y != NULL && y != node && m[y].right == Ptr(rx) && Shape(m, rx, y) && Distinct(rx)
    && y !in Around(c) && y !in Elems(l) && y !in Elems(rx) && node !in Elems(l) && node !in Elems(rx)
    && Elems(l) !! Around(c) && Elems(rx) !! Around(c) && Elems(l) !! Elems(rx)
  }

  lemma ReadyAtOnce(m: Records, c: Context, l: Tree, node: Addr, y: Addr, rr: Tree)
    requires Holds(m, c, l, node, Node(Leaf, y, rr)) && l.Node?
    ensures Ready(m, c, l, node, y, rr)
    ensures Order(Node(Leaf, y, rr)) == [y] + Order(rr) && Elems(Node(Leaf, y, rr)) == {y} + Elems(rr)
  {
  }

  /** The records after y was detached and took over the right subtree of node. */
  ghost function Detached(m: Records, node: Addr, y: Addr, v: Addr): Records
    requires y in m && (m[y].parent != NULL ==> m[y].parent in m) && (v != NULL ==> v in m)
    requires node in m && m[node].right in m
  {
    SetParent(SetRight(Transplanted(m, y, v), y, m[node].right), m[node].right, y)
  }

  lemma ReadyAfterDetach(m: Records, c: Context, l: Tree, node: Addr, d: Context, y: Addr, rr: Tree)
    requires d != Top && Before(d) == [] && l.Node?
    requires Holds(m, c, l, node, Plug(d, Node(Leaf, y, rr)))
    ensures y in m && m[y].right == Ptr(rr) && m[y].parent != node && m[y].parent != NULL
    ensures (m[y].parent != NULL ==> m[y].parent in m) && (Ptr(rr) != NULL ==> Ptr(rr) in m)
    ensures node in m && m[node].right in m && m[node].right != NULL
      && Transplanted(m, y, Ptr(rr))[node].right == m[node].right
    ensures var m' := Detached(m, node, y, Ptr(rr));
      Ready(m', c, l, node, y, Plug(d, rr)) && SameKeys(m, m') && OthersKept(m, m', Elems(Plug(d, Node(Leaf, y, rr))))
    ensures Order(Plug(d, Node(Leaf, y, rr))) == [y] + Order(Plug(d, rr))
    ensures Elems(Plug(d, Node(Leaf, y, rr))) == {y} + Elems(Plug(d, rr)) && y !in Elems(Plug(d, rr))
  {
    var r, rx := Plug(d, Node(Leaf, y, rr)), Plug(d, rr);
    DetachMin(m, d, node, y, rr);
    DetachOrder(d, y, rr);
    MinimumBelow(m, d, node, y, rr);
    PtrInTree(m, r, node);
    var m1 := Transplanted(m, y, Ptr(rr));
    PtrInTree(m1, rx, node);
    assert m1[node] == m[node];
    TakeOver(m, m1, c, l, node, y, rx);
  }

  lemma MinimumBelow(m: Records, d: Context, node: Addr, y: Addr, rr: Tree)
    requires d != Top && Shape(m, Plug(d, Node(Leaf, y, rr)), node) && node !in Elems(Plug(d, Node(Leaf, y, rr)))
    ensures d.e != node && d.e != NULL
  {
    PlugElems(d, Node(Leaf, y, rr));
    PlugShape(m, d, Node(Leaf, y, rr), node);
  }

  lemma DetachOrder(d: Context, y: Addr, rr: Tree)
    requires Before(d) == [] && Distinct(Plug(d, Node(Leaf, y, rr)))
    ensures Order(Plug(d, Node(Leaf, y, rr))) == [y] + Order(Plug(d, rr))
    ensures Elems(Plug(d, Node(Leaf, y, rr))) == {y} + Elems(Plug(d, rr)) && y !in Elems(Plug(d, rr))
    ensures Distinct(Plug(d, rr))
  {
    PlugElems(d, Node(Leaf, y, rr));
    PlugElems(d, rr);
    PlugDistinct(d, Node(Leaf, y, rr));
    PlugDistinct(d, rr);
    assert Elems(Node(Leaf, y, rr)) == {y} + Elems(rr);
    hide Elems, Around, Distinct, DistinctAround, Plug;
    DetachOrderOnly(d, y, rr);
  }

  lemma DetachOrderOnly(d: Context, y: Addr, rr: Tree)
    requires Before(d) == []
    ensures Order(Plug(d, Node(Leaf, y, rr))) == [y] + Order(Plug(d, rr))
  {
    PlugOrder(d, Node(Leaf, y, rr));
    PlugOrder(d, rr);
    assert Order(Node(Leaf, y, rr)) == [y] + Order(rr);
    hide Order, Plug, After, Before;
    Regroup([], [y], [], Order(rr), After(d));
    assert [y] + [] + Order(rr) == [y] + Order(rr) && [] + Order(rr) + After(d) == Order(rr) + After(d);
  }

  /** y takes over the right subtree rx. */
  lemma TakeOver(m: Records, m1: Records, c: Context, l: Tree, node: Addr, y: Addr, rx: Tree)
    requires FillsHole(m, c, NULL, node) && m[node].left == Ptr(l) && l.Node? && Shape(m, l, node) && Distinct(l)
    requires SameKeys(m, m1) && OthersKept(m, m1, Elems(rx)) && Shape(m1, rx, node) && rx.Node? && Distinct(rx)
    requires rx.e in m1 && rx.e != NULL && m1[node] == m[node] && m[node].right == rx.e
    requires y in m && y != NULL && y != node
    requires y !in Around(c) && y !in Elems(l) && y !in Elems(rx) && node !in Elems(l) && node !in Elems(rx)
    requires Elems(l) !! Around(c) && Elems(rx) !! Around(c) && Elems(l) !! Elems(rx) && rx.e in Elems(rx)
    ensures var m' := SetParent(SetRight(m1, y, rx.e), rx.e, y);
      Ready(m', c, l, node, y, rx) && SameKeys(m, m') && OthersKept(m, m', Elems(rx) + {y})
  {
    TakeOverStores(m1, y, rx.e);
    var m' := SetParent(SetRight(m1, y, rx.e), rx.e, y);
    SameKeysTrans(m, m1, m');
    hide SetRight, SetParent, SameKeys, ShapeAround, Around, Elems;
    assert Links(m1, rx.e, Ptr(rx.l), Ptr(rx.r), node);
    TakenOver(m, m1, m', c, l, node, y, rx);
  }

  lemma TakenOver(m: Records, m1: Records, m': Records, c: Context, l: Tree, node: Addr, y: Addr, rx: Tree)
    requires FillsHole(m, c, NULL, node) && m[node].left == Ptr(l) && l.Node? && Shape(m, l, node) && Distinct(l)
    requires OthersKept(m, m1, Elems(rx)) && Shape(m1, rx, node) && rx.Node? && Distinct(rx)
    requires rx.e in m1 && Links(m1, rx.e, Ptr(rx.l), Ptr(rx.r), node)
    requires OthersKept(m1, m', {rx.e, y}) && rx.e in m' && m'[rx.e] == m1[rx.e].(parent := y) && y in m'
      && m'[y].right == rx.e
    requires y in m && y != NULL && y != node
    requires y !in Around(c) && y !in Elems(l) && y !in Elems(rx) && node !in Elems(l) && node !in Elems(rx)
    requires Elems(l) !! Around(c) && Elems(rx) !! Around(c) && Elems(l) !! Elems(rx) && rx.e in Elems(rx)
    ensures Ready(m', c, l, node, y, rx) && OthersKept(m, m', Elems(rx) + {y})
  {
    hide ShapeAround, Around, Elems, Shape, Distinct;
    Reparented(m1, m', rx, node, y);
    TookOver(m, m', c, l, node, y, Elems(rx));
  }

  lemma TookOver(m: Records, m': Records, c: Context, l: Tree, node: Addr, y: Addr, rx: set<Addr>)
    requires FillsHole(m, c, NULL, node) && m[node].left == Ptr(l) && Shape(m, l, node)
    requires OthersKept(m, m', rx + {y}) && rx !! Around(c) && rx !! Elems(l) && node !in rx && node != y
    requires y !in Around(c) && y !in Elems(l)
    ensures FillsHole(m', c, NULL, node) && m'[node].left == Ptr(l) && Shape(m', l, node)
  {
    hide ShapeAround, Shape;
    ShapeFrame(m, m', l, node);
    AroundFrame(m, m', c, NULL, node);
  }

  lemma TakeOverStores(m: Records, y: Addr, x: Addr)
    requires y in m && x in m && x != y
    ensures var m' := SetParent(SetRight(m, y, x), x, y);
      && SameKeys(m, m') && OthersKept(m, m', {x, y})
      && m'[y] == m[y].(right := x) && m'[x] == m[x].(parent := y)
  {
  }

  /** The queue after node was taken out of its place. */
  lemma DeletedOrder(c: Context, l: Tree, node: Addr, r: Tree, t: Tree)
    requires Distinct(Plug(c, Node(l, node, r))) && Order(t) == Order(l) + Order(r)
    ensures Order(Plug(c, t)) == Without(Order(Plug(c, Node(l, node, r))), node)
  {
    PlugDistinct(c, Node(l, node, r));
    PlugOrder(c, Node(l, node, r));
    PlugOrder(c, t);
    AroundElems(c, node);
    OrderElems(l, node);
    assert Order(Node(l, node, r)) == Order(l) + [node] + Order(r);
    RemoveMiddle(Before(c), Order(l), node, Order(r), After(c));
  }

  lemma RemoveMiddle(a: seq<Addr>, l: seq<Addr>, x: Addr, r: seq<Addr>, b: seq<Addr>)
    requires x !in a && x !in l
    ensures Without(a + (l + [x] + r) + b, x) == a + (l + r) + b
  {
    hide Without;
    Regroup(a, l, [x], r, b);
    WithoutSplit(a + l, x, r + b);
    assert (a + l) + (r + b) == a + (l + r) + b;
  }

  lemma Regroup(a: seq<Addr>, l: seq<Addr>, x: seq<Addr>, r: seq<Addr>, b: seq<Addr>)
    ensures a + (l + x + r) + b == (a + l) + x + (r + b)
  {
  }

  lemma DeletedElems(c: Context, l: Tree, node: Addr, r: Tree, t: Tree)
    requires Distinct(Plug(c, Node(l, node, r))) && Elems(t) == Elems(l) + Elems(r)
    ensures Elems(Plug(c, t)) == Elems(Plug(c, Node(l, node, r))) - {node}
    ensures Around(c) <= Elems(Plug(c, Node(l, node, r))) && Elems(t) <= Elems(Plug(c, Node(l, node, r)))
  {
    PlugDistinct(c, Node(l, node, r));
    PlugElems(c, Node(l, node, r));
    PlugElems(c, t);
  }

  lemma MinimumStep(m: Records, d: Context, t: Tree, parent: Addr)
    requires Shape(m, Plug(d, t), parent) && t.Node?
    ensures t.e in m && t.e != NULL && m[t.e].left == Ptr(t.l) && (m[t.e].left == NULL <==> t.l.Leaf?)
  {
    PlugShape(m, d, t, parent);
    PtrInTree(m, t.l, t.e);
  }

  lemma RootIs(m: Records, c: Context, l: Tree, node: Addr, r: Tree)
    requires Holds(m, c, l, node, r)
    ensures c.Top? <==> m[node].parent == NULL
    ensures Ptr(Plug(c, Node(l, node, r))) == if c.Top? then node else RootPtr(c, NULL)
  {
    HolderOfHole(m, c, NULL, node);
    if c != Top { PlugIsNode(c, Node(l, node, r)); }
  }

  lemma MinimumAtTop(m: Records, node: Addr, y: Addr, rr: Tree)
    requires Shape(m, Node(Leaf, y, rr), node)
    ensures y in m && m[y].parent == node
  {
  }

  lemma PlugTop(t: Tree)
    ensures Plug(Top, t) == t
  {
  }

  lemma SubtreeOfLeaf(l: Tree, r: Tree)
    ensures l.Leaf? ==> Order(r) == Order(l) + Order(r) && Elems(r) == Elems(l) + Elems(r)
    ensures r.Leaf? ==> Order(l) == Order(l) + Order(r) && Elems(l) == Elems(l) + Elems(r)
  {
  }

  lemma KeptWider(m: Records, m': Records, s: set<Addr>, s': set<Addr>)
    requires OthersKept(m, m', s) && s <= s'
    ensures OthersKept(m, m', s')
  {
  }

  /** The tree after y has taken the place of node, from the records m1 in which it is ready to. */
  lemma Replaced(m: Records, m1: Records, c: Context, l: Tree, node: Addr, r: Tree, y: Addr, rx: Tree)
    requires Distinct(Plug(c, Node(l, node, r))) && Ready(m1, c, l, node, y, rx)
    requires Order(r) == [y] + Order(rx) && Elems(r) == {y} + Elems(rx)
    requires SameKeys(m, m1) && OthersKept(m, m1, Elems(r))
    ensures node in m1 && (m1[node].parent != NULL ==> m1[node].parent in m1)
    ensures c.Top? <==> m1[node].parent == NULL
    ensures y in m1 && y != NULL && Ptr(l) != NULL && Ptr(l) in m1
    ensures var m2 := Transplanted(m1, node, y);
      && node in m1 && node in m2 && y in m2 && m2[node].left == Ptr(l)
      && Ptr(l) in SetLeft(m2, y, Ptr(l)) && y in SetLeft(m2, y, Ptr(l)) && SetLeft(m2, y, Ptr(l))[y].left == Ptr(l)
    ensures var m', t := SetParent(SetLeft(Transplanted(m1, node, y), y, Ptr(l)), Ptr(l), y), Plug(c, Node(l, y, rx));
      && SameKeys(m, m') && Shape(m', t, NULL) && Distinct(t)
      && Ptr(t) == (if c.Top? then y else RootPtr(c, NULL))
      && Order(t) == Without(Order(Plug(c, Node(l, node, r))), node)
      && Elems(t) == Elems(Plug(c, Node(l, node, r))) - {node}
      && OthersKept(m, m', Elems(Plug(c, Node(l, node, r))))
  {
    var sub := Node(l, y, rx);
    var m' := SetParent(SetLeft(Transplanted(m1, node, y), y, Ptr(l)), Ptr(l), y);
    PtrInTree(m1, l, node);
    HolderOfHole(m1, c, NULL, node);
    FinishDelete(m1, c, l, node, y, rx);
    SameKeysTrans(m, m1, m');
    ReplacedTree(m', c, l, node, r, y, rx);
    PlugElems(c, Node(l, node, r));
  }

  lemma ReplacedTree(m': Records, c: Context, l: Tree, node: Addr, r: Tree, y: Addr, rx: Tree)
    requires Distinct(Plug(c, Node(l, node, r))) && Distinct(l) && Distinct(rx)
    requires Order(r) == [y] + Order(rx) && Elems(r) == {y} + Elems(rx) && y !in Elems(l) && y !in Elems(rx)
    requires ShapeAround(m', c, NULL, y) && Shape(m', Node(l, y, rx), Holder(c, NULL))
    ensures var t := Plug(c, Node(l, y, rx));
      && Shape(m', t, NULL) && Distinct(t)
      && Ptr(t) == (if c.Top? then y else RootPtr(c, NULL))
      && Order(t) == Without(Order(Plug(c, Node(l, node, r))), node)
      && Elems(t) == Elems(Plug(c, Node(l, node, r))) - {node}
  {
    var sub := Node(l, y, rx);
    ReplacedParts(c, l, node, r, y, rx);
    hide Order, Elems, Around, Distinct, DistinctAround, Shape, ShapeAround, Plug, Without;
    DeletedOrder(c, l, node, r, sub);
    DeletedElems(c, l, node, r, sub);
    PutTogether(m', c, sub);
  }

  lemma ReplacedParts(c: Context, l: Tree, node: Addr, r: Tree, y: Addr, rx: Tree)
    requires Distinct(Plug(c, Node(l, node, r))) && Distinct(l) && Distinct(rx)
    requires Order(r) == [y] + Order(rx) && Elems(r) == {y} + Elems(rx) && y !in Elems(l) && y !in Elems(rx)
    ensures var sub := Node(l, y, rx);
      && Order(sub) == Order(l) + Order(r) && Elems(sub) == Elems(l) + Elems(r)
      && Distinct(sub) && Around(c) !! Elems(sub) && DistinctAround(c)
  {
    PlugDistinct(c, Node(l, node, r));
  }

  lemma DeleteBegins(m: Records, c: Context, l: Tree, node: Addr, r: Tree)
    requires Shape(m, Plug(c, Node(l, node, r)), NULL) && Distinct(Plug(c, Node(l, node, r)))
    ensures Holds(m, c, l, node, r)
    ensures node in m && m[node].left == Ptr(l) && m[node].right == Ptr(r)
    ensures (Ptr(l) == NULL <==> l.Leaf?) && (Ptr(r) == NULL <==> r.Leaf?)
  {
    TakeApart(m, c, l, node, r);
    PtrInTree(m, l, node);
    PtrInTree(m, r, node);
  }

  lemma TransplantNothing(m: Records, u: Addr)
    requires u in m && m[u].parent == NULL
    ensures Transplanted(m, u, NULL) == m
  {
  }

  lemma DeleteSimply(m: Records, c: Context, l: Tree, node: Addr, r: Tree, sub: Tree)
    requires Holds(m, c, l, node, r) && ((l.Leaf? && sub == r) || (r.Leaf? && sub == l))
    requires Distinct(Plug(c, Node(l, node, r)))
    ensures node in m && (m[node].parent != NULL ==> m[node].parent in m)
    ensures Ptr(sub) != NULL ==> Ptr(sub) in m
    ensures c.Top? <==> m[node].parent == NULL
    ensures Ptr(Plug(c, Node(l, node, r))) == if c.Top? then node else RootPtr(c, NULL)
    ensures var m', t := Transplanted(m, node, Ptr(sub)), Plug(c, sub);
      && SameKeys(m, m') && Shape(m', t, NULL) && Distinct(t)
      && Ptr(t) == (if c.Top? then Ptr(sub) else RootPtr(c, NULL))
      && Order(t) == Without(Order(Plug(c, Node(l, node, r))), node)
      && Elems(t) == Elems(Plug(c, Node(l, node, r))) - {node}
      && OthersKept(m, m', Elems(Plug(c, Node(l, node, r))))
  {
    hide Shape, ShapeAround, Elems, Order, Distinct, DistinctAround, Around, Without, SameKeys, OthersKept, Plug,
        Transplanted;
    RootIs(m, c, l, node, r);
    DeleteSimple(m, c, l, node, r, sub);
    SubtreeOfLeaf(l, r);
    DeletedOrder(c, l, node, r, sub);
    DeletedElems(c, l, node, r, sub);
    var m' := Transplanted(m, node, Ptr(sub));
    KeptWider(m, m', Around(c) + Elems(sub), Elems(Plug(c, Node(l, node, r))));
    HoldsParts(m, c, l, node, r);
    PutTogether(m', c, sub);
  }

  lemma HoldsParts(m: Records, c: Context, l: Tree, node: Addr, r: Tree)
    requires Holds(m, c, l, node, r)
    ensures node in m && (m[node].parent != NULL ==> m[node].parent in m)
    ensures DistinctAround(c) && Distinct(l) && Distinct(r) && Around(c) !! Elems(l) && Around(c) !! Elems(r)
  {
    HolderOfHole(m, c, NULL, node);
  }

  // ---------- insertion ----------

  /** The records after node was hung below its parent. */
  ghost function HungBelow(m: Records, node: Addr, parent: Addr): Records
    requires node in m && parent in m
  {
    var m1 := SetParent(m, node, parent);
    if m[node].time < m[parent].time then SetLeft(m1, parent, node) else SetRight(m1, parent, node)
  }

  lemma HungStores(m: Records, node: Addr, parent: Addr)
    requires node in m && parent in m && node != parent
    ensures var m' := HungBelow(m, node, parent);
      && SameKeys(m, m') && OthersKept(m, m', {node, parent}) && m'[node] == m[node].(parent := parent)
      && m'[parent] == if m[node].time < m[parent].time then m[parent].(left := node) else m[parent].(right := node)
  {
  }

  lemma Inserted(m: Records, c: Context, node: Addr)
    requires c != Top && Shape(m, Plug(c, Leaf), NULL) && Distinct(Plug(c, Leaf)) && node !in Elems(Plug(c, Leaf))
    requires Links(m, node, NULL, NULL, NULL) && Fits(m, Before(c), node, After(c))
    ensures c.e in m && c.e != NULL
    ensures var m', t := HungBelow(m, node, c.e), Plug(c, Node(Leaf, node, Leaf));
      && Shape(m', t, NULL) && Distinct(t) && Ptr(t) == Ptr(Plug(c, Leaf))
      && SameKeys(m, m') && OthersKept(m, m', Elems(t)) && m'[node].time == m[node].time
  {
    var t := Node(Leaf, node, Leaf);
    Side(m, c, node);
    PlugShape(m, c, Leaf, NULL);
    PlugDistinct(c, Leaf);
    PlugDistinct(c, t);
    PlugElems(c, Leaf);
    PlugElems(c, t);
    PlugIsNode(c, Leaf);
    PlugIsNode(c, t);
    assert c.e in Around(c) && node !in Around(c) && Elems(t) == {node};
    assert Links(m, c.e, m[c.e].left, m[c.e].right, m[c.e].parent) && DistinctAround(c);
    hide Fits, Before, After, Plug, ShapeAround, DistinctAround, Around, HungBelow, Elems;
    HungStores(m, node, c.e);
    var m' := HungBelow(m, node, c.e);
    Rehung(m, m', c, NULL, NULL, node);
    PlugShape(m', c, t, NULL);
  }

  lemma InsertedOrder(m: Records, c: Context, node: Addr)
    requires Fits(m, Before(c), node, After(c))
    ensures Order(Plug(c, Node(Leaf, node, Leaf))) == Insert(m, Order(Plug(c, Leaf)), node)
    ensures Elems(Plug(c, Node(Leaf, node, Leaf))) == Elems(Plug(c, Leaf)) + {node}
  {
    PlugOrder(c, Leaf);
    PlugOrder(c, Node(Leaf, node, Leaf));
    PlugElems(c, Leaf);
    PlugElems(c, Node(Leaf, node, Leaf));
    assert Order(Node(Leaf, node, Leaf)) == [node] && Order(Leaf) == [];
    assert Before(c) + [] + After(c) == Before(c) + After(c);
    hide Order, Plug, Insert, Before, After;
    InsertSplit(m, Before(c), node, After(c));
  }

  class EventQueue {
    var records: Records
    var root: Addr
    ghost var tree: Tree

    /** The links form the tree. */
    ghost predicate Linked()
      reads this
    {
      root == Ptr(tree) && Shape(records, tree, NULL) && Distinct(tree)
    }

    /** A record is flagged as enqueued if and only if it is in the tree, and its links are clear
        otherwise. */
    ghost predicate Valid()
      reads this
    {
      && Linked() && NULL !in records
      && forall e | e in records ::
           records[e].enqueued == (e in Elems(tree)) && (e !in Elems(tree) ==> Links(records, e, NULL, NULL, NULL))
    }

    constructor ()
      ensures Valid() && tree == Leaf && records == map[]
    {
      records, root, tree := map[], NULL, Leaf;
    }

    /** bst_transplant: v takes the place of u, whatever is around it, and only v and its surroundings change. */
    method Transplant(u: Addr, v: Addr)
      requires u in records && (records[u].parent != NULL ==> records[u].parent in records)
        && (v != NULL ==> v in records)
      modifies this`records, this`root
      ensures records == Transplanted(old(records), u, v)
      ensures root == if old(records)[u].parent == NULL then v else old(root)
      ensures forall c, top | FillsHole(old(records), c, top, u) && (v != NULL ==> v !in Around(c)) ::
        && ShapeAround(records, c, top, v)
        && forall e | e in records && (v == NULL || e != v) && e !in Around(c) :: records[e] == old(records)[e]
    {
      hide FillsHole, ShapeAround, Around;
      forall c, top | FillsHole(records, c, top, u) && (v != NULL ==> v !in Around(c))
        ensures ShapeAround(Transplanted(records, u, v), c, top, v)
        ensures forall e | e in records && (v == NULL || e != v) && e !in Around(c) ::
          Transplanted(records, u, v)[e] == records[e]
      {
        TransplantAround(records, c, top, u, v);
        TransplantElsewhere(records, c, top, u, v);
      }
      var p := records[u].parent;
      if p == NULL {
        root := v;
      } else if u == records[p].left {
        records := SetLeft(records, p, v);
      } else {
        records := SetRight(records, p, v);
      }
      if v != NULL {
        records := SetParent(records, v, p);
      }
    }

    /** bst_minimum of the subtree t, with where it was found. */
    method Minimum(start: Addr, ghost t0: Tree, ghost parent: Addr)
      returns (node: Addr, ghost d: Context, ghost rr: Tree)
      requires start == Ptr(t0) && Shape(records, t0, parent)
      ensures t0.Leaf? ==> node == NULL
      ensures t0.Node? ==> t0 == Plug(d, Node(Leaf, node, rr)) && Before(d) == [] && node != NULL
    {
      hide Shape;
      node, d, rr := start, Top, Leaf;
      PtrInTree(records, t0, parent);
      if node == NULL {
        return;
      }
      ghost var t := t0;
      MinimumStep(records, d, t, parent);
      while records[node].left != NULL
        invariant t.Node? && t0 == Plug(d, t) && Before(d) == [] && node == t.e
        invariant node in records && records[node].left == Ptr(t.l) && (records[node].left == NULL <==> t.l.Leaf?)
        decreases t
      {
        node := records[node].left;
        d, t := InLeft(d, t.e, t.r), t.l;
        MinimumStep(records, d, t, parent);
      }
      rr := t.r;
      PtrInTree(records, t0, parent);
      MinimumStep(records, d, t, parent);
    }

    /** Detaches the successor of node from its right subtree, if it is not the root of that. */
    method DetachSuccessor(node: Addr, ghost c: Context, ghost l: Tree, ghost r: Tree) returns (y: Addr, ghost rx: Tree)
      requires Holds(records, c, l, node, r) && l.Node? && r.Node?
      modifies this`records, this`root
      ensures Ready(records, c, l, node, y, rx) && root == old(root)
      ensures Order(r) == [y] + Order(rx) && Elems(r) == {y} + Elems(rx)
      ensures SameKeys(old(records), records) && OthersKept(old(records), records, Elems(r))
    {
      hide Shape, ShapeAround, Transplanted, FillsHole, Elems, Order, Distinct, Around;
      ghost var d, rr;
      y, d, rr := Minimum(records[node].right, r, node);
      rx := Plug(d, rr);
      if d == Top {
        ReadyAtOnce(records, c, l, node, y, rr);
        MinimumAtTop(records, node, y, rr);
      } else {
        ReadyAfterDetach(records, c, l, node, d, y, rr);
      }
      if records[y].parent != node {
        Transplant(y, records[y].right);
        records := SetRight(records, y, records[node].right);
        if records[y].right != NULL {
          records := SetParent(records, records[y].right, y);
        }
      }
    }

    /** bst_delete: takes exactly that event out of the queue, without looking at any time.  On a
        record that is in no queue it drops the whole queue. */
    method Delete(node: Addr)
      requires Linked() && node in records && (node in Elems(tree) || Links(records, node, NULL, NULL, NULL))
      modifies this
      ensures node in old(Elems(tree)) ==>
        && Linked() && SameKeys(old(records), records)
        && Order(tree) == Without(old(Order(tree)), node) && Elems(tree) == old(Elems(tree)) - {node}
        && OthersKept(old(records), records, old(Elems(tree)))
      ensures node !in old(Elems(tree)) ==> root == NULL && records == old(records) && tree == old(tree)
    {
      hide Shape, ShapeAround, FillsHole, Elems, Order, Distinct, Around, Without, SameKeys, OthersKept, Plug,
          Transplanted;
      ghost var inTree := node in Elems(tree);
      ghost var c, l, r := Top, Leaf, Leaf;
      if inTree {
        c, l, r := Locate(Top, tree, node);
        PlugTop(tree);
        DeleteBegins(records, c, l, node, r);
      }
      if records[node].left == NULL {
        if inTree { DeleteSimply(records, c, l, node, r, r); } else { TransplantNothing(records, node); }
        Transplant(node, records[node].right);
        if inTree { tree := Plug(c, r); }
      } else if records[node].right == NULL {
        DeleteSimply(records, c, l, node, r, l);
        Transplant(node, records[node].left);
        tree := Plug(c, l);
      } else {
        DeleteInner(node, c, l, r);
      }
    }

    /** Replaces a node with two children by its successor. */
    method DeleteInner(node: Addr, ghost c: Context, ghost l: Tree, ghost r: Tree)
      requires Linked() && tree == Plug(c, Node(l, node, r)) && l.Node? && r.Node?
      modifies this
      ensures Linked() && SameKeys(old(records), records)
      ensures Order(tree) == Without(old(Order(tree)), node) && Elems(tree) == old(Elems(tree)) - {node}
      ensures OthersKept(old(records), records, old(Elems(tree)))
    {
      hide Shape, ShapeAround, FillsHole, Elems, Order, Distinct, Around, Without, SameKeys, OthersKept, Plug,
          Transplanted;
      TakeApart(records, c, l, node, r);
      RootIs(records, c, l, node, r);
      ghost var m := records;
      ghost var rx;
      var y;
      y, rx := DetachSuccessor(node, c, l, r);
      ghost var m1 := records;
      Replaced(m, m1, c, l, node, r, y, rx);
      Transplant(node, y);
      records := SetLeft(records, y, records[node].left);
      if records[y].left != NULL {
        records := SetParent(records, records[y].left, y);
      }
      tree := Plug(c, Node(l, y, rx));
    }

    /** Goes down from the root to the empty place where node belongs. */
    method FindPlace(node: Addr) returns (parent: Addr, ghost c: Context)
      requires Linked() && SortedByTime(records, Order(tree)) && node in records
      ensures tree == Plug(c, Leaf) && parent == Holder(c, NULL)
      ensures Fits(records, Before(c), node, After(c))
    {
      hide Shape, SortedByTime, Order, Distinct;
      c := Top;
      ghost var t := tree;
      var current := root;
      parent := NULL;
      while current != NULL
        invariant tree == Plug(c, t) && current == Ptr(t) && parent == Holder(c, NULL)
        invariant Fits(records, Before(c), node, After(c))
        decreases t
      {
        GoDown(records, c, t, node);
        parent := current;
        if records[node].time < records[current].time {
          current := records[current].left;
          c, t := InLeft(c, t.e, t.r), t.l;
        } else {
          current := records[current].right;
          c, t := InRight(c, t.l, t.e), t.r;
        }
      }
      if t.Node? { GoDown(records, c, t, node); }
    }

    /** event_bst_insert: hangs a detached record in, after every event that is not later. */
    method BstInsert(node: Addr)
      requires Linked() && SortedByTime(records, Order(tree)) && node !in Elems(tree)
        && Links(records, node, NULL, NULL, NULL)
      modifies this
      ensures Linked() && SameKeys(old(records), records)
      ensures Order(tree) == Insert(old(records), old(Order(tree)), node) && Elems(tree) == old(Elems(tree)) + {node}
      ensures OthersKept(old(records), records, Elems(tree))
    {
      hide Distinct, SortedByTime, Fits, Before, After;
      if root == NULL {
        PtrInTree(records, tree, NULL);
        root := node;
        tree := Node(Leaf, node, Leaf);
        SingleTree(records, node);
        return;
      }
      hide Shape, Elems, Order, Plug, Insert;
      var parent;
      ghost var c;
      parent, c := FindPlace(node);
      EmptyContext(c);
      Inserted(records, c, node);
      InsertedOrder(records, c, node);
      records := SetParent(records, node, parent);
      if records[node].time < records[parent].time {
        records := SetLeft(records, parent, node);
      } else {
        records := SetRight(records, parent, node);
      }
      tree := Plug(c, Node(Leaf, node, Leaf));
    }

    /** event_create, at an address that the allocator gave out. */
    method Create(e: Addr)
      requires Valid() && e != NULL && e !in records
      modifies this`records
      ensures Valid() && records == old(records)[e := Event(0, false, NULL, NULL, NULL)]
    {
      hide Shape;
      ghost var m := records;
      records := records[e := Event(0, false, NULL, NULL, NULL)];
      ShapeFrame(m, records, tree, NULL);
      NotInTree(m, tree, NULL, e);
    }

    /** The owner of an event overwrites its time, linked or not. */
    method SetTime(e: Addr, time: nat)
      requires Valid() && e in records
      modifies this`records
      ensures Valid() && records == old(records)[e := old(records)[e].(time := time)]
    {
      hide Shape;
      ghost var m := records;
      records := records[e := records[e].(time := time)];
      ShapeFrame(m, records, tree, NULL);
    }

    /** event_remove: deletes exactly that event.  The caller must pass an event that is enqueued;
        on one that is not, the whole queue is lost. */
    method Remove(e: Addr)
      requires Valid() && (e != NULL ==> e in records)
      modifies this
      ensures old(root) == NULL || e == NULL ==> Valid() && records == old(records) && tree == old(tree)
      ensures e in old(Elems(tree)) ==>
        && Valid() && Order(tree) == Without(old(Order(tree)), e) && Elems(tree) == old(Elems(tree)) - {e}
        && SameTimes(old(records), records)
      ensures old(root) != NULL && e != NULL && e !in old(Elems(tree)) ==> root == NULL
    {
      hide Shape, Elems, Order, Distinct, Without;
      if root == NULL || e == NULL {
        EmptyOrAbsent(records, tree, e);
        return;
      }
      ghost var m, t := records, tree;
      Delete(e);
      ghost var m1 := records;
      records := records[e := records[e].(left := NULL, right := NULL, parent := NULL, enqueued := false)];
      if e in Elems(t) {
        ShapeFrame(m1, records, tree, NULL);
      }
    }

    /** event_enqueue: an event that is already queued is taken out first, so that it ends up
        after all events that are not later than it and before all later ones, even if its time
        was overwritten while it was linked. */
    method Enqueue(e: Addr)
      requires Valid() && e in records && SortedByTime(records, Without(Order(tree), e))
      modifies this
      ensures Valid() && SortedByTime(records, Order(tree)) && SameTimes(old(records), records)
      ensures Order(tree) == Insert(records, Without(old(Order(tree)), e), e)
      ensures Elems(tree) == old(Elems(tree)) + {e}
    {
      hide Shape, Elems, Order, Distinct, Without, SortedByTime, Insert;
      ghost var m, t := records, tree;
      OrderElems(tree, e);
      if records[e].enqueued {
        Remove(e);
      } else {
        WithoutAbsent(Order(tree), e);
      }
      ghost var m1 := records;
      records := records[e := records[e].(left := NULL, right := NULL, parent := NULL)];
      ShapeFrame(m1, records, tree, NULL);
      TimesFrame(m, records, Without(Order(t), e), e);
      BstInsert(e);
      ghost var m2 := records;
      records := records[e := records[e].(enqueued := true)];
      ShapeFrame(m2, records, tree, NULL);
      TimesFrame(m, records, Without(Order(t), e), e);
      InsertSorted(records, Without(Order(t), e), e);
    }

    /** event_peek_next: the front of the queue. */
    method PeekNext() returns (e: Addr)
      requires Valid()
      ensures if Order(tree) == [] then e == NULL else e == Order(tree)[0] && e != NULL && e in Elems(tree)
    {
      ghost var d, rr;
      e, d, rr := Minimum(root, tree, NULL);
      if tree.Node? {
        PlugOrder(d, Node(Leaf, e, rr));
        PlugElems(d, Node(Leaf, e, rr));
        assert Order(Node(Leaf, e, rr)) == [e] + Order(rr);
      }
    }

    /** The pattern of maybe_reschedule_thread and thread_sleep: a new time, then event_enqueue. */
    method EnqueueAt(e: Addr, time: nat)
      requires Valid() && e in records && SortedByTime(records, Order(tree))
      modifies this
      ensures Valid() && SortedByTime(records, Order(tree)) && e in records && records[e].time == time
      ensures Order(tree) == Insert(records, Without(old(Order(tree)), e), e)
      ensures Elems(tree) == old(Elems(tree)) + {e}
      ensures SameTimes(old(records)[e := old(records)[e].(time := time)], records)
    {
      hide Shape, Elems, Order, Without, SortedByTime, Insert;
      OrderOnce(tree, e);
      WithoutSorted(records, records[e := records[e].(time := time)], Order(tree), e);
      SetTime(e, time);
      Enqueue(e);
    }
  }

  /** No time changed. */
  ghost predicate SameTimes(m: Records, m': Records)
  {
    m'.Keys == m.Keys && forall e | e in m :: m'[e].time == m[e].time
  }

  lemma {:induction false} TimesFrame(m: Records, m': Records, q: seq<Addr>, e: Addr)
    requires SameTimes(m, m') && e in m
    ensures SortedByTime(m, q) ==> SortedByTime(m', q)
    ensures Insert(m', q, e) == Insert(m, q, e)
  {
    if q != [] { TimesFrame(m, m', q[1..], e); }
  }

  lemma {:induction false} NotInTree(m: Records, t: Tree, parent: Addr, e: Addr)
    requires Shape(m, t, parent) && e !in m
    ensures e !in Elems(t)
  {
    if t.Node? { NotInTree(m, t.l, t.e, e); NotInTree(m, t.r, t.e, e); }
  }

  lemma EmptyOrAbsent(m: Records, t: Tree, e: Addr)
    requires Shape(m, t, NULL) && NULL !in m && (Ptr(t) == NULL || e == NULL)
    ensures e !in Elems(t)
  {
    PtrInTree(m, t, NULL);
    if e == NULL { NotInTree(m, t, NULL, e); }
  }

  lemma {:induction false} WithoutMembers(q: seq<Addr>, e: Addr, x: Addr)
    requires x in Without(q, e)
    ensures x in q
  {
    if q != [] && q[0] != e && x != q[0] { WithoutMembers(q[1..], e, x); }
  }

  /** An event occurs in the order of a tree once. */
  lemma OrderOnce(t: Tree, e: Addr)
    requires Distinct(t)
    ensures e !in Without(Order(t), e)
  {
    OrderElems(t, e);
    if e in Elems(t) {
      var c, l, r := Locate(Top, t, e);
      PlugTop(t);
      PlugDistinct(c, Node(l, e, r));
      PlugOrder(c, Node(l, e, r));
      AroundElems(c, e);
      OrderElems(l, e);
      OrderElems(r, e);
      assert Order(Node(l, e, r)) == Order(l) + [e] + Order(r);
      RemoveMiddle(Before(c), Order(l), e, Order(r), After(c));
    } else {
      WithoutAbsent(Order(t), e);
    }
  }

  /** Taking an event out of a sorted queue leaves it sorted, whatever time the event has now. */
  lemma {:induction false} WithoutSorted(m: Records, m': Records, q: seq<Addr>, e: Addr)
    requires SortedByTime(m, q) && e !in Without(q, e)
    requires forall x | x in m && x != e :: x in m' && m'[x].time == m[x].time
    ensures SortedByTime(m', Without(q, e))
  {
    if q != [] {
      if q[0] == e {
        SortedElsewhere(m, m', q[1..], e);
      } else {
        assert Without(q, e)[1..] == Without(q[1..], e);
        WithoutSorted(m, m', q[1..], e);
        forall x | x in Without(q[1..], e) ensures x in m' && m'[q[0]].time <= m'[x].time {
          WithoutMembers(q[1..], e, x);
        }
      }
    }
  }

  lemma {:induction false} SortedElsewhere(m: Records, m': Records, q: seq<Addr>, e: Addr)
    requires SortedByTime(m, q) && e !in q
    requires forall x | x in m && x != e :: x in m' && m'[x].time == m[x].time
    ensures SortedByTime(m', q)
  {
    if q != [] { SortedElsewhere(m, m', q[1..], e); }
  }

  lemma SingleTree(m: Records, node: Addr)
    requires Links(m, node, NULL, NULL, NULL)
    ensures var t := Node(Leaf, node, Leaf);
      && Distinct(t) && Shape(m, t, NULL) && Order(t) == [node] == Insert(m, Order(Leaf), node)
      && Elems(t) == Elems(Leaf) + {node}
  {
  }

  lemma EmptyContext(c: Context)
    ensures c.Top? ==> Plug(c, Leaf) == Leaf
  {
  }
}
