/** The parent-linked binary search tree of kernel/multitasking/events.c: what links between the
    event records mean.  A tree with one subtree missing is a context; the operations are understood
    as taking a tree apart into a context and a subtree and putting another subtree in. */
module EventTree {

  /** Addresses of event records; NULL is none. */
  type Addr = nat
  const NULL: Addr := 0

  datatype Event = Event(time: nat, enqueued: bool, left: Addr, right: Addr, parent: Addr)

  /** The event records in memory. */
  type Records = map<Addr, Event>

  datatype Tree = Leaf | Node(l: Tree, e: Addr, r: Tree)

  /** A tree with a hole: the hole is everything, or the left or right subtree of e. */
  datatype Context = Top | InLeft(up: Context, e: Addr, r: Tree) | InRight(up: Context, l: Tree, e: Addr)

  ghost function Elems(t: Tree): set<Addr>
  {
    match t
    case Leaf => {}
    case Node(l, e, r) => Elems(l) + {e} + Elems(r)
  }

  ghost function Around(c: Context): set<Addr>
  {
    match c
    case Top => {}
    case InLeft(up, e, r) => Around(up) + {e} + Elems(r)
    case InRight(up, l, e) => Around(up) + {e} + Elems(l)
  }

  ghost function Order(t: Tree): seq<Addr>
  {
    match t
    case Leaf => []
    case Node(l, e, r) => Order(l) + [e] + Order(r)
  }

  ghost function Before(c: Context): seq<Addr>
  {
    match c
    case Top => []
    case InLeft(up, _, _) => Before(up)
    case InRight(up, l, e) => Before(up) + Order(l) + [e]
  }

  ghost function After(c: Context): seq<Addr>
  {
    match c
    case Top => []
    case InLeft(up, e, r) => [e] + Order(r) + After(up)
    case InRight(up, _, _) => After(up)
  }

  ghost function Plug(c: Context, t: Tree): Tree
  {
    match c
    case Top => t
    case InLeft(up, e, r) => Plug(up, Node(t, e, r))
    case InRight(up, l, e) => Plug(up, Node(l, e, t))
  }

  lemma {:induction false} PlugOrder(c: Context, t: Tree)
    ensures Order(Plug(c, t)) == Before(c) + Order(t) + After(c)
  {
    match c
    case Top =>
    case InLeft(up, e, r) => PlugOrder(up, Node(t, e, r));
    case InRight(up, l, e) => PlugOrder(up, Node(l, e, t));
  }

  lemma {:induction false} PlugElems(c: Context, t: Tree)
    ensures Elems(Plug(c, t)) == Around(c) + Elems(t)
  {
    match c
    case Top =>
    case InLeft(up, e, r) => PlugElems(up, Node(t, e, r));
    case InRight(up, l, e) => PlugElems(up, Node(l, e, t));
  }

  lemma {:induction false} OrderElems(t: Tree, x: Addr)
    ensures x in Order(t) <==> x in Elems(t)
  {
    match t
    case Leaf =>
    case Node(l, e, r) => OrderElems(l, x); OrderElems(r, x);
  }

  lemma {:induction false} AroundElems(c: Context, x: Addr)
    ensures x in Around(c) <==> x in Before(c) || x in After(c)
  {
    match c
    case Top =>
    case InLeft(up, e, r) => AroundElems(up, x); OrderElems(r, x);
    case InRight(up, l, e) => AroundElems(up, x); OrderElems(l, x);
  }

  // ---------- no event twice ----------

  ghost predicate Distinct(t: Tree)
  {
    match t
    case Leaf => true
    case Node(l, e, r) =>
      Distinct(l) && Distinct(r) && e !in Elems(l) && e !in Elems(r) && Elems(l) !! Elems(r)
  }

  ghost predicate DistinctAround(c: Context)
  {
    match c
    case Top => true
    case InLeft(up, e, r) =>
      DistinctAround(up) && Distinct(r) && e !in Elems(r) && e !in Around(up) && Elems(r) !! Around(up)
    case InRight(up, l, e) =>
      DistinctAround(up) && Distinct(l) && e !in Elems(l) && e !in Around(up) && Elems(l) !! Around(up)
  }

  lemma {:induction false} PlugDistinct(c: Context, t: Tree)
    ensures Distinct(Plug(c, t)) <==> DistinctAround(c) && Distinct(t) && Around(c) !! Elems(t)
  {
    match c
    case Top =>
    case InLeft(up, e, r) => PlugDistinct(up, Node(t, e, r));
    case InRight(up, l, e) => PlugDistinct(up, Node(l, e, t));
  }

  // ---------- the links ----------

  ghost function Ptr(t: Tree): Addr
  {
    if t.Leaf? then NULL else t.e
  }

  /** One record has these links. */
  predicate Links(m: Records, e: Addr, left: Addr, right: Addr, parent: Addr)
  {
    e != NULL && e in m && m[e].left == left && m[e].right == right && m[e].parent == parent
  }

  /** The records link up as t below `parent`. */
  ghost predicate Shape(m: Records, t: Tree, parent: Addr)
  {
    match t
    case Leaf => true
    case Node(l, e, r) => Links(m, e, Ptr(l), Ptr(r), parent) && Shape(m, l, e) && Shape(m, r, e)
  }

  /** The event whose subtree the hole is; `top` if the hole is everything. */
  ghost function Holder(c: Context, top: Addr): Addr
  {
    match c
    case Top => top
    case InLeft(_, e, _) => e
    case InRight(_, _, e) => e
  }

  /** The records around the hole link up, with `hole` as the pointer into it. */
  ghost predicate ShapeAround(m: Records, c: Context, top: Addr, hole: Addr)
  {
    match c
    case Top => true
    case InLeft(up, e, r) =>
      Links(m, e, hole, Ptr(r), Holder(up, top)) && Shape(m, r, e) && ShapeAround(m, up, top, e)
    case InRight(up, l, e) =>
      Links(m, e, Ptr(l), hole, Holder(up, top)) && Shape(m, l, e) && ShapeAround(m, up, top, e)
  }

  /** The pointer to the root, given the one into the hole. */
  ghost function RootPtr(c: Context, hole: Addr): Addr
  {
    match c
    case Top => hole
    case InLeft(up, e, _) => RootPtr(up, e)
    case InRight(up, _, e) => RootPtr(up, e)
  }

  lemma {:induction false} PlugShape(m: Records, c: Context, t: Tree, top: Addr)
    ensures Shape(m, Plug(c, t), top) <==> ShapeAround(m, c, top, Ptr(t)) && Shape(m, t, Holder(c, top))
    ensures Ptr(Plug(c, t)) == RootPtr(c, Ptr(t))
  {
    hide Links;
    match c
    case Top =>
    case InLeft(up, e, r) => PlugShape(m, up, Node(t, e, r), top);
    case InRight(up, l, e) => PlugShape(m, up, Node(l, e, t), top);
  }

  /** The links of these records are the same in both memories. */
  ghost predicate SameLinks(m: Records, m': Records, s: set<Addr>)
  {
    forall e | e in s && e in m ::
      e in m' && m'[e].left == m[e].left && m'[e].right == m[e].right && m'[e].parent == m[e].parent
  }

  lemma {:induction false} ShapeFrame(m: Records, m': Records, t: Tree, parent: Addr)
    requires Shape(m, t, parent) && SameLinks(m, m', Elems(t))
    ensures Shape(m', t, parent)
  {
    if t.Node? {
      ShapeFrame(m, m', t.l, t.e);
      ShapeFrame(m, m', t.r, t.e);
    }
  }

  lemma {:induction false} AroundFrame(m: Records, m': Records, c: Context, top: Addr, hole: Addr)
    requires ShapeAround(m, c, top, hole) && SameLinks(m, m', Around(c))
    ensures ShapeAround(m', c, top, hole)
  {
    match c
    case Top =>
    case InLeft(up, e, r) => AroundFrame(m, m', up, top, e); ShapeFrame(m, m', r, e);
    case InRight(up, l, e) => AroundFrame(m, m', up, top, e); ShapeFrame(m, m', l, e);
  }

  /** The whole around a hole still links up when its holder points to something else. */
  lemma Rehung(m: Records, m': Records, c: Context, top: Addr, hole: Addr, hole': Addr)
    requires ShapeAround(m, c, top, hole) && DistinctAround(c)
    requires SameLinks(m, m', Around(c) - (if c.Top? then {} else {c.e}))
    requires c.InLeft? ==> c.e in m && Links(m', c.e, hole', m[c.e].right, m[c.e].parent)
    requires c.InRight? ==> c.e in m && Links(m', c.e, m[c.e].left, hole', m[c.e].parent)
    ensures ShapeAround(m', c, top, hole')
  {
    match c
    case Top =>
    case InLeft(up, e, r) => AroundFrame(m, m', up, top, e); ShapeFrame(m, m', r, e);
    case InRight(up, l, e) => AroundFrame(m, m', up, top, e); ShapeFrame(m, m', l, e);
  }

  /** A subtree may be hung below another parent. */
  lemma Reparented(m: Records, m': Records, t: Tree, parent: Addr, parent': Addr)
    requires Shape(m, t, parent) && Distinct(t)
    requires SameLinks(m, m', Elems(t) - {Ptr(t)})
    requires t.Node? ==> t.e in m && Links(m', t.e, m[t.e].left, m[t.e].right, parent')
    ensures Shape(m', t, parent')
  {
    if t.Node? {
      ShapeFrame(m, m', t.l, t.e);
      ShapeFrame(m, m', t.r, t.e);
    }
  }

  /** Where an event of the tree sits. */
  lemma {:induction false} Locate(c: Context, t: Tree, x: Addr) returns (d: Context, l: Tree, r: Tree)
    requires x in Elems(t)
    ensures Plug(d, Node(l, x, r)) == Plug(c, t)
    decreases t
  {
    if t.e == x {
      d, l, r := c, t.l, t.r;
    } else if x in Elems(t.l) {
      d, l, r := Locate(InLeft(c, t.e, t.r), t.l, x);
    } else {
      d, l, r := Locate(InRight(c, t.l, t.e), t.r, x);
    }
  }
}
