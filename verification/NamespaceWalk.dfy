/**
 * The stackless walk over a namespace subtree (uacpi/source/namespace.c).
 *
 * The walk goes forward through child and next-peer links and back through
 * parent links, calling one callback on the way down and one on the way up.
 * Callbacks are a function from node, depth and direction to a decision; they
 * leave the tree alone.
 */
module NamespaceWalk {
  import opened NamespaceTree
  import Namespace

  datatype Decision = Continue | NextPeer | Break | Other

  datatype Status = Ok | InvalidArgument

  /** One call of a callback. */
  datatype Call = Call(node: Addr, depth: nat, up: bool)

  /** The arguments of a walk; `wanted` is the type mask. */
  datatype Request = Request(
    hasDown: bool,
    hasUp: bool,
    wanted: nat -> bool,
    maxDepth: nat,
    permanentOnly: bool,
    decide: (Addr, nat, bool) -> Decision)

  /** A list of sibling subtrees. */
  datatype Forest = Nil | Cons(node: Addr, kids: Forest, rest: Forest)

  function First(f: Forest): Addr {
    if f.Nil? then NULL else f.node
  }

  /** The records' links spell out the forest f below `parent`. */
  ghost predicate Shaped(m: Nodes, f: Forest, parent: Addr) {
    match f
    case Nil => true
    case Cons(a, k, r) =>
      && a != NULL && a in m && m[a].parent == parent && m[a].child == First(k) && m[a].next == First(r)
      && Shaped(m, k, a) && Shaped(m, r, parent)
  }

  // ----- what the walk does -----

  /** What one visit of a node does: the calls made, the match flag after it, and the decision taken. */
  datatype Visited = Visited(calls: seq<Call>, matches: bool, decision: Decision)

  /** The match flag after a node is tested; a node without an object leaves it alone. */
  function Test(m: Nodes, w: Request, a: Addr, matches: bool): bool {
    if a in m && m[a].attached.Some? then w.wanted(m[a].attached.value) else matches
  }

  function Visit(m: Nodes, w: Request, a: Addr, depth: nat, up: bool, matches: bool): Visited {
    var now := Test(m, w, a, matches);
    if !now then Visited([], now, Continue)
    else if w.permanentOnly && a in m && m[a].temporary then Visited([], now, NextPeer)
    else if up && w.hasUp then Visited([Call(a, depth, up)], now, w.decide(a, depth, up))
    else if !up && w.hasDown then Visited([Call(a, depth, up)], now, w.decide(a, depth, up))
    else Visited([], now, Continue)
  }

  datatype Outcome = Finished | Broken | Bad

  datatype Trace = Trace(calls: seq<Call>, matches: bool, outcome: Outcome)

  function After(calls: seq<Call>, t: Trace): Trace {
    t.(calls := calls + t.calls)
  }

  /** The walk of a forest: every node on the way down, its children unless cut off, the node on the way up. */
  function WalkForest(m: Nodes, w: Request, f: Forest, depth: nat, matches: bool): Trace
    decreases f, 0
  {
    match f
    case Nil => Trace([], matches, Finished)
    case Cons(a, k, r) =>
      var v := Visit(m, w, a, depth, false, matches);
      if v.decision.Break? then Trace(v.calls, v.matches, Broken)
      else if v.decision.Other? then Trace(v.calls, v.matches, Bad)
      else
        var inner := if v.decision.Continue? && depth != w.maxDepth then WalkForest(m, w, k, depth + 1, v.matches)
                     else Trace([], v.matches, Finished);
        if inner.outcome.Finished? then WayUp(m, w, a, r, depth, v.calls + inner.calls, inner.matches)
        else After(v.calls, inner)
  }

  /** The end of a node's walk: the calls so far, the node on the way up, then its peers. */
  function WayUp(m: Nodes, w: Request, a: Addr, r: Forest, depth: nat, calls: seq<Call>, matches: bool): Trace
    decreases r, 1
  {
    var u := Visit(m, w, a, depth, true, matches);
    if u.decision.Break? then Trace(calls + u.calls, u.matches, Broken)
    else After(calls + u.calls, WalkForest(m, w, r, depth, u.matches))
  }

  // ----- the same, from the middle -----

  /** The nodes above the current one, each with the peers still to come. */
  datatype Stack = Top | Frame(node: Addr, rest: Forest, above: Stack)

  function Height(s: Stack): nat {
    if s.Top? then 0 else 1 + Height(s.above)
  }

  /** What is left after a node's children: the node on the way up, its peers, and whatever is above. */
  function UpFrom(m: Nodes, w: Request, a: Addr, r: Forest, s: Stack, matches: bool): Trace
    decreases s, 1
  {
    var u := Visit(m, w, a, Height(s) + 1, true, matches);
    if u.decision.Break? then Trace(u.calls, u.matches, Broken)
    else
      var peers := WalkForest(m, w, r, Height(s) + 1, u.matches);
      After(u.calls, if peers.outcome.Finished? then After(peers.calls, Finish(m, w, s, peers.matches)) else peers)
  }

  function Finish(m: Nodes, w: Request, s: Stack, matches: bool): Trace
    decreases s, 0
  {
    match s
    case Top => Trace([], matches, Finished)
    case Frame(a, r, above) => UpFrom(m, w, a, r, above, matches)
  }

  /** What is left before a node has been visited. */
  function DownFrom(m: Nodes, w: Request, f: Forest, s: Stack, matches: bool): Trace {
    var t := WalkForest(m, w, f, Height(s) + 1, matches);
    if t.outcome.Finished? then After(t.calls, Finish(m, w, s, t.matches)) else t
  }

  lemma AfterAfter(a: seq<Call>, b: seq<Call>, t: Trace)
    ensures After(a, After(b, t)) == After(a + b, t)
  {
    assert a + (b + t.calls) == a + b + t.calls;
  }

  lemma UpFollows(m: Nodes, w: Request, a: Addr, r: Forest, s: Stack, calls: seq<Call>, matches: bool)
    ensures var t := WayUp(m, w, a, r, Height(s) + 1, calls, matches);
            (if t.outcome.Finished? then After(t.calls, Finish(m, w, s, t.matches)) else t)
            == After(calls, UpFrom(m, w, a, r, s, matches))
  {
    hide Visit;
    var u := Visit(m, w, a, Height(s) + 1, true, matches);
    if !u.decision.Break? {
      var peers := WalkForest(m, w, r, Height(s) + 1, u.matches);
      if peers.outcome.Finished? {
        AfterAfter(u.calls, peers.calls, Finish(m, w, s, peers.matches));
        AfterAfter(calls, u.calls + peers.calls, Finish(m, w, s, peers.matches));
        assert calls + u.calls + peers.calls == calls + (u.calls + peers.calls);
      } else {
        AfterAfter(calls, u.calls, peers);
      }
    }
  }

  lemma WalkInto(m: Nodes, w: Request, a: Addr, k: Forest, r: Forest, depth: nat, matches: bool)
    requires Visit(m, w, a, depth, false, matches).decision.Continue? && depth != w.maxDepth
    ensures var v := Visit(m, w, a, depth, false, matches);
            var inner := WalkForest(m, w, k, depth + 1, v.matches);
            WalkForest(m, w, Cons(a, k, r), depth, matches)
            == if inner.outcome.Finished? then WayUp(m, w, a, r, depth, v.calls + inner.calls, inner.matches)
               else After(v.calls, inner)
  {
    hide Visit, WayUp;
  }

  lemma WalkPast(m: Nodes, w: Request, a: Addr, k: Forest, r: Forest, depth: nat, matches: bool)
    requires var v := Visit(m, w, a, depth, false, matches);
             v.decision.NextPeer? || (v.decision.Continue? && (depth == w.maxDepth || k.Nil?))
    ensures var v := Visit(m, w, a, depth, false, matches);
            WalkForest(m, w, Cons(a, k, r), depth, matches) == WayUp(m, w, a, r, depth, v.calls, v.matches)
  {
    hide Visit, WayUp;
    var v := Visit(m, w, a, depth, false, matches);
    assert v.calls + [] == v.calls;
    assert k.Nil? ==> WalkForest(m, w, k, depth + 1, v.matches) == Trace([], v.matches, Finished);
  }

  lemma DownIntoKids(m: Nodes, w: Request, a: Addr, k: Forest, r: Forest, s: Stack, matches: bool)
    requires var v := Visit(m, w, a, Height(s) + 1, false, matches);
             v.decision.Continue? && Height(s) + 1 != w.maxDepth
    ensures var v := Visit(m, w, a, Height(s) + 1, false, matches);
            DownFrom(m, w, Cons(a, k, r), s, matches)
            == After(v.calls, DownFrom(m, w, k, Frame(a, r, s), v.matches))
  {
    hide Visit, UpFrom, WayUp, WalkForest;
    var v := Visit(m, w, a, Height(s) + 1, false, matches);
    WalkInto(m, w, a, k, r, Height(s) + 1, matches);
    var inner := WalkForest(m, w, k, Height(s) + 2, v.matches);
    if inner.outcome.Finished? {
      UpFollows(m, w, a, r, s, v.calls + inner.calls, inner.matches);
      AfterAfter(v.calls, inner.calls, UpFrom(m, w, a, r, s, inner.matches));
    }
  }

  lemma DownAndUp(m: Nodes, w: Request, a: Addr, k: Forest, r: Forest, s: Stack, matches: bool)
    requires var v := Visit(m, w, a, Height(s) + 1, false, matches);
             v.decision.NextPeer? || (v.decision.Continue? && (Height(s) + 1 == w.maxDepth || k.Nil?))
    ensures var v := Visit(m, w, a, Height(s) + 1, false, matches);
            DownFrom(m, w, Cons(a, k, r), s, matches) == After(v.calls, UpFrom(m, w, a, r, s, v.matches))
  {
    hide Visit, UpFrom, WayUp, WalkForest;
    var v := Visit(m, w, a, Height(s) + 1, false, matches);
    WalkPast(m, w, a, k, r, Height(s) + 1, matches);
    UpFollows(m, w, a, r, s, v.calls, v.matches);
  }

  lemma UpAndOn(m: Nodes, w: Request, a: Addr, r: Forest, s: Stack, matches: bool)
    requires !Visit(m, w, a, Height(s) + 1, true, matches).decision.Break?
    ensures var u := Visit(m, w, a, Height(s) + 1, true, matches);
            UpFrom(m, w, a, r, s, matches) == After(u.calls, DownFrom(m, w, r, s, u.matches))
  {
  }

  lemma WholeWalk(m: Nodes, w: Request, f: Forest, matches: bool)
    ensures DownFrom(m, w, f, Top, matches) == WalkForest(m, w, f, 1, matches)
  {
  }

  // ----- the loop -----

  /** The node above the current one. */
  function Owner(s: Stack, start: Addr): Addr {
    if s.Top? then start else s.node
  }

  ghost predicate Placed(m: Nodes, a: Addr, r: Forest, parent: Addr) {
    a != NULL && a in m && m[a].parent == parent && m[a].next == First(r) && Shaped(m, r, parent)
  }

  ghost predicate StackOk(m: Nodes, s: Stack, start: Addr) {
    s.Frame? ==> Placed(m, s.node, s.rest, Owner(s.above, start)) && StackOk(m, s.above, start)
  }

  function Work(f: Forest): nat {
    if f.Nil? then 0 else 2 + Work(f.kids) + Work(f.rest)
  }

  function WorkAbove(s: Stack): nat {
    if s.Top? then 0 else 1 + Work(s.rest) + WorkAbove(s.above)
  }

  /** What is left of the walk at node a. */
  function Left(m: Nodes, w: Request, a: Addr, k: Forest, r: Forest, s: Stack, up: bool, matches: bool): Trace {
    if up then UpFrom(m, w, a, r, s, matches) else DownFrom(m, w, Cons(a, k, r), s, matches)
  }

  lemma CutShort(m: Nodes, w: Request, a: Addr, k: Forest, r: Forest, s: Stack, up: bool, matches: bool)
    ensures var v := Visit(m, w, a, Height(s) + 1, up, matches);
            && (v.decision.Break? ==> Left(m, w, a, k, r, s, up, matches) == Trace(v.calls, v.matches, Broken))
            && (v.decision.Other? && !up ==> Left(m, w, a, k, r, s, up, matches) == Trace(v.calls, v.matches, Bad))
  {
    hide Visit;
  }

  /** The loop's position in the records. */
  ghost predicate Here(m: Nodes, start: Addr, a: Addr, depth: nat, k: Forest, r: Forest, s: Stack, up: bool) {
    && depth == Height(s) + 1 && StackOk(m, s, start) && Placed(m, a, r, Owner(s, start))
    && (!up ==> m[a].child == First(k) && Shaped(m, k, a))
  }

  function WorkLeft(k: Forest, r: Forest, s: Stack, up: bool): nat {
    (if up then 1 else 2 + Work(k)) + Work(r) + WorkAbove(s)
  }

  lemma ToPeer(m: Nodes, w: Request, start: Addr, a: Addr, k: Forest, r: Forest, s: Stack, matches: bool,
      calls: seq<Call>)
    requires Here(m, start, a, Height(s) + 1, k, r, s, true) && r.Cons?
    requires !Visit(m, w, a, Height(s) + 1, true, matches).decision.Break?
    ensures m[a].next == r.node != NULL && Here(m, start, r.node, Height(s) + 1, r.kids, r.rest, s, false)
    ensures WorkLeft(r.kids, r.rest, s, false) < WorkLeft(k, r, s, true)
    ensures var u := Visit(m, w, a, Height(s) + 1, true, matches);
            After(calls, Left(m, w, a, k, r, s, true, matches))
            == After(calls + u.calls, Left(m, w, r.node, r.kids, r.rest, s, false, u.matches))
  {
    hide Visit, UpFrom, DownFrom;
    UpAndOn(m, w, a, r, s, matches);
    var u := Visit(m, w, a, Height(s) + 1, true, matches);
    AfterAfter(calls, u.calls, DownFrom(m, w, r, s, u.matches));
  }

  lemma ToParent(m: Nodes, w: Request, start: Addr, a: Addr, k: Forest, s: Stack, matches: bool, calls: seq<Call>)
    requires Here(m, start, a, Height(s) + 1, k, Nil, s, true)
    requires !Visit(m, w, a, Height(s) + 1, true, matches).decision.Break?
    ensures m[a].next == NULL
    ensures var u := Visit(m, w, a, Height(s) + 1, true, matches);
            var now := After(calls, Left(m, w, a, k, Nil, s, true, matches));
            match s
            case Top => now == Trace(calls + u.calls, u.matches, Finished)
            case Frame(b, r, above) =>
              && m[a].parent == b && Here(m, start, b, Height(above) + 1, Nil, r, above, true)
              && WorkLeft(Nil, r, above, true) < WorkLeft(k, Nil, s, true)
              && now == After(calls + u.calls, Left(m, w, b, Nil, r, above, true, u.matches))
  {
    hide Visit, UpFrom, DownFrom;
    UpAndOn(m, w, a, Nil, s, matches);
    var u := Visit(m, w, a, Height(s) + 1, true, matches);
    AfterAfter(calls, u.calls, DownFrom(m, w, Nil, s, u.matches));
    assert DownFrom(m, w, Nil, s, u.matches) == Finish(m, w, s, u.matches) by { NoPeersLeft(m, w, s, u.matches); }
  }

  lemma NoPeersLeft(m: Nodes, w: Request, s: Stack, matches: bool)
    ensures DownFrom(m, w, Nil, s, matches) == Finish(m, w, s, matches)
  {
    assert [] + Finish(m, w, s, matches).calls == Finish(m, w, s, matches).calls;
  }

  lemma ToChild(m: Nodes, w: Request, start: Addr, a: Addr, k: Forest, r: Forest, s: Stack, matches: bool,
      calls: seq<Call>)
    requires Here(m, start, a, Height(s) + 1, k, r, s, false) && k.Cons? && Height(s) + 1 != w.maxDepth
    requires Visit(m, w, a, Height(s) + 1, false, matches).decision.Continue?
    ensures m[a].child == k.node != NULL && Here(m, start, k.node, Height(s) + 2, k.kids, k.rest, Frame(a, r, s), false)
    ensures WorkLeft(k.kids, k.rest, Frame(a, r, s), false) < WorkLeft(k, r, s, false)
    ensures var v := Visit(m, w, a, Height(s) + 1, false, matches);
            After(calls, Left(m, w, a, k, r, s, false, matches))
            == After(calls + v.calls, Left(m, w, k.node, k.kids, k.rest, Frame(a, r, s), false, v.matches))
  {
    hide Visit, UpFrom, DownFrom;
    DownIntoKids(m, w, a, k, r, s, matches);
    var v := Visit(m, w, a, Height(s) + 1, false, matches);
    AfterAfter(calls, v.calls, DownFrom(m, w, k, Frame(a, r, s), v.matches));
  }

  lemma TurnAround(m: Nodes, w: Request, start: Addr, a: Addr, k: Forest, r: Forest, s: Stack, matches: bool,
      calls: seq<Call>)
    requires Here(m, start, a, Height(s) + 1, k, r, s, false)
    requires var v := Visit(m, w, a, Height(s) + 1, false, matches);
             v.decision.NextPeer? || (v.decision.Continue? && (Height(s) + 1 == w.maxDepth || k.Nil?))
    ensures Here(m, start, a, Height(s) + 1, k, r, s, true)
    ensures WorkLeft(k, r, s, true) < WorkLeft(k, r, s, false)
    ensures var v := Visit(m, w, a, Height(s) + 1, false, matches);
            After(calls, Left(m, w, a, k, r, s, false, matches))
            == After(calls + v.calls, Left(m, w, a, k, r, s, true, v.matches))
  {
    hide Visit, UpFrom, DownFrom;
    DownAndUp(m, w, a, k, r, s, matches);
    var v := Visit(m, w, a, Height(s) + 1, false, matches);
    AfterAfter(calls, v.calls, UpFrom(m, w, a, r, s, v.matches));
  }

  lemma HereFacts(m: Nodes, start: Addr, a: Addr, depth: nat, k: Forest, r: Forest, s: Stack, up: bool)
    requires Here(m, start, a, depth, k, r, s, up)
    ensures a in m && depth == Height(s) + 1 && (r.Nil? <==> m[a].next == NULL)
      && (!up ==> (k.Nil? <==> m[a].child == NULL))
  {
  }

  lemma StartHere(m: Nodes, w: Request, start: Addr, f: Forest)
    requires start in m && Shaped(m, f, start) && f.Cons?
    ensures f.node != NULL && Here(m, start, f.node, 1, f.kids, f.rest, Top, false)
    ensures WalkForest(m, w, f, 1, false) == After([], Left(m, w, f.node, f.kids, f.rest, Top, false, false))
  {
    hide WalkForest, Visit;
    WholeWalk(m, w, f, false);
    NothingBefore(WalkForest(m, w, f, 1, false));
  }

  /**
   * Calls the callbacks on the nodes below `start`, `f` being the forest the
   * links spell out there.  The calls are those of the recursive walk, in its
   * order and with its outcome.
   */
  method ForEachChild(m: Nodes, start: Addr, w: Request, ghost f: Forest) returns (status: Status, calls: seq<Call>)
    requires start != NULL ==> start in m && Shaped(m, f, start) && m[start].child == First(f)
    ensures (!w.hasDown && !w.hasUp) || start == NULL || w.maxDepth == 0 ==> status.InvalidArgument? && calls == []
    ensures (w.hasDown || w.hasUp) && start != NULL && w.maxDepth != 0 ==>
              var t := WalkForest(m, w, f, 1, false);
              calls == t.calls && (status.InvalidArgument? <==> t.outcome.Bad?)
    ensures forall i | 0 <= i < |calls| && w.decide(calls[i].node, calls[i].depth, calls[i].up).Break? ::
              i == |calls| - 1 && status.Ok?
    ensures forall i | 0 <= i < |calls| && !calls[i].up && w.decide(calls[i].node, calls[i].depth, false).Other? ::
              i == |calls| - 1 && status.InvalidArgument?
    ensures (w.hasDown || w.hasUp) && start != NULL && w.maxDepth != 0 && status.InvalidArgument? ==>
              var n := |calls| - 1;
              n >= 0 && !calls[n].up && w.decide(calls[n].node, calls[n].depth, false).Other?
    ensures Distinct(f) ==>
              forall c, d | c in calls && d in calls && !c.up && w.decide(c.node, c.depth, false).NextPeer? ::
                d.node !in BelowIn(f, c.node)
  {
    calls := [];
    if (!w.hasDown && !w.hasUp) || start == NULL || w.maxDepth == 0 {
      return InvalidArgument, calls;
    }
    status := Ok;
    hide Visit, WalkForest, Distinct, BelowIn, EndsWell, CallsIn, Skips, Shaped;
    DecisionsHeeded(m, w, f, 1, false);
    if m[start].child == NULL {
      NothingThere(m, w, f);
      return;
    }
    status, calls := WalkBelowNode(m, start, w, f);
    Answered(w, f, WalkForest(m, w, f, 1, false), status, calls);
  }

  /** The same in terms of status and calls. */
  lemma Answered(w: Request, f: Forest, t: Trace, status: Status, calls: seq<Call>)
    requires EndsWell(w, t) && calls == t.calls && (status.InvalidArgument? <==> t.outcome.Bad?)
    requires Distinct(f) ==> Skips(w, f, t.calls)
    ensures forall i | 0 <= i < |calls| && w.decide(calls[i].node, calls[i].depth, calls[i].up).Break? ::
              i == |calls| - 1 && status.Ok?
    ensures forall i | 0 <= i < |calls| && !calls[i].up && w.decide(calls[i].node, calls[i].depth, false).Other? ::
              i == |calls| - 1 && status.InvalidArgument?
    ensures status.InvalidArgument? ==>
              var n := |calls| - 1;
              n >= 0 && !calls[n].up && w.decide(calls[n].node, calls[n].depth, false).Other?
    ensures Distinct(f) ==>
              forall c, d | c in calls && d in calls && !c.up && w.decide(c.node, c.depth, false).NextPeer? ::
                d.node !in BelowIn(f, c.node)
  {
    hide Distinct, BelowIn;
  }

  lemma NothingThere(m: Nodes, w: Request, f: Forest)
    ensures f.Nil? ==> WalkForest(m, w, f, 1, false) == Trace([], false, Finished)
  {
  }

  /** The loop of the walk. */
  method WalkBelowNode(m: Nodes, start: Addr, w: Request, ghost f: Forest) returns (status: Status, calls: seq<Call>)
    requires start in m && Shaped(m, f, start) && m[start].child == First(f) && f.Cons?
    ensures var t := WalkForest(m, w, f, 1, false);
            calls == t.calls && (status.InvalidArgument? <==> t.outcome.Bad?)
  {
    hide Visit, WalkForest, Left, Here, WorkLeft;
    status, calls := Ok, [];
    ghost var t := WalkForest(m, w, f, 1, false);
    StartHere(m, w, start, f);
    var node, depth: nat, walkingUp, matches := m[start].child, 1, false, false;
    ghost var k, r, s := f.kids, f.rest, Top;
    while depth != 0
      invariant depth != 0 ==> Here(m, start, node, depth, k, r, s, walkingUp)
      invariant depth != 0 ==> t == After(calls, Left(m, w, node, k, r, s, walkingUp, matches))
      invariant depth == 0 ==> t == Trace(calls, matches, Finished)
      decreases depth != 0, WorkLeft(k, r, s, walkingUp)
    {
      HereFacts(m, start, node, depth, k, r, s, walkingUp);
      CutShort(m, w, node, k, r, s, walkingUp, matches);
      ghost var was, before := matches, calls;
      var decision, made;
      decision, made, matches := VisitNode(m, w, node, depth, walkingUp, matches);
      calls := calls + made;
      if decision.Break? {
        return;
      }
      if walkingUp {
        if m[node].next != NULL {
          ToPeer(m, w, start, node, k, r, s, was, before);
          node := m[node].next;
          walkingUp := false;
          k, r := r.kids, r.rest;
        } else {
          ToParent(m, w, start, node, k, s, was, before);
          depth := depth - 1;
          node := m[node].parent;
          if s.Frame? {
            k, r, s := Nil, s.rest, s.above;
          }
        }
      } else {
        match decision
        case Continue =>
          if depth != w.maxDepth && m[node].child != NULL {
            ToChild(m, w, start, node, k, r, s, was, before);
            s := Frame(node, r, s);
            node := m[node].child;
            depth := depth + 1;
            k, r := k.kids, k.rest;
          } else {
            TurnAround(m, w, start, node, k, r, s, was, before);
            walkingUp := true;
          }
        case NextPeer =>
          TurnAround(m, w, start, node, k, r, s, was, before);
          walkingUp := true;
        case Other =>
          return InvalidArgument, calls;
      }
    }
  }

  /** One visit, as the loop makes it. */
  method VisitNode(m: Nodes, w: Request, a: Addr, depth: nat, up: bool, matches: bool)
    returns (decision: Decision, made: seq<Call>, now: bool)
    requires a in m
    ensures Visit(m, w, a, depth, up, matches) == Visited(made, now, decision)
  {
    now, made, decision := matches, [], Continue;
    if m[a].attached.Some? {
      now := w.wanted(m[a].attached.value);
    }
    if !now {
      return;
    }
    if w.permanentOnly && m[a].temporary {
      decision := NextPeer;
      return;
    }
    if if up then w.hasUp else w.hasDown {
      made := [Call(a, depth, up)];
      decision := w.decide(a, depth, up);
    }
  }

  lemma NothingBefore(t: Trace)
    ensures t == After([], t)
  {
    assert [] + t.calls == t.calls;
  }

  // ----- what the walk visits -----

  /** Whether a node's callbacks are called. */
  predicate Selected(m: Nodes, w: Request, a: Addr) {
    a in m && m[a].attached.Some? && w.wanted(m[a].attached.value) && !(w.permanentOnly && m[a].temporary)
  }

  /** Whether the walk goes below a node at some depth: not below the limit, nor below a temporary node it skips or
      one whose descending callback asks for the next peer. */
  predicate Entered(m: Nodes, w: Request, a: Addr, depth: nat) {
    && depth != w.maxDepth
    && !(a in m && m[a].attached.Some? && w.wanted(m[a].attached.value) && w.permanentOnly && m[a].temporary)
    && !(Selected(m, w, a) && w.hasDown && w.decide(a, depth, false).NextPeer?)
  }

  function One(m: Nodes, w: Request, a: Addr, depth: nat, up: bool): seq<Call> {
    if Selected(m, w, a) then [Call(a, depth, up)] else []
  }

  /** The selected nodes in pre-order. */
  function PreOrder(m: Nodes, w: Request, f: Forest, depth: nat): seq<Call> {
    match f
    case Nil => []
    case Cons(a, k, r) =>
      One(m, w, a, depth, false) + (if Entered(m, w, a, depth) then PreOrder(m, w, k, depth + 1) else [])
      + PreOrder(m, w, r, depth)
  }

  /** The selected nodes in post-order. */
  function PostOrder(m: Nodes, w: Request, f: Forest, depth: nat): seq<Call> {
    match f
    case Nil => []
    case Cons(a, k, r) =>
      (if Entered(m, w, a, depth) then PostOrder(m, w, k, depth + 1) else []) + One(m, w, a, depth, true)
      + PostOrder(m, w, r, depth)
  }

  /** The calls in one direction. */
  function Only(calls: seq<Call>, up: bool): seq<Call> {
    if calls == [] then []
    else (if calls[0].up == up then [calls[0]] else []) + Only(calls[1..], up)
  }

  function Head(calls: seq<Call>, up: bool): seq<Call>
    requires calls != []
  {
    if calls[0].up == up then [calls[0]] else []
  }

  lemma OnlyHead(calls: seq<Call>, up: bool)
    requires calls != []
    ensures Only(calls, up) == Head(calls, up) + Only(calls[1..], up)
  {
  }

  lemma {:induction false} OnlyAppend(a: seq<Call>, b: seq<Call>, up: bool)
    ensures Only(a + b, up) == Only(a, up) + Only(b, up)
    decreases |a|
  {
    if a == [] {
      assert a + b == b;
    } else {
      OnlyAppend(a[1..], b, up);
      OnlyStep(a, b, up);
    }
  }

  lemma OnlyStep(a: seq<Call>, b: seq<Call>, up: bool)
    requires a != [] && Only(a[1..] + b, up) == Only(a[1..], up) + Only(b, up)
    ensures Only(a + b, up) == Only(a, up) + Only(b, up)
  {
    hide Only;
    OnlyHead(a, up);
    OnlyHead(a + b, up);
    assert (a + b)[1..] == a[1..] + b;
    Joined(Head(a, up), Only(a[1..], up), Only(b, up));
  }

  lemma Joined(x: seq<Call>, y: seq<Call>, z: seq<Call>)
    ensures x + (y + z) == x + y + z
  {
  }

  /** A callback that always lets the walk go on. */
  ghost predicate Agreeable(w: Request) {
    forall a, depth, up :: w.decide(a, depth, up) == Continue
  }

  /** The calls of the direction asked for, if it has a callback. */
  function Heard(w: Request, calls: seq<Call>, up: bool): seq<Call> {
    if (if up then w.hasUp else w.hasDown) then calls else []
  }

  lemma OrderOfNode(m: Nodes, w: Request, f: Forest, depth: nat, v: seq<Call>, inner: seq<Call>, u: seq<Call>,
      rest: seq<Call>)
    requires f.Cons?
    requires v == Heard(w, One(m, w, f.node, depth, false), false) && Only(v, false) == v && Only(v, true) == []
    requires u == Heard(w, One(m, w, f.node, depth, true), true) && Only(u, true) == u && Only(u, false) == []
    requires var e := Entered(m, w, f.node, depth);
             && Only(inner, false) == Heard(w, if e then PreOrder(m, w, f.kids, depth + 1) else [], false)
             && Only(inner, true) == Heard(w, if e then PostOrder(m, w, f.kids, depth + 1) else [], true)
    requires Only(rest, false) == Heard(w, PreOrder(m, w, f.rest, depth), false)
    requires Only(rest, true) == Heard(w, PostOrder(m, w, f.rest, depth), true)
    ensures Only(v + inner + u + rest, false) == Heard(w, PreOrder(m, w, f, depth), false)
    ensures Only(v + inner + u + rest, true) == Heard(w, PostOrder(m, w, f, depth), true)
  {
    hide Only, Entered, One;
    forall up: bool
      ensures Only(v + inner + u + rest, up) == Only(v, up) + Only(inner, up) + Only(u, up) + Only(rest, up)
    {
      OnlyAppend(v, inner, up);
      OnlyAppend(v + inner, u, up);
      OnlyAppend(v + inner + u, rest, up);
    }
  }

  // ----- each node once -----

  function Members(f: Forest): set<Addr> {
    if f.Nil? then {} else {f.node} + Members(f.kids) + Members(f.rest)
  }

  ghost predicate Distinct(f: Forest) {
    f.Cons? ==>
      && f.node !in Members(f.kids) && f.node !in Members(f.rest) && Members(f.kids) !! Members(f.rest)
      && Distinct(f.kids) && Distinct(f.rest)
  }

  // ----- what decisions do -----

  /** The nodes below one of a forest. */
  function BelowIn(f: Forest, a: Addr): set<Addr> {
    if f.Nil? then {}
    else if f.node == a then Members(f.kids)
    else BelowIn(f.kids, a) + BelowIn(f.rest, a)
  }

  lemma {:induction false} BelowAreMembers(f: Forest, a: Addr)
    ensures BelowIn(f, a) <= Members(f) && (a !in Members(f) ==> BelowIn(f, a) == {})
    decreases f
  {
    if f.Cons? {
      BelowAreMembers(f.kids, a);
      BelowAreMembers(f.rest, a);
    }
  }

  /** Which nodes those are, by parent links: the children of the one, and the children of each below it. */
  lemma {:induction false} BelowByParents(m: Nodes, f: Forest, parent: Addr, a: Addr, d: Addr)
    requires Shaped(m, f, parent) && Distinct(f) && parent !in Members(f) && a in Members(f) && d in Members(f)
    ensures d in m && (d in BelowIn(f, a) <==> m[d].parent == a || m[d].parent in BelowIn(f, a))
    ensures m[d].parent == parent || m[d].parent in Members(f)
    decreases f
  {
    var x, k, r := f.node, f.kids, f.rest;
    BelowAreMembers(k, a);
    BelowAreMembers(r, a);
    if d in Members(k) {
      if a in Members(k) {
        BelowByParents(m, k, x, a, d);
      } else {
        BelowByParents(m, k, x, d, d);
      }
    } else if d in Members(r) {
      if a in Members(r) {
        BelowByParents(m, r, parent, a, d);
      } else {
        BelowByParents(m, r, parent, d, d);
      }
    }
  }

  /** A call whose decision ends the walk. */
  predicate Stops(w: Request, c: Call) {
    w.decide(c.node, c.depth, c.up).Break? || (!c.up && w.decide(c.node, c.depth, c.up).Other?)
  }

  /** Only the last call may end the walk, and it says how. */
  ghost predicate EndsWell(w: Request, t: Trace) {
    var n := |t.calls| - 1;
    && (forall i | 0 <= i < n :: !Stops(w, t.calls[i]))
    && (if n < 0 || !Stops(w, t.calls[n]) then t.outcome.Finished?
        else if w.decide(t.calls[n].node, t.calls[n].depth, t.calls[n].up).Break? then t.outcome.Broken?
        else t.outcome.Bad?)
  }

  /** No node below one whose callback asked for the next peer is called. */
  ghost predicate Skips(w: Request, f: Forest, calls: seq<Call>) {
    forall c, d | c in calls && d in calls && !c.up && w.decide(c.node, c.depth, false).NextPeer? ::
      d.node !in BelowIn(f, c.node)
  }

  ghost predicate CallsIn(calls: seq<Call>, s: set<Addr>) {
    forall c | c in calls :: c.node in s
  }

  lemma {:induction false} DecisionsHeeded(m: Nodes, w: Request, f: Forest, depth: nat, matches: bool)
    ensures var t := WalkForest(m, w, f, depth, matches);
            EndsWell(w, t) && CallsIn(t.calls, Members(f)) && (Distinct(f) ==> Skips(w, f, t.calls))
    decreases f
  {
    if f.Cons? {
      hide Visit, WayUp, EndsWell, CallsIn, Skips, NodeTrace, IsVisit;
      var a, k, r := f.node, f.kids, f.rest;
      var v := Visit(m, w, a, depth, false, matches);
      DecisionsHeeded(m, w, k, depth + 1, v.matches);
      VisitHeeded(m, w, a, depth, false, matches);
      var inner := if v.decision.Continue? && depth != w.maxDepth then WalkForest(m, w, k, depth + 1, v.matches)
                   else Trace([], v.matches, Finished);
      NothingHeeded(w, k, v.matches);
      var u := Visit(m, w, a, depth, true, inner.matches);
      VisitHeeded(m, w, a, depth, true, inner.matches);
      DecisionsHeeded(m, w, r, depth, u.matches);
      WalkOfNode(m, w, a, k, r, depth, matches, inner);
      hide WalkForest;
      var rest := WalkForest(m, w, r, depth, u.matches);
      var t := WalkForest(m, w, f, depth, matches);
      NodeEndsWell(w, t, v, inner, u, rest, a, depth);
      NodeSkips(w, f, t, v, inner, u, rest, depth);
    }
  }

  lemma NothingHeeded(w: Request, f: Forest, matches: bool)
    ensures EndsWell(w, Trace([], matches, Finished)) && CallsIn([], Members(f)) && Skips(w, f, [])
  {
  }

  /** What one visit does: at most one call, of the node itself, whose decision it passes on. */
  ghost predicate IsVisit(w: Request, v: Visited, a: Addr, depth: nat, up: bool) {
    if v.calls == [] then v.decision.Continue? || v.decision.NextPeer?
    else v.calls == [Call(a, depth, up)] && v.decision == w.decide(a, depth, up)
  }

  lemma VisitHeeded(m: Nodes, w: Request, a: Addr, depth: nat, up: bool, matches: bool)
    ensures IsVisit(w, Visit(m, w, a, depth, up, matches), a, depth, up)
  {
  }

  /** The walk of a node and its peers, whatever is decided. */
  lemma WalkOfNode(m: Nodes, w: Request, a: Addr, k: Forest, r: Forest, depth: nat, matches: bool, inner: Trace)
    requires var v := Visit(m, w, a, depth, false, matches);
             inner == if v.decision.Continue? && depth != w.maxDepth then WalkForest(m, w, k, depth + 1, v.matches)
                      else Trace([], v.matches, Finished)
    ensures var v := Visit(m, w, a, depth, false, matches);
            var u := Visit(m, w, a, depth, true, inner.matches);
            WalkForest(m, w, Cons(a, k, r), depth, matches)
            == NodeTrace(v, inner, u, WalkForest(m, w, r, depth, u.matches))
  {
    hide Visit;
  }

  function NodeTrace(v: Visited, inner: Trace, u: Visited, rest: Trace): Trace {
    if v.decision.Break? then Trace(v.calls, v.matches, Broken)
    else if v.decision.Other? then Trace(v.calls, v.matches, Bad)
    else if !inner.outcome.Finished? then After(v.calls, inner)
    else if u.decision.Break? then Trace(v.calls + inner.calls + u.calls, u.matches, Broken)
    else After(v.calls + inner.calls + u.calls, rest)
  }

  lemma NodeEndsWell(w: Request, t: Trace, v: Visited, inner: Trace, u: Visited, rest: Trace, a: Addr, depth: nat)
    requires IsVisit(w, v, a, depth, false) && IsVisit(w, u, a, depth, true)
    requires t == NodeTrace(v, inner, u, rest) && EndsWell(w, inner) && EndsWell(w, rest)
    ensures EndsWell(w, t)
  {
    hide EndsWell, Stops;
    OneEndsWell(w, v, a, depth, false);
    if !v.decision.Break? && !v.decision.Other? {
      FirstEndWell(w, v.calls, inner);
      if inner.outcome.Finished? {
        OneEndsWell(w, u, a, depth, true);
        var before := v.calls + inner.calls;
        if u.decision.Break? {
          FirstEndWell(w, before, Trace(u.calls, u.matches, Broken));
        } else {
          FirstEndWell(w, before, Trace(u.calls, u.matches, Finished));
          FirstEndWell(w, before + u.calls, rest);
        }
      }
    }
  }

  lemma OneEndsWell(w: Request, v: Visited, a: Addr, depth: nat, up: bool)
    requires IsVisit(w, v, a, depth, up)
    ensures EndsWell(w, Trace(v.calls, v.matches, if v.decision.Break? then Broken
                                                  else if v.decision.Other? && !up then Bad else Finished))
    ensures !v.decision.Break? && (up || !v.decision.Other?) ==> forall i | 0 <= i < |v.calls| :: !Stops(w, v.calls[i])
  {
  }

  lemma FirstEndWell(w: Request, first: seq<Call>, t: Trace)
    requires (forall i | 0 <= i < |first| :: !Stops(w, first[i])) && EndsWell(w, t)
    ensures EndsWell(w, After(first, t))
    ensures t.outcome.Finished? ==> forall i | 0 <= i < |first + t.calls| :: !Stops(w, (first + t.calls)[i])
  {
    hide Stops;
  }

  lemma NodeSkips(w: Request, f: Forest, t: Trace, v: Visited, inner: Trace, u: Visited, rest: Trace, depth: nat)
    requires f.Cons? && IsVisit(w, v, f.node, depth, false) && IsVisit(w, u, f.node, depth, true)
    requires t == NodeTrace(v, inner, u, rest)
    requires CallsIn(inner.calls, Members(f.kids)) && CallsIn(rest.calls, Members(f.rest))
    requires v.decision.NextPeer? ==> inner.calls == []
    requires Distinct(f) ==> Skips(w, f.kids, inner.calls) && Skips(w, f.rest, rest.calls)
    ensures CallsIn(t.calls, Members(f)) && (Distinct(f) ==> Skips(w, f, t.calls))
  {
    hide BelowIn, Distinct, NodeTrace, Members, Skips, CallsIn, IsVisit;
    forall c | c in t.calls ensures IsOf(w, f, depth, inner.calls, rest.calls, c) {
      PartOf(w, f, t, v, inner, u, rest, depth, c);
    }
    AllIn(w, f, depth, inner.calls, rest.calls, t.calls);
    if Distinct(f) {
      forall c, d | c in t.calls && d in t.calls && !c.up && w.decide(c.node, c.depth, false).NextPeer?
        ensures d.node !in BelowIn(f, c.node)
      {
        PairSkips(w, f, depth, inner.calls, rest.calls, c, d);
      }
      AllSkip(w, f, t.calls);
    }
  }

  /** A call of a node's walk: its own, one below it, or one of its peers'.  If it asks for the next peer there are
      none below. */
  ghost predicate IsOf(w: Request, f: Forest, depth: nat, inner: seq<Call>, rest: seq<Call>, c: Call)
    requires f.Cons?
  {
    || c in inner || c in rest || c == Call(f.node, depth, true)
    || (c == Call(f.node, depth, false) && (w.decide(f.node, depth, false).NextPeer? ==> inner == []))
  }

  lemma PartOf(w: Request, f: Forest, t: Trace, v: Visited, inner: Trace, u: Visited, rest: Trace, depth: nat, c: Call)
    requires f.Cons? && IsVisit(w, v, f.node, depth, false) && IsVisit(w, u, f.node, depth, true)
    requires t == NodeTrace(v, inner, u, rest) && (v.decision.NextPeer? ==> inner.calls == []) && c in t.calls
    ensures IsOf(w, f, depth, inner.calls, rest.calls, c)
  {
    assert c in v.calls || c in inner.calls || c in u.calls || c in rest.calls;
  }

  lemma AllIn(w: Request, f: Forest, depth: nat, inner: seq<Call>, rest: seq<Call>, calls: seq<Call>)
    requires f.Cons? && CallsIn(inner, Members(f.kids)) && CallsIn(rest, Members(f.rest))
    requires forall c | c in calls :: IsOf(w, f, depth, inner, rest, c)
    ensures CallsIn(calls, Members(f))
  {
  }

  lemma AllSkip(w: Request, f: Forest, calls: seq<Call>)
    requires forall c, d | c in calls && d in calls && !c.up && w.decide(c.node, c.depth, false).NextPeer? ::
               d.node !in BelowIn(f, c.node)
    ensures Skips(w, f, calls)
  {
    hide BelowIn;
  }

  lemma PairSkips(w: Request, f: Forest, depth: nat, inner: seq<Call>, rest: seq<Call>, c: Call, d: Call)
    requires f.Cons? && Distinct(f) && CallsIn(inner, Members(f.kids)) && CallsIn(rest, Members(f.rest))
    requires Skips(w, f.kids, inner) && Skips(w, f.rest, rest) && !c.up && w.decide(c.node, c.depth, false).NextPeer?
    requires IsOf(w, f, depth, inner, rest, c) && IsOf(w, f, depth, inner, rest, d)
    ensures d.node !in BelowIn(f, c.node)
  {
    BelowAreMembers(f.kids, c.node);
    BelowAreMembers(f.rest, c.node);
  }

  /** The selected nodes the walk can reach. */
  function Chosen(m: Nodes, w: Request, f: Forest, depth: nat): (c: set<Addr>)
    ensures c <= Members(f)
  {
    match f
    case Nil => {}
    case Cons(a, k, r) =>
      (if Selected(m, w, a) then {a} else {})
      + (if Entered(m, w, a, depth) then Chosen(m, w, k, depth + 1) else {})
      + Chosen(m, w, r, depth)
  }

  function NodesOf(calls: seq<Call>): seq<Addr> {
    seq(|calls|, i requires 0 <= i < |calls| => calls[i].node)
  }

  lemma NodesOfAppend(a: seq<Call>, b: seq<Call>, c: seq<Call>)
    ensures multiset(NodesOf(a + b + c)) == multiset(NodesOf(a)) + multiset(NodesOf(b)) + multiset(NodesOf(c))
  {
    assert NodesOf(a + b + c) == NodesOf(a) + NodesOf(b) + NodesOf(c);
  }

  lemma DisjointParts(a: set<Addr>, b: set<Addr>, c: set<Addr>)
    requires a !! b && a !! c && b !! c
    ensures multiset(a + b + c) == multiset(a) + multiset(b) + multiset(c)
  {
  }

  /** Every node of a set occurs once among the calls, and no other node does. */
  ghost predicate Counts(calls: seq<Call>, c: set<Addr>) {
    multiset(NodesOf(calls)) == multiset(c)
  }

  /** In a tree each selected node within reach occurs exactly once in either order, and no other node does. */
  lemma {:induction false} OnceEach(m: Nodes, w: Request, f: Forest, depth: nat)
    requires Distinct(f)
    ensures Counts(PreOrder(m, w, f, depth), Chosen(m, w, f, depth))
    ensures Counts(PostOrder(m, w, f, depth), Chosen(m, w, f, depth))
    decreases f
  {
    if f.Nil? {
      NoNodes();
    } else {
      OnceEach(m, w, f.kids, depth + 1);
      OnceEach(m, w, f.rest, depth);
      OnceNode(m, w, f, depth);
    }
  }

  lemma OnceNode(m: Nodes, w: Request, f: Forest, depth: nat)
    requires Distinct(f) && f.Cons?
    requires Counts(PreOrder(m, w, f.kids, depth + 1), Chosen(m, w, f.kids, depth + 1))
    requires Counts(PostOrder(m, w, f.kids, depth + 1), Chosen(m, w, f.kids, depth + 1))
    requires Counts(PreOrder(m, w, f.rest, depth), Chosen(m, w, f.rest, depth))
    requires Counts(PostOrder(m, w, f.rest, depth), Chosen(m, w, f.rest, depth))
    ensures Counts(PreOrder(m, w, f, depth), Chosen(m, w, f, depth))
    ensures Counts(PostOrder(m, w, f, depth), Chosen(m, w, f, depth))
  {
    hide Entered, Selected, One, Counts, Distinct, PreOrder, PostOrder, Chosen;
    var a, k, r := f.node, f.kids, f.rest;
    Unfolded(m, w, a, k, r, depth);
    DistinctParts(f);
    NodeOfOne(m, w, a, depth);
    NoNodes();
    var one := if Selected(m, w, a) then {a} else {};
    var c := Chosen(m, w, r, depth);
    var pre, post, inner :=
      if Entered(m, w, a, depth) then PreOrder(m, w, k, depth + 1) else [],
      if Entered(m, w, a, depth) then PostOrder(m, w, k, depth + 1) else [],
      if Entered(m, w, a, depth) then Chosen(m, w, k, depth + 1) else {};
    Counted(One(m, w, a, depth, false), pre, PreOrder(m, w, r, depth), one, inner, c);
    Counted(post, One(m, w, a, depth, true), PostOrder(m, w, r, depth), inner, one, c);
    assert one + inner == inner + one;
  }

  lemma Counted(x: seq<Call>, y: seq<Call>, z: seq<Call>, a: set<Addr>, b: set<Addr>, c: set<Addr>)
    requires a !! b && a !! c && b !! c
    requires Counts(x, a) && Counts(y, b) && Counts(z, c)
    ensures Counts(x + y + z, a + b + c)
  {
    hide NodesOf;
    NodesOfAppend(x, y, z);
    DisjointParts(a, b, c);
  }

  lemma Unfolded(m: Nodes, w: Request, a: Addr, k: Forest, r: Forest, depth: nat)
    ensures var e := Entered(m, w, a, depth);
            && PreOrder(m, w, Cons(a, k, r), depth)
               == One(m, w, a, depth, false) + (if e then PreOrder(m, w, k, depth + 1) else [])
                 + PreOrder(m, w, r, depth)
            && PostOrder(m, w, Cons(a, k, r), depth)
               == (if e then PostOrder(m, w, k, depth + 1) else []) + One(m, w, a, depth, true)
                 + PostOrder(m, w, r, depth)
            && Chosen(m, w, Cons(a, k, r), depth)
               == (if Selected(m, w, a) then {a} else {}) + (if e then Chosen(m, w, k, depth + 1) else {})
                 + Chosen(m, w, r, depth)
  {
    hide Entered, Selected, One;
  }

  lemma NoNodes()
    ensures Counts([], {})
  {
  }

  lemma NodeOfOne(m: Nodes, w: Request, a: Addr, depth: nat)
    ensures forall up :: Counts(One(m, w, a, depth, up), if Selected(m, w, a) then {a} else {})
  {
    forall up ensures Counts(One(m, w, a, depth, up), if Selected(m, w, a) then {a} else {}) {
      if Selected(m, w, a) {
        assert NodesOf(One(m, w, a, depth, up)) == [a];
      }
    }
  }

  lemma DistinctParts(f: Forest)
    requires Distinct(f) && f.Cons?
    ensures f.node !in Members(f.kids) && f.node !in Members(f.rest) && Members(f.kids) !! Members(f.rest)
  {
  }

  // ----- the forest of a tree -----

  /** The subtrees of p's children from number i on, to a height. */
  ghost function ForestOf(t: Tree, p: Addr, i: nat, height: nat): Forest
    decreases height, if p in t.kids then |t.kids[p]| - i else 0
  {
    if p !in t.kids || i >= |t.kids[p]| || height == 0 then Nil
    else Cons(t.kids[p][i], ForestOf(t, t.kids[p][i], 0, height - 1), ForestOf(t, p, i + 1, height))
  }

  /** The node at level l on the way from c to the root. */
  ghost function Ancestor(m: Nodes, t: Tree, root: Addr, c: Addr, l: nat): (a: Addr)
    requires TreeOk(m, t, root) && c in t.kids && l <= t.level[c]
    ensures a in t.kids && t.level[a] == l
    decreases t.level[c]
  {
    if t.level[c] == l then c
    else
      ParentFacts(m, t, root, c);
      Ancestor(m, t, root, m[c].parent, l)
  }

  lemma ParentFacts(m: Nodes, t: Tree, root: Addr, c: Addr)
    requires TreeOk(m, t, root) && c in t.kids && t.level[c] != 0
    ensures c in m && m[c].parent in t.kids && t.level[m[c].parent] == t.level[c] - 1 && c in t.kids[m[c].parent]
  {
    assert Hangs(m, t, c);
    assert Below(t, m[c].parent);
  }

  lemma {:induction false} AncestorStep(m: Nodes, t: Tree, root: Addr, c: Addr, l: nat)
    requires TreeOk(m, t, root) && c in t.kids && l < t.level[c]
    ensures Ancestor(m, t, root, c, l + 1) in m
    ensures Ancestor(m, t, root, c, l) == m[Ancestor(m, t, root, c, l + 1)].parent
    ensures Ancestor(m, t, root, c, l + 1) in t.kids[Ancestor(m, t, root, c, l)]
    decreases t.level[c]
  {
    ParentFacts(m, t, root, c);
    if l + 1 < t.level[c] {
      AncestorStep(m, t, root, m[c].parent, l);
    }
  }

  /** c lies below p, in the subtree of a child from number i on. */
  ghost predicate Under(m: Nodes, t: Tree, root: Addr, p: Addr, i: nat, c: Addr)
    requires TreeOk(m, t, root) && p in t.kids && i <= |t.kids[p]|
  {
    c in t.kids && t.level[p] < t.level[c] && Ancestor(m, t, root, c, t.level[p] + 1) in t.kids[p][i..]
  }

  lemma UnderFirst(m: Nodes, t: Tree, root: Addr, p: Addr, i: nat, c: Addr)
    requires TreeOk(m, t, root) && p in t.kids && i < |t.kids[p]|
    ensures var a := t.kids[p][i];
            && a in t.kids && t.level[a] == t.level[p] + 1
            && (Under(m, t, root, p, i, c) <==> c == a || Under(m, t, root, a, 0, c) || Under(m, t, root, p, i + 1, c))
            && !(c == a && Under(m, t, root, a, 0, c))
            && !(c == a && Under(m, t, root, p, i + 1, c))
            && !(Under(m, t, root, a, 0, c) && Under(m, t, root, p, i + 1, c))
  {
    var s := t.kids[p];
    ChildFacts(m, t, root, p, i);
    assert s[i..] == [s[i]] + s[i + 1..];
    assert s[i] !in s[i + 1..];
    assert t.kids[s[i]][0..] == t.kids[s[i]];
    if c in t.kids && t.level[s[i]] < t.level[c] {
      AncestorStep(m, t, root, c, t.level[s[i]]);
      var b := Ancestor(m, t, root, c, t.level[s[i]] + 1);
      if b in t.kids[s[i]] {
        assert Linked(m, s[i], t.kids[s[i]]);
        ChildOf(m, s[i], t.kids[s[i]], b);
      }
    }
  }

  ghost predicate Bounded(t: Tree, top: nat) {
    forall c | c in t.level :: t.level[c] <= top
  }

  /** The records of a valid tree spell out a forest below every node: exactly its descendants, each once. */
  lemma {:induction false} ForestIs(m: Nodes, t: Tree, root: Addr, p: Addr, i: nat, height: nat)
    requires TreeOk(m, t, root) && p in t.kids && i <= |t.kids[p]| && Bounded(t, t.level[p] + height)
    ensures var f := ForestOf(t, p, i, height);
            && Shaped(m, f, p) && First(f) == At(t.kids[p], i) && Distinct(f)
            && forall c :: c in Members(f) <==> Under(m, t, root, p, i, c)
    decreases height, |t.kids[p]| - i
  {
    if i < |t.kids[p]| {
      var a := t.kids[p][i];
      UnderFirst(m, t, root, p, i, p);
      assert height != 0;
      ForestIs(m, t, root, a, 0, height - 1);
      ForestIs(m, t, root, p, i + 1, height);
      ForestNode(m, t, root, p, i, ForestOf(t, a, 0, height - 1), ForestOf(t, p, i + 1, height));
    }
  }

  lemma ForestNode(m: Nodes, t: Tree, root: Addr, p: Addr, i: nat, k: Forest, r: Forest)
    requires TreeOk(m, t, root) && p in t.kids && i < |t.kids[p]| && t.kids[p][i] in t.kids
    requires Shaped(m, k, t.kids[p][i]) && First(k) == At(t.kids[t.kids[p][i]], 0) && Distinct(k)
    requires Shaped(m, r, p) && First(r) == At(t.kids[p], i + 1) && Distinct(r)
    requires forall c :: c in Members(k) <==> Under(m, t, root, t.kids[p][i], 0, c)
    requires forall c :: c in Members(r) <==> Under(m, t, root, p, i + 1, c)
    ensures var f := Cons(t.kids[p][i], k, r);
            && Shaped(m, f, p) && First(f) == At(t.kids[p], i) && Distinct(f)
            && forall c :: c in Members(f) <==> Under(m, t, root, p, i, c)
  {
    hide TreeOk, Under;
    ChildFacts(m, t, root, p, i);
    Namespace.ListFacts(m, t, root, p);
    forall c
      ensures c in Members(Cons(t.kids[p][i], k, r)) <==> Under(m, t, root, p, i, c)
      ensures !(c in Members(k) && c in Members(r))
      ensures !(c == t.kids[p][i] && (c in Members(k) || c in Members(r)))
    {
      UnderFirst(m, t, root, p, i, c);
    }
  }

  lemma {:induction false} LevelsBounded(l: map<Addr, nat>) returns (top: nat)
    ensures forall c | c in l :: l[c] <= top
    decreases |l|
  {
    if l == map[] {
      top := 0;
    } else {
      var a :| a in l;
      var rest := l - {a};
      assert |rest| < |l| by { assert rest.Keys == l.Keys - {a}; }
      top := LevelsBounded(rest);
      top := if top < l[a] then l[a] else top;
      forall c | c in l ensures l[c] <= top {
        assert c == a || c in rest;
      }
    }
  }
}
