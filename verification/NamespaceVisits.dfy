/**
 * Which nodes the walk calls back, for every forest (uacpi/source/namespace.c).
 *
 * The walk tests a node each time it comes by, on the way down and on the way
 * up.  A node without an object leaves the match flag as it is, so it is called
 * back on the strength of whichever node with an object was tested last.
 */
module NamespaceVisits {
  import opened NamespaceTree
  import opened NamespaceWalk
  import Namespace

  // ----- visits -----

  predicate HasObject(m: Nodes, a: Addr) {
    a in m && m[a].attached.Some?
  }

  /** A node the walk passes over in any case. */
  predicate Skipped(m: Nodes, w: Request, a: Addr) {
    w.permanentOnly && a in m && m[a].temporary
  }

  predicate HasCallback(w: Request, up: bool) {
    if up then w.hasUp else w.hasDown
  }

  /** The match flag after a sequence of visits. */
  function FlagAfter(m: Nodes, w: Request, vs: seq<Call>, start: bool): bool {
    if vs == [] then start else FlagAfter(m, w, vs[1..], Test(m, w, vs[0].node, start))
  }

  /** Whether the walk goes below a node, given the match flag there. */
  predicate Goes(m: Nodes, w: Request, a: Addr, depth: nat, flag: bool) {
    && depth != w.maxDepth && !(flag && Skipped(m, w, a))
    && !(Calls(m, w, Call(a, depth, false), flag) && w.decide(a, depth, false).NextPeer?)
  }

  /** The visits of a walk, in order, whether or not they lead to a call. */
  function VisitsOf(m: Nodes, w: Request, f: Forest, depth: nat, start: bool): seq<Call>
    decreases f, 0
  {
    match f
    case Nil => []
    case Cons(a, k, r) =>
      [Call(a, depth, false)] + VisitsBelow(m, w, a, k, depth, start) + [Call(a, depth, true)]
      + VisitsOf(m, w, r, depth, FlagPast(m, w, a, k, depth, start))
  }

  function VisitsBelow(m: Nodes, w: Request, a: Addr, k: Forest, depth: nat, start: bool): seq<Call>
    decreases k, 1
  {
    var flag := Test(m, w, a, start);
    if Goes(m, w, a, depth, flag) then VisitsOf(m, w, k, depth + 1, flag) else []
  }

  /** The match flag once a node is done with. */
  function FlagPast(m: Nodes, w: Request, a: Addr, k: Forest, depth: nat, start: bool): bool
    decreases k, 2
  {
    Test(m, w, a, FlagAfter(m, w, VisitsBelow(m, w, a, k, depth, start), Test(m, w, a, start)))
  }

  /** Whether a visit with the flag as given leads to a call. */
  predicate Calls(m: Nodes, w: Request, v: Call, flag: bool) {
    flag && !Skipped(m, w, v.node) && HasCallback(w, v.up)
  }

  function CallOf(m: Nodes, w: Request, v: Call, flag: bool): seq<Call> {
    if Calls(m, w, v, flag) then [v] else []
  }

  /** The visits that lead to calls. */
  function Picked(m: Nodes, w: Request, vs: seq<Call>, start: bool): seq<Call> {
    if vs == [] then []
    else
      var flag := Test(m, w, vs[0].node, start);
      CallOf(m, w, vs[0], flag) + Picked(m, w, vs[1..], flag)
  }

  lemma {:induction false} FlagAppend(m: Nodes, w: Request, a: seq<Call>, b: seq<Call>, start: bool)
    ensures FlagAfter(m, w, a + b, start) == FlagAfter(m, w, b, FlagAfter(m, w, a, start))
    decreases |a|
  {
    if a == [] {
      assert a + b == b;
    } else {
      assert (a + b)[1..] == a[1..] + b;
      FlagAppend(m, w, a[1..], b, Test(m, w, a[0].node, start));
    }
  }

  lemma {:induction false} PickedAppend(m: Nodes, w: Request, a: seq<Call>, b: seq<Call>, start: bool)
    ensures Picked(m, w, a + b, start) == Picked(m, w, a, start) + Picked(m, w, b, FlagAfter(m, w, a, start))
    decreases |a|
  {
    if a == [] {
      assert a + b == b;
    } else {
      PickedAppend(m, w, a[1..], b, Test(m, w, a[0].node, start));
      PickedStep(m, w, a, b, start);
    }
  }

  lemma PickedStep(m: Nodes, w: Request, a: seq<Call>, b: seq<Call>, start: bool)
    requires a != []
    requires var flag := Test(m, w, a[0].node, start);
             Picked(m, w, a[1..] + b, flag)
               == Picked(m, w, a[1..], flag) + Picked(m, w, b, FlagAfter(m, w, a[1..], flag))
    ensures Picked(m, w, a + b, start) == Picked(m, w, a, start) + Picked(m, w, b, FlagAfter(m, w, a, start))
  {
    hide Test, CallOf;
    assert (a + b)[1..] == a[1..] + b && (a + b)[0] == a[0];
    var flag := Test(m, w, a[0].node, start);
    Joined(CallOf(m, w, a[0], flag), Picked(m, w, a[1..], flag), Picked(m, w, b, FlagAfter(m, w, a[1..], flag)));
  }

  lemma OneVisit(m: Nodes, w: Request, v: Call, start: bool)
    ensures FlagAfter(m, w, [v], start) == Test(m, w, v.node, start)
    ensures Picked(m, w, [v], start) == CallOf(m, w, v, Test(m, w, v.node, start))
  {
    var flag := Test(m, w, v.node, start);
    assert [v][1..] == [];
    assert FlagAfter(m, w, [], flag) == flag && Picked(m, w, [], flag) == [];
  }

  // ----- up to where the walk goes -----

  /** Calls up to the first that ends the walk. */
  function UpTo(w: Request, calls: seq<Call>): seq<Call> {
    if calls == [] then [] else if Stops(w, calls[0]) then [calls[0]] else [calls[0]] + UpTo(w, calls[1..])
  }

  function OutcomeOf(w: Request, calls: seq<Call>): Outcome {
    if calls == [] then Finished
    else if !Stops(w, calls[0]) then OutcomeOf(w, calls[1..])
    else if w.decide(calls[0].node, calls[0].depth, calls[0].up).Break? then Broken
    else Bad
  }

  lemma {:induction false} UpToAppend(w: Request, a: seq<Call>, b: seq<Call>)
    ensures OutcomeOf(w, a + b) == if OutcomeOf(w, a).Finished? then OutcomeOf(w, b) else OutcomeOf(w, a)
    ensures UpTo(w, a + b) == UpTo(w, a) + if OutcomeOf(w, a).Finished? then UpTo(w, b) else []
    ensures OutcomeOf(w, a).Finished? ==> UpTo(w, a) == a
    decreases |a|
  {
    hide Stops;
    if a == [] {
      assert a + b == b;
    } else {
      UpToAppend(w, a[1..], b);
      UpToStep(w, a);
      UpToStep(w, a + b);
      assert (a + b)[1..] == a[1..] + b && (a + b)[0] == a[0];
      hide UpTo, OutcomeOf;
      var rest := if OutcomeOf(w, a[1..]).Finished? then UpTo(w, b) else [];
      Joined([a[0]], UpTo(w, a[1..]), rest);
    }
  }

  lemma UpToStep(w: Request, a: seq<Call>)
    requires a != []
    ensures UpTo(w, a) == [a[0]] + if Stops(w, a[0]) then [] else UpTo(w, a[1..])
    ensures !Stops(w, a[0]) ==> OutcomeOf(w, a) == OutcomeOf(w, a[1..])
    ensures Stops(w, a[0]) ==> !OutcomeOf(w, a).Finished?
    ensures a == [a[0]] + a[1..]
  {
    hide Stops;
  }

  lemma {:induction false} UpToMembers(w: Request, calls: seq<Call>, c: Call)
    ensures c in UpTo(w, calls) ==> c in calls
    decreases |calls|
  {
    if calls != [] {
      UpToMembers(w, calls[1..], c);
    }
  }

  /** A walk that makes these calls, as far as it gets. */
  ghost predicate Makes(w: Request, t: Trace, all: seq<Call>, flag: bool) {
    t.calls == UpTo(w, all) && t.outcome == OutcomeOf(w, all) && (t.outcome.Finished? ==> t.matches == flag)
  }

  /** What a visit does, in these terms. */
  lemma VisitIs(m: Nodes, w: Request, a: Addr, depth: nat, up: bool, start: bool)
    ensures var v, flag := Visit(m, w, a, depth, up, start), Test(m, w, a, start);
            && v.matches == flag && v.calls == CallOf(m, w, Call(a, depth, up), flag)
            && v.decision == if Calls(m, w, Call(a, depth, up), flag) then w.decide(a, depth, up)
                             else if flag && Skipped(m, w, a) then NextPeer else Continue
  {
  }

  /** The walk's calls are the visits that lead to one, up to the first whose decision ends it, for any callbacks. */
  lemma {:induction false} CallsArePicked(m: Nodes, w: Request, f: Forest, depth: nat, start: bool)
    ensures var vs := VisitsOf(m, w, f, depth, start);
            Makes(w, WalkForest(m, w, f, depth, start), Picked(m, w, vs, start), FlagAfter(m, w, vs, start))
    decreases f
  {
    if f.Cons? {
      hide Visit, WayUp, WalkForest, Picked, FlagAfter, CallOf, Calls, Skipped, Goes, VisitsBelow, Makes, NodeTrace;
      var a, k, r := f.node, f.kids, f.rest;
      var flag := Test(m, w, a, start);
      CallsArePicked(m, w, k, depth + 1, flag);
      var inner := WalkBelow(m, w, a, k, depth, start);
      var below := VisitsBelow(m, w, a, k, depth, start);
      var u := Visit(m, w, a, depth, true, inner.matches);
      CallsArePicked(m, w, r, depth, u.matches);
      WalkOfNode(m, w, a, k, r, depth, start, inner);
      var past := FlagPast(m, w, a, k, depth, start);
      CallsArePicked(m, w, r, depth, past);
      PickedNode(m, w, Call(a, depth, false), below, Call(a, depth, true), VisitsOf(m, w, r, depth, past), start);
      NodeMakes(m, w, a, k, r, depth, start, inner);
    } else {
      NothingPicked(m, w, start);
    }
  }

  lemma NodeMakes(m: Nodes, w: Request, a: Addr, k: Forest, r: Forest, depth: nat, start: bool, inner: Trace)
    requires var vs, past := VisitsBelow(m, w, a, k, depth, start), FlagPast(m, w, a, k, depth, start);
             var flag, rest := Test(m, w, a, start), VisitsOf(m, w, r, depth, past);
             && (IsNodeStop(w, Visit(m, w, a, depth, false, start))
                 || Makes(w, inner, Picked(m, w, vs, flag), FlagAfter(m, w, vs, flag)))
             && Makes(w, WalkForest(m, w, r, depth, past), Picked(m, w, rest, past), FlagAfter(m, w, rest, past))
    ensures var vs, past := VisitsBelow(m, w, a, k, depth, start), FlagPast(m, w, a, k, depth, start);
            var flag, rest := Test(m, w, a, start), VisitsOf(m, w, r, depth, past);
            var v, u := Visit(m, w, a, depth, false, start), Visit(m, w, a, depth, true, inner.matches);
            Makes(w, NodeTrace(v, inner, u, WalkForest(m, w, r, depth, u.matches)),
                  CallOf(m, w, Call(a, depth, false), flag) + Picked(m, w, vs, flag)
                  + CallOf(m, w, Call(a, depth, true), past) + Picked(m, w, rest, past), FlagAfter(m, w, rest, past))
  {
    hide Visit, WalkForest, VisitsOf, VisitsBelow, Picked, FlagAfter, Skipped, Calls, CallOf, NodeTrace, IsVisit;
    var vs, past := VisitsBelow(m, w, a, k, depth, start), FlagPast(m, w, a, k, depth, start);
    var flag, rest := Test(m, w, a, start), VisitsOf(m, w, r, depth, past);
    var v, u := Visit(m, w, a, depth, false, start), Visit(m, w, a, depth, true, inner.matches);
    VisitIs(m, w, a, depth, false, start);
    VisitIs(m, w, a, depth, true, inner.matches);
    VisitHeeded(m, w, a, depth, false, start);
    VisitHeeded(m, w, a, depth, true, inner.matches);
    PartsMake(w, v, inner, u, WalkForest(m, w, r, depth, u.matches), Picked(m, w, vs, flag),
              CallOf(m, w, Call(a, depth, true), past), Picked(m, w, rest, past), FlagAfter(m, w, vs, flag),
              FlagAfter(m, w, rest, past), a, depth);
  }

  lemma PartsMake(w: Request, v: Visited, inner: Trace, u: Visited, rest: Trace, below: seq<Call>, up: seq<Call>,
      peers: seq<Call>, within: bool, flag: bool, a: Addr, depth: nat)
    requires IsVisit(w, v, a, depth, false) && IsVisit(w, u, a, depth, true)
    requires IsNodeStop(w, v) || Makes(w, inner, below, within)
    requires !IsNodeStop(w, v) && inner.outcome.Finished? ==> up == u.calls && Makes(w, rest, peers, flag)
    ensures Makes(w, NodeTrace(v, inner, u, rest), v.calls + below + up + peers, flag)
  {
    hide UpTo, OutcomeOf, Stops;
    OneStop(w, v, a, depth, false);
    OneStop(w, u, a, depth, true);
    UpToAppend(w, v.calls, below);
    UpToAppend(w, below, []);
    UpToAppend(w, v.calls + below, up);
    UpToAppend(w, v.calls + below + up, peers);
  }

  lemma OneStop(w: Request, v: Visited, a: Addr, depth: nat, up: bool)
    requires IsVisit(w, v, a, depth, up)
    ensures UpTo(w, v.calls) == v.calls
    ensures OutcomeOf(w, v.calls)
         == if v.decision.Break? then Broken else if v.decision.Other? && !up then Bad else Finished
  {
    if v.calls != [] {
      assert v.calls[1..] == [];
      assert UpTo(w, []) == [] && OutcomeOf(w, []) == Finished;
    }
  }

  /** The walk below a node makes the calls of the visits below it. */
  lemma WalkBelow(m: Nodes, w: Request, a: Addr, k: Forest, depth: nat, start: bool) returns (inner: Trace)
    requires var flag := Test(m, w, a, start);
             var vs := VisitsOf(m, w, k, depth + 1, flag);
             Makes(w, WalkForest(m, w, k, depth + 1, flag), Picked(m, w, vs, flag), FlagAfter(m, w, vs, flag))
    ensures var v := Visit(m, w, a, depth, false, start);
            inner == if v.decision.Continue? && depth != w.maxDepth then WalkForest(m, w, k, depth + 1, v.matches)
                     else Trace([], v.matches, Finished)
    ensures var flag, vs := Test(m, w, a, start), VisitsBelow(m, w, a, k, depth, start);
            IsNodeStop(w, Visit(m, w, a, depth, false, start))
            || Makes(w, inner, Picked(m, w, vs, flag), FlagAfter(m, w, vs, flag))
  {
    hide Visit, WalkForest, VisitsOf, Picked, FlagAfter, Skipped;
    var flag := Test(m, w, a, start);
    VisitIs(m, w, a, depth, false, start);
    NothingPicked(m, w, flag);
    var v := Visit(m, w, a, depth, false, start);
    inner := if v.decision.Continue? && depth != w.maxDepth then WalkForest(m, w, k, depth + 1, v.matches)
             else Trace([], v.matches, Finished);
  }

  /** The descending call of a node ends the walk. */
  predicate IsNodeStop(w: Request, v: Visited) {
    v.decision.Break? || v.decision.Other?
  }

  lemma NothingPicked(m: Nodes, w: Request, start: bool)
    ensures Picked(m, w, [], start) == [] && FlagAfter(m, w, [], start) == start
  {
  }

  lemma PickedNode(m: Nodes, w: Request, down: Call, within: seq<Call>, up: Call, rest: seq<Call>, start: bool)
    ensures var f1 := Test(m, w, down.node, start);
            var f2 := FlagAfter(m, w, within, f1);
            var f3 := Test(m, w, up.node, f2);
            var vs := [down] + within + [up] + rest;
            && FlagAfter(m, w, vs, start) == FlagAfter(m, w, rest, f3)
            && Picked(m, w, vs, start)
               == CallOf(m, w, down, f1) + Picked(m, w, within, f1) + CallOf(m, w, up, f3) + Picked(m, w, rest, f3)
  {
    hide Test, CallOf, Picked, FlagAfter;
    var f1 := Test(m, w, down.node, start);
    var f2 := FlagAfter(m, w, within, f1);
    OneVisit(m, w, down, start);
    OneVisit(m, w, up, f2);
    FlagAppend(m, w, [down], within, start);
    PickedAppend(m, w, [down], within, start);
    FlagAppend(m, w, [down] + within, [up], start);
    PickedAppend(m, w, [down] + within, [up], start);
    FlagAppend(m, w, [down] + within + [up], rest, start);
    PickedAppend(m, w, [down] + within + [up], rest, start);
  }

  // ----- who decides -----

  /** The last node with an object among the first i + 1 visits is wanted. */
  ghost predicate LastTestedMatches(m: Nodes, w: Request, vs: seq<Call>, i: nat)
    requires i < |vs|
  {
    exists j | 0 <= j <= i :: IsLastTested(m, vs, i, j) && w.wanted(m[vs[j].node].attached.value)
  }

  ghost predicate IsLastTested(m: Nodes, vs: seq<Call>, i: nat, j: nat)
    requires j <= i < |vs|
  {
    HasObject(m, vs[j].node) && forall k | j < k <= i :: !HasObject(m, vs[k].node)
  }

  lemma {:induction false} FlagIsLastTested(m: Nodes, w: Request, vs: seq<Call>, i: nat)
    requires i < |vs|
    ensures FlagAfter(m, w, vs[..i + 1], false) <==> LastTestedMatches(m, w, vs, i)
    decreases i
  {
    hide FlagAfter;
    assert vs[..i + 1] == vs[..i] + [vs[i]];
    FlagAppend(m, w, vs[..i], [vs[i]], false);
    OneVisit(m, w, vs[i], FlagAfter(m, w, vs[..i], false));
    if HasObject(m, vs[i].node) {
      assert IsLastTested(m, vs, i, i);
    } else if i == 0 {
      assert vs[..0] == [];
      NothingPicked(m, w, false);
    } else {
      FlagIsLastTested(m, w, vs, i - 1);
      forall j | 0 <= j <= i - 1 ensures IsLastTested(m, vs, i, j) <==> IsLastTested(m, vs, i - 1, j) {
      }
    }
  }

  lemma {:induction false} PickedMembers(m: Nodes, w: Request, vs: seq<Call>, start: bool, c: Call)
    ensures c in Picked(m, w, vs, start)
       <==> exists i | 0 <= i < |vs| :: vs[i] == c && Calls(m, w, c, FlagAfter(m, w, vs[..i + 1], start))
    decreases |vs|
  {
    if vs != [] {
      var n := |vs| - 1;
      assert vs == vs[..n] + [vs[n]];
      PickedAppend(m, w, vs[..n], [vs[n]], start);
      FlagAppend(m, w, vs[..n], [vs[n]], start);
      OneVisit(m, w, vs[n], FlagAfter(m, w, vs[..n], start));
      PickedMembers(m, w, vs[..n], start, c);
      hide Picked, FlagAfter;
      forall i | 0 <= i < n ensures vs[..n][..i + 1] == vs[..i + 1] && vs[..n][i] == vs[i] {
      }
      assert vs[..n + 1] == vs;
    }
  }

  ghost predicate IsCalled(m: Nodes, w: Request, vs: seq<Call>, c: Call) {
    exists i | 0 <= i < |vs| ::
      vs[i] == c && !Skipped(m, w, c.node) && HasCallback(w, c.up) && LastTestedMatches(m, w, vs, i)
  }

  /**
   * Every call of every walk, whatever nodes have objects and whatever the
   * callbacks decide: if no call ends the walk, a visit leads to a call if and
   * only if its direction has a callback, the node is not passed over, and the
   * last node with an object that was tested is of a wanted type.  So a node
   * without an object is called exactly when that one matched, and never when
   * there was none.
   */
  lemma StaleMatch(m: Nodes, w: Request, f: Forest, depth: nat, c: Call)
    ensures var t, called := WalkForest(m, w, f, depth, false), IsCalled(m, w, VisitsOf(m, w, f, depth, false), c);
            (c in t.calls ==> called) && (t.outcome.Finished? && called ==> c in t.calls)
  {
    var vs := VisitsOf(m, w, f, depth, false);
    CallsArePicked(m, w, f, depth, false);
    hide WalkForest, VisitsOf, Picked, FlagAfter, LastTestedMatches, UpTo, OutcomeOf;
    UpToAppend(w, Picked(m, w, vs, false), []);
    UpToMembers(w, Picked(m, w, vs, false), c);
    PickedMembers(m, w, vs, false, c);
    forall i | 0 <= i < |vs| ensures FlagAfter(m, w, vs[..i + 1], false) <==> LastTestedMatches(m, w, vs, i) {
      FlagIsLastTested(m, w, vs, i);
    }
  }

  // ----- the order theorem -----

  /** The visits when no node is passed over on another node's account. */
  function Tour(m: Nodes, w: Request, f: Forest, depth: nat): seq<Call>
    decreases f, 0
  {
    match f
    case Nil => []
    case Cons(a, k, r) =>
      [Call(a, depth, false)] + TourBelow(m, w, a, k, depth) + [Call(a, depth, true)] + Tour(m, w, r, depth)
  }

  function TourBelow(m: Nodes, w: Request, a: Addr, k: Forest, depth: nat): seq<Call>
    decreases k, 1
  {
    if Entered(m, w, a, depth) then Tour(m, w, k, depth + 1) else []
  }

  predicate IsKept(m: Nodes, w: Request, v: Call) {
    Selected(m, w, v.node) && HasCallback(w, v.up)
  }

  function KeptOf(m: Nodes, w: Request, v: Call): seq<Call> {
    if IsKept(m, w, v) then [v] else []
  }

  /** The visits of selected nodes. */
  function Kept(m: Nodes, w: Request, vs: seq<Call>): seq<Call> {
    if vs == [] then [] else KeptOf(m, w, vs[0]) + Kept(m, w, vs[1..])
  }

  lemma {:induction false} KeptAppend(m: Nodes, w: Request, a: seq<Call>, b: seq<Call>)
    ensures Kept(m, w, a + b) == Kept(m, w, a) + Kept(m, w, b)
    decreases |a|
  {
    if a == [] {
      assert a + b == b;
    } else {
      KeptAppend(m, w, a[1..], b);
      KeptStep(m, w, a, b);
    }
  }

  lemma KeptStep(m: Nodes, w: Request, a: seq<Call>, b: seq<Call>)
    requires a != [] && Kept(m, w, a[1..] + b) == Kept(m, w, a[1..]) + Kept(m, w, b)
    ensures Kept(m, w, a + b) == Kept(m, w, a) + Kept(m, w, b)
  {
    hide KeptOf;
    assert (a + b)[1..] == a[1..] + b && (a + b)[0] == a[0];
    Joined(KeptOf(m, w, a[0]), Kept(m, w, a[1..]), Kept(m, w, b));
  }

  lemma OneKept(m: Nodes, w: Request, a: Addr, depth: nat, up: bool)
    ensures var k := Kept(m, w, [Call(a, depth, up)]);
            k == Heard(w, One(m, w, a, depth, up), up) && Only(k, up) == k && Only(k, !up) == []
  {
    var v := Call(a, depth, up);
    assert [v][1..] == [] && Kept(m, w, []) == [];
    assert Only([], up) == [] && Only([], !up) == [];
  }

  /** Selected nodes of the tour are in pre-order on the way down and in post-order on the way up. */
  lemma {:induction false} TourOrder(m: Nodes, w: Request, f: Forest, depth: nat)
    ensures var k := Kept(m, w, Tour(m, w, f, depth));
            && Only(k, false) == Heard(w, PreOrder(m, w, f, depth), false)
            && Only(k, true) == Heard(w, PostOrder(m, w, f, depth), true)
    decreases f
  {
    NothingKept(m, w);
    if f.Cons? {
      TourOrder(m, w, f.kids, depth + 1);
      TourOrder(m, w, f.rest, depth);
      hide Kept, Only, Heard, One, Entered, PreOrder, PostOrder;
      var down, up := [Call(f.node, depth, false)], [Call(f.node, depth, true)];
      var inner := TourBelow(m, w, f.node, f.kids, depth);
      var rest := Tour(m, w, f.rest, depth);
      OneKept(m, w, f.node, depth, false);
      OneKept(m, w, f.node, depth, true);
      KeptAppend(m, w, down, inner);
      KeptAppend(m, w, down + inner, up);
      KeptAppend(m, w, down + inner + up, rest);
      OrderOfNode(m, w, f, depth, Kept(m, w, down), Kept(m, w, inner), Kept(m, w, up), Kept(m, w, rest));
    }
  }

  lemma NothingKept(m: Nodes, w: Request)
    ensures Kept(m, w, []) == [] && Only([], false) == Heard(w, [], false) && Only([], true) == Heard(w, [], true)
  {
  }

  /** No visit of a node without an object leads to a call on the strength of another node. */
  ghost predicate NoStale(m: Nodes, w: Request, vs: seq<Call>) {
    forall i | 0 <= i < |vs| && CanBeStale(m, w, vs[i]) :: !LastTestedMatches(m, w, vs, i)
  }

  predicate CanBeStale(m: Nodes, w: Request, v: Call) {
    HasCallback(w, v.up) && !HasObject(m, v.node) && !Skipped(m, w, v.node)
  }

  lemma {:induction false} PickedIsKept(m: Nodes, w: Request, vs: seq<Call>, n: nat)
    requires NoStale(m, w, vs) && n <= |vs|
    ensures Picked(m, w, vs[..n], false) == Kept(m, w, vs[..n])
    decreases n
  {
    if n == 0 {
      assert vs[..0] == [];
    } else {
      var v := vs[n - 1];
      assert vs[..n] == vs[..n - 1] + [v];
      PickedIsKept(m, w, vs, n - 1);
      PickedAppend(m, w, vs[..n - 1], [v], false);
      FlagAppend(m, w, vs[..n - 1], [v], false);
      KeptAppend(m, w, vs[..n - 1], [v]);
      OneVisit(m, w, v, FlagAfter(m, w, vs[..n - 1], false));
      FlagIsLastTested(m, w, vs, n - 1);
      assert Kept(m, w, [v]) == KeptOf(m, w, v) by { assert [v][1..] == [] && Kept(m, w, []) == []; }
      hide Picked, Kept, FlagAfter, LastTestedMatches;
    }
  }

  lemma {:induction false} KeptMembers(m: Nodes, w: Request, vs: seq<Call>, c: Call)
    requires c in Kept(m, w, vs)
    ensures HasObject(m, c.node)
    decreases |vs|
  {
    if vs != [] && c in Kept(m, w, vs[1..]) {
      KeptMembers(m, w, vs[1..], c);
    }
  }

  lemma {:induction false} OnlyMembers(calls: seq<Call>, up: bool, c: Call)
    ensures c in Only(calls, up) <==> c in calls && c.up == up
    decreases |calls|
  {
    if calls != [] {
      OnlyMembers(calls[1..], up, c);
      assert calls == [calls[0]] + calls[1..];
    }
  }

  /** A visit that is stale shows up among the calls, where no selected node's visit is. */
  lemma StaleShows(m: Nodes, w: Request, vs: seq<Call>, i: nat, tour: seq<Call>)
    requires i < |vs| && CanBeStale(m, w, vs[i]) && LastTestedMatches(m, w, vs, i)
    ensures Only(Picked(m, w, vs, false), vs[i].up) != Only(Kept(m, w, tour), vs[i].up)
  {
    hide Picked, Kept, Only, FlagAfter, LastTestedMatches;
    var c := vs[i];
    FlagIsLastTested(m, w, vs, i);
    PickedMembers(m, w, vs, false, c);
    assert c in Picked(m, w, vs, false);
    OnlyMembers(Picked(m, w, vs, false), c.up, c);
    OnlyMembers(Kept(m, w, tour), c.up, c);
    if c in Kept(m, w, tour) {
      KeptMembers(m, w, tour, c);
    }
  }

  // ----- what the walk misses -----

  /**
   * A temporary node without an object that comes behind a matching one is
   * passed over with all its children; none of those is a node to be called.
   */
  ghost predicate NothingMissed(m: Nodes, w: Request, f: Forest, depth: nat, start: bool)
    decreases f, 0
  {
    f.Cons? ==>
      && NothingMissedBelow(m, w, f.node, f.kids, depth, start)
      && NothingMissed(m, w, f.rest, depth, FlagPast(m, w, f.node, f.kids, depth, start))
  }

  ghost predicate NothingMissedBelow(m: Nodes, w: Request, a: Addr, k: Forest, depth: nat, start: bool)
    decreases k, 1
  {
    var flag := Test(m, w, a, start);
    if Goes(m, w, a, depth, flag) then NothingMissed(m, w, k, depth + 1, flag)
    else depth == w.maxDepth || HasObject(m, a) || Chosen(m, w, k, depth + 1) == {}
  }

  lemma {:induction false} KeptOfTour(m: Nodes, w: Request, f: Forest, depth: nat)
    requires w.hasDown || w.hasUp
    ensures Kept(m, w, Tour(m, w, f, depth)) == [] <==> Chosen(m, w, f, depth) == {}
    decreases f
  {
    NothingKept(m, w);
    if f.Cons? {
      KeptOfTour(m, w, f.kids, depth + 1);
      KeptOfTour(m, w, f.rest, depth);
      var inner := TourBelow(m, w, f.node, f.kids, depth);
      KeptNode(m, w, f.node, depth, inner, Tour(m, w, f.rest, depth));
      hide Kept, Entered;
    }
  }

  lemma KeptNode(m: Nodes, w: Request, a: Addr, depth: nat, inner: seq<Call>, rest: seq<Call>)
    ensures var down, up := Call(a, depth, false), Call(a, depth, true);
            Kept(m, w, [down] + inner + [up] + rest)
            == KeptOf(m, w, down) + Kept(m, w, inner) + KeptOf(m, w, up) + Kept(m, w, rest)
  {
    hide Kept, KeptOf;
    var down, up := Call(a, depth, false), Call(a, depth, true);
    KeptOne(m, w, down);
    KeptOne(m, w, up);
    KeptAppend(m, w, [down], inner);
    KeptAppend(m, w, [down] + inner, [up]);
    KeptAppend(m, w, [down] + inner + [up], rest);
  }

  lemma KeptOne(m: Nodes, w: Request, v: Call)
    ensures Kept(m, w, [v]) == KeptOf(m, w, v)
  {
    assert [v][1..] == [] && Kept(m, w, []) == [];
  }

  ghost predicate Misses(got: seq<Call>, full: seq<Call>, nothing: bool) {
    if nothing then got == full else |got| < |full|
  }

  /** The walk visits every selected node of the tour, or fewer of them. */
  lemma {:induction false} VisitsAreOfTour(m: Nodes, w: Request, f: Forest, depth: nat, start: bool)
    requires w.hasDown || w.hasUp
    ensures Misses(Kept(m, w, VisitsOf(m, w, f, depth, start)), Kept(m, w, Tour(m, w, f, depth)),
                   NothingMissed(m, w, f, depth, start))
    decreases f
  {
    if f.Cons? {
      var a, k, r := f.node, f.kids, f.rest;
      var flag := Test(m, w, a, start);
      var past := FlagPast(m, w, a, k, depth, start);
      VisitsAreOfTour(m, w, k, depth + 1, flag);
      VisitsAreOfTour(m, w, r, depth, past);
      BelowIsOfTour(m, w, a, k, depth, start);
      KeptNode(m, w, a, depth, VisitsBelow(m, w, a, k, depth, start), VisitsOf(m, w, r, depth, past));
      KeptNode(m, w, a, depth, TourBelow(m, w, a, k, depth), Tour(m, w, r, depth));
      hide Kept, KeptOf, FlagPast, NothingMissedBelow, VisitsBelow, TourBelow;
    }
  }

  lemma BelowIsOfTour(m: Nodes, w: Request, a: Addr, k: Forest, depth: nat, start: bool)
    requires w.hasDown || w.hasUp
    requires var flag := Test(m, w, a, start);
             Misses(Kept(m, w, VisitsOf(m, w, k, depth + 1, flag)), Kept(m, w, Tour(m, w, k, depth + 1)),
                    NothingMissed(m, w, k, depth + 1, flag))
    ensures Misses(Kept(m, w, VisitsBelow(m, w, a, k, depth, start)), Kept(m, w, TourBelow(m, w, a, k, depth)),
                   NothingMissedBelow(m, w, a, k, depth, start))
  {
    hide Kept, Tour, VisitsOf, Chosen, NothingMissed;
    KeptOfTour(m, w, k, depth + 1);
    NothingKept(m, w);
  }

  lemma {:induction false} OnlyCounts(calls: seq<Call>)
    ensures |calls| == |Only(calls, false)| + |Only(calls, true)|
    decreases |calls|
  {
    if calls != [] {
      OnlyCounts(calls[1..]);
    }
  }

  ghost predicate InOrder(m: Nodes, w: Request, f: Forest, depth: nat, calls: seq<Call>) {
    && Only(calls, false) == Heard(w, PreOrder(m, w, f, depth), false)
    && Only(calls, true) == Heard(w, PostOrder(m, w, f, depth), true)
  }

  /**
   * The walk finishes exactly if no call ends it.  Then its descending calls are
   * the selected nodes in pre-order and its ascending ones in post-order, without
   * those below a node that asked for the next peer, if and only if no node
   * without an object comes behind a matching one, whether to be called itself or
   * to have its children passed over.
   */
  lemma WalkOrder(m: Nodes, w: Request, f: Forest, depth: nat)
    requires w.hasDown || w.hasUp
    ensures var t := WalkForest(m, w, f, depth, false);
            t.outcome.Finished? <==> forall i | 0 <= i < |t.calls| :: !Stops(w, t.calls[i])
    ensures WalkForest(m, w, f, depth, false).outcome.Finished? ==>
            (InOrder(m, w, f, depth, WalkForest(m, w, f, depth, false).calls)
             <==> NoStale(m, w, VisitsOf(m, w, f, depth, false)) && NothingMissed(m, w, f, depth, false))
  {
    hide UpTo, OutcomeOf, Skips, CallsIn, Stops;
    DecisionsHeeded(m, w, f, depth, false);
    hide WalkForest, VisitsOf, Tour, Picked, Kept, Only, LastTestedMatches, PreOrder, PostOrder, NothingMissed;
    var vs := VisitsOf(m, w, f, depth, false);
    var got, full := Kept(m, w, vs), Kept(m, w, Tour(m, w, f, depth));
    CallsArePicked(m, w, f, depth, false);
    TourOrder(m, w, f, depth);
    VisitsAreOfTour(m, w, f, depth, false);
    UpToAppend(w, Picked(m, w, vs, false), []);
    if NoStale(m, w, vs) {
      PickedIsKept(m, w, vs, |vs|);
      assert vs[..|vs|] == vs;
      OnlyCounts(got);
      OnlyCounts(full);
    } else {
      var i :| 0 <= i < |vs| && CanBeStale(m, w, vs[i]) && LastTestedMatches(m, w, vs, i);
      StaleShows(m, w, vs, i, Tour(m, w, f, depth));
    }
  }

  /** The forest below any node of the namespace: exactly the nodes below it, each once. */
  lemma ForestBelow(m: Nodes, t: Tree, root: Addr, p: Addr) returns (f: Forest)
    requires TreeOk(m, t, root) && p in t.kids
    ensures p in m && Shaped(m, f, p) && First(f) == m[p].child && Distinct(f)
    ensures forall c :: c in Members(f) <==> Under(m, t, root, p, 0, c)
  {
    hide TreeOk, Under, Shaped, Distinct;
    var top := LevelsBounded(t.level);
    Namespace.InTree(m, t, root, p);
    f := ForestOf(t, p, 0, top);
    ForestIs(m, t, root, p, 0, top);
  }

  /**
   * The walk below any node of the namespace, for any callbacks.  If no call
   * breaks it off or fails, its status is Ok and it is in order under the
   * condition above, with every selected node within reach exactly once in
   * either order; certainly so if every node below has an object.
   */
  method WalkOfTree(m: Nodes, p: Addr, w: Request, ghost t: Tree, ghost root: Addr)
    returns (status: Status, calls: seq<Call>, ghost f: Forest)
    requires TreeOk(m, t, root) && p in t.kids && (w.hasDown || w.hasUp) && w.maxDepth != 0
    ensures p in m && Shaped(m, f, p) && First(f) == m[p].child && Distinct(f)
    ensures forall c :: c in Members(f) <==> Under(m, t, root, p, 0, c)
    ensures status.Ok? <==> forall i | 0 <= i < |calls| ::
      calls[i].up || !w.decide(calls[i].node, calls[i].depth, false).Other?
    ensures forall i | 0 <= i < |calls| && Stops(w, calls[i]) :: i == |calls| - 1
    ensures forall c, d | c in calls && d in calls && !c.up && w.decide(c.node, c.depth, false).NextPeer? ::
      d.node !in BelowIn(f, c.node)
    ensures (forall i | 0 <= i < |calls| :: !Stops(w, calls[i])) ==>
      && (InOrder(m, w, f, 1, calls)
          <==> NoStale(m, w, VisitsOf(m, w, f, 1, false)) && NothingMissed(m, w, f, 1, false))
      && ((forall a | a in Members(f) :: HasObject(m, a)) ==> InOrder(m, w, f, 1, calls))
    ensures Counts(PreOrder(m, w, f, 1), Chosen(m, w, f, 1)) && Counts(PostOrder(m, w, f, 1), Chosen(m, w, f, 1))
  {
    hide TreeOk, Under, WalkForest, PreOrder, PostOrder, Chosen, Shaped, Distinct, Counts, Only, BelowIn, Members;
    hide InOrder, NoStale, NothingMissed, VisitsOf, HasObject;
    f := ForestBelow(m, t, root, p);
    NullIsNoNode(m, t, root);
    status, calls := ForEachChild(m, p, w, f);
    WalkOrder(m, w, f, 1);
    OnceEach(m, w, f, 1);
    if forall a | a in Members(f) :: HasObject(m, a) {
      ObjectsSuffice(m, w, f, 1);
    }
  }

  lemma NullIsNoNode(m: Nodes, t: Tree, root: Addr)
    requires TreeOk(m, t, root)
    ensures NULL !in t.kids
  {
  }

  /** When every node has an object the walk is in order, whatever is wanted. */
  lemma ObjectsSuffice(m: Nodes, w: Request, f: Forest, depth: nat)
    requires forall a | a in Members(f) :: HasObject(m, a)
    ensures NoStale(m, w, VisitsOf(m, w, f, depth, false)) && NothingMissed(m, w, f, depth, false)
  {
    VisitsHaveObjects(m, w, f, depth, false);
  }

  lemma {:induction false} VisitsHaveObjects(m: Nodes, w: Request, f: Forest, depth: nat, start: bool)
    requires forall a | a in Members(f) :: HasObject(m, a)
    ensures forall v | v in VisitsOf(m, w, f, depth, start) :: HasObject(m, v.node)
    ensures NothingMissed(m, w, f, depth, start)
    decreases f
  {
    hide FlagPast, Goes, HasObject, Chosen;
    if f.Cons? {
      VisitsHaveObjects(m, w, f.kids, depth + 1, Test(m, w, f.node, start));
      VisitsHaveObjects(m, w, f.rest, depth, FlagPast(m, w, f.node, f.kids, depth, start));
    }
  }

  /** An object-less node right after a wanted one is called, out of order. */
  lemma CalledForAnother(m: Nodes, w: Request, x: Addr, y: Addr)
    requires Agreeable(w) && w.hasDown
    requires HasObject(m, x) && w.wanted(m[x].attached.value) && !HasObject(m, y) && !Skipped(m, w, y)
    ensures var f := Cons(x, Nil, Cons(y, Nil, Nil));
            var calls := WalkForest(m, w, f, 1, false).calls;
            Call(y, 1, false) in calls && !InOrder(m, w, f, 1, calls)
  {
    hide WalkForest, InOrder;
    var tail := Cons(y, Nil, Nil);
    var f := Cons(x, Nil, tail);
    var vs := VisitsOf(m, w, f, 1, false);
    assert VisitsBelow(m, w, x, Nil, 1, false) == [] && FlagPast(m, w, x, Nil, 1, false);
    assert VisitsBelow(m, w, y, Nil, 1, true) == [];
    assert VisitsOf(m, w, tail, 1, true) == [Call(y, 1, false), Call(y, 1, true)];
    assert vs == [Call(x, 1, false), Call(x, 1, true), Call(y, 1, false), Call(y, 1, true)];
    assert IsLastTested(m, vs, 2, 1);
    assert vs[2] == Call(y, 1, false) && CanBeStale(m, w, vs[2]) && LastTestedMatches(m, w, vs, 2);
    StaleMatch(m, w, f, 1, Call(y, 1, false));
    WalkOrder(m, w, f, 1);
  }

  /** A temporary object-less node right after a wanted one hides its children. */
  lemma HiddenByAnother(m: Nodes, w: Request, x: Addr, y: Addr, z: Addr)
    requires Agreeable(w) && w.hasDown && w.maxDepth != 1
    requires HasObject(m, x) && w.wanted(m[x].attached.value) && !HasObject(m, y) && Skipped(m, w, y)
    requires Selected(m, w, z)
    ensures var f := Cons(x, Nil, Cons(y, Cons(z, Nil, Nil), Nil));
            var calls := WalkForest(m, w, f, 1, false).calls;
            Call(z, 2, false) in PreOrder(m, w, f, 1) && Call(z, 2, false) !in calls && !InOrder(m, w, f, 1, calls)
  {
    hide WalkForest, InOrder;
    var tail := Cons(y, Cons(z, Nil, Nil), Nil);
    var f := Cons(x, Nil, tail);
    var vs := VisitsOf(m, w, f, 1, false);
    assert VisitsBelow(m, w, x, Nil, 1, false) == [] && FlagPast(m, w, x, Nil, 1, false);
    assert VisitsBelow(m, w, y, Cons(z, Nil, Nil), 1, true) == [];
    assert VisitsOf(m, w, tail, 1, true) == [Call(y, 1, false), Call(y, 1, true)];
    assert vs == [Call(x, 1, false), Call(x, 1, true), Call(y, 1, false), Call(y, 1, true)];
    assert Chosen(m, w, Cons(z, Nil, Nil), 2) == {z};
    assert !NothingMissed(m, w, tail, 1, true);
    assert PreOrder(m, w, Cons(z, Nil, Nil), 2) == [Call(z, 2, false)];
    StaleMatch(m, w, f, 1, Call(z, 2, false));
    WalkOrder(m, w, f, 1);
  }
}
