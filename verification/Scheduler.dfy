/** The scheduler of kernel/multitasking/sched.c on top of the event queue.  Each thread owns one
    event, which is queued to end its time slice while it is current and to wake it while it
    sleeps.  switch_context returns in the thread that was switched to, so the part of
    switch_thread behind it belongs to the same step.  The clock is an argument of each step. */
module Scheduler {
  import opened SchedSpec
  import opened EventTree
  import EventQueue

  datatype Status = Ready | Running | Sleeping | Blocked | Done

  datatype Callback = NoCallback | OnSwitch | OnWake(t: Tid)

  datatype Thread = Thread(status: Status, event: Addr)

  type Threads = map<Tid, Thread>

  /** Events belong to one thread each. */
  ghost predicate Owned(threads: Threads, owner: map<Addr, Tid>)
  {
    && (forall t | t in threads ::
          threads[t].event in owner && owner[threads[t].event] == t && threads[t].event != NULL)
    && (forall e | e in owner :: owner[e] in threads && threads[owner[e]].event == e)
  }

  /** Status and place of a thread agree. */
  ghost predicate PlaceOk(threads: Threads, idle: Tid, current: Tid, ready: seq<Tid>, t: Tid)
    requires t in threads
  {
    t != idle ==>
      && (threads[t].status.Ready? <==> t in ready)
      && (threads[t].status.Running? ==> t == current)
      && (t == current ==> threads[t].status.Running? || threads[t].status.Done?)
  }

  ghost predicate PlacesOk(threads: Threads, idle: Tid, current: Tid, ready: seq<Tid>)
  {
    && idle in threads && current in threads && (threads[idle].status.Ready? || threads[idle].status.Running?)
    && (forall i | 0 <= i < |ready| :: ready[i] in threads && ready[i] != idle)
    && (forall i, j | 0 <= i < j < |ready| :: ready[i] != ready[j])
    && (forall t | t in threads :: PlaceOk(threads, idle, current, ready, t))
  }

  /** The queue holds the current thread's switch event and the wake events of the sleepers. */
  ghost predicate QueueOk(threads: Threads, current: Tid, callback: map<Addr, Callback>, queued: set<Addr>, t: Tid)
    requires t in threads
  {
    var e := threads[t].event;
    && e in callback
    && (e in queued <==> t == current || threads[t].status.Sleeping?)
    && (t == current ==> callback[e] == OnSwitch)
    && (threads[t].status.Sleeping? ==> callback[e] == OnWake(t))
  }

  ghost predicate QueueWithout(threads: Threads, callback: map<Addr, Callback>, queued: set<Addr>, t: Tid)
    requires t in threads
  {
    var e := threads[t].event;
    && e in callback && (e in queued <==> threads[t].status.Sleeping?)
    && (threads[t].status.Sleeping? ==> callback[e] == OnWake(t))
  }

  ghost function Sleepers(threads: Threads, m: Records): map<Tid, nat>
  {
    map t | t in threads && threads[t].status.Sleeping? && threads[t].event in m :: m[threads[t].event].time
  }

  /** The time of the current thread's event. */
  ghost function SliceEnd(threads: Threads, current: Tid, m: Records): nat
  {
    if current in threads && threads[current].event in m then m[threads[current].event].time else 0
  }

  ghost function DoneThreads(threads: Threads): set<Tid>
  {
    set t | t in threads && threads[t].status.Done?
  }

  // ---------- switching ----------

  /** Places while the current thread is being left: it is not in line, whatever its status. */
  ghost predicate LeavingOk(threads: Threads, idle: Tid, current: Tid, ready: seq<Tid>)
  {
    && idle in threads && current in threads && (threads[idle].status.Ready? || threads[idle].status.Running?)
    && (forall i | 0 <= i < |ready| :: ready[i] in threads && ready[i] != idle && ready[i] != current)
    && (forall i, j | 0 <= i < j < |ready| :: ready[i] != ready[j])
    && (forall t | t in threads && t != current :: PlaceOk(threads, idle, current, ready, t))
    && (current != idle ==> threads[current].status in {Running, Done, Sleeping})
  }

  predicate Requeues(threads: Threads, idle: Tid, old_: Tid)
    requires old_ in threads
  {
    old_ != idle && (threads[old_].status.Ready? || threads[old_].status.Running?)
  }

  function WithStatus(threads: Threads, t: Tid, status: Status): Threads
    requires t in threads
  {
    threads[t := threads[t].(status := status)]
  }

  /** The threads after a switch from old_ to next. */
  ghost function Switched(threads: Threads, idle: Tid, old_: Tid, next: Tid): Threads
    requires old_ in threads && next in threads
  {
    var threads' := WithStatus(threads, next, Running);
    if Requeues(threads', idle, old_) then WithStatus(threads', old_, Ready) else threads'
  }

  ghost function LineAfter(threads: Threads, idle: Tid, old_: Tid, rest: seq<Tid>): seq<Tid>
    requires old_ in threads
  {
    if Requeues(threads, idle, old_) then rest + [old_] else rest
  }

  lemma SwitchedPlaces(threads: Threads, idle: Tid, current: Tid, ready: seq<Tid>, next: Tid)
    requires LeavingOk(threads, idle, current, ready)
    requires next == (if ready == [] then idle else ready[0]) && next != current
    ensures next in threads
    ensures var rest := if ready == [] then [] else ready[1..];
      PlacesOk(Switched(threads, idle, current, next), idle, next, LineAfter(threads, idle, current, rest))
  {
    var rest := if ready == [] then [] else ready[1..];
    var threads', ready' := Switched(threads, idle, current, next), LineAfter(threads, idle, current, rest);
    forall t | t in threads' ensures PlaceOk(threads', idle, next, ready', t) {
      if t != current {
        assert PlaceOk(threads, idle, current, ready, t);
        SameInLine(ready, rest, ready', current, t);
      }
    }
  }

  lemma SameInLine(ready: seq<Tid>, rest: seq<Tid>, ready': seq<Tid>, current: Tid, t: Tid)
    requires rest == (if ready == [] then [] else ready[1..]) && (ready' == rest || ready' == rest + [current])
      && t != current
    requires forall i, j | 0 <= i < j < |ready| :: ready[i] != ready[j]
    ensures t in ready' <==> t in ready && t != ready[0]
  {
    if t in ready && t != ready[0] {
      var i :| 0 <= i < |ready| && ready[i] == t;
      assert rest[i - 1] == t;
    }
  }

  /** Only the idle thread can be its own successor. */
  lemma StaysIdle(threads: Threads, idle: Tid, current: Tid, ready: seq<Tid>)
    requires LeavingOk(threads, idle, current, ready) && current == (if ready == [] then idle else ready[0])
    ensures current == idle && ready == [] && PlacesOk(threads, idle, current, [])
  {
  }

  lemma SwitchedQueue(threads: Threads, idle: Tid, current: Tid, next: Tid, callback: map<Addr, Callback>,
      queued: set<Addr>, owner: map<Addr, Tid>, m: Records)
    requires current in threads && next in threads && threads[next].status in {Ready, Running}
    requires Owned(threads, owner)
    requires forall t | t in threads :: QueueWithout(threads, callback, queued, t)
    ensures var threads' := Switched(threads, idle, current, next);
      && Owned(threads', owner)
      && (forall t | t in threads' :: QueueWithout(threads', callback, queued, t))
      && Sleepers(threads', m) == Sleepers(threads, m) && DoneThreads(threads') == DoneThreads(threads)
  {
    var threads' := WithStatus(threads, next, Running);
    StatusQueue(threads, next, Running, callback, queued, owner, m);
    if Requeues(threads', idle, current) {
      StatusQueue(threads', current, Ready, callback, queued, owner, m);
    }
  }

  /** A change between two statuses that are neither asleep nor done. */
  lemma StatusQueue(threads: Threads, t: Tid, status: Status, callback: map<Addr, Callback>, queued: set<Addr>,
      owner: map<Addr, Tid>, m: Records)
    requires t in threads && threads[t].status in {Ready, Running} && status in {Ready, Running}
    requires Owned(threads, owner)
    requires forall u | u in threads :: QueueWithout(threads, callback, queued, u)
    ensures var threads' := WithStatus(threads, t, status);
      && Owned(threads', owner)
      && (forall u | u in threads' :: QueueWithout(threads', callback, queued, u))
      && Sleepers(threads', m) == Sleepers(threads, m) && DoneThreads(threads') == DoneThreads(threads)
  {
    var threads' := WithStatus(threads, t, status);
    forall u | u in threads' ensures QueueWithout(threads', callback, queued, u) {
      assert QueueWithout(threads, callback, queued, u);
    }
  }

  lemma NextIsReady(threads: Threads, idle: Tid, current: Tid, line: seq<Tid>, next: Tid)
    requires LeavingOk(threads, idle, current, line)
    requires next == (if line == [] then idle else line[0]) && next != current
    ensures next in threads && current in threads && threads[next].status in {Ready, Running}
  {
    if line != [] { assert PlaceOk(threads, idle, current, line, line[0]); }
  }

  lemma SwitchIsReady(threads: Threads, idle: Tid, current: Tid, line: seq<Tid>, next: Tid,
      callback: map<Addr, Callback>, queued: set<Addr>, owner: map<Addr, Tid>, m: Records)
    requires LeavingOk(threads, idle, current, line) && Owned(threads, owner)
    requires next == (if line == [] then idle else line[0]) && next != current
    requires forall t | t in threads :: QueueWithout(threads, callback, queued, t)
    ensures next in threads && current in threads
    ensures var rest, threads' := if line == [] then [] else line[1..], Switched(threads, idle, current, next);
      && Requeues(WithStatus(threads, next, Running), idle, current) == Requeues(threads, idle, current)
      && PlacesOk(threads', idle, next, LineAfter(threads, idle, current, rest)) && Owned(threads', owner)
      && (forall t | t in threads' :: QueueWithout(threads', callback, queued, t))
      && Sleepers(threads', m) == Sleepers(threads, m) && DoneThreads(threads') == DoneThreads(threads)
  {
    hide LeavingOk, PlacesOk, Owned, Sleepers, DoneThreads, QueueWithout, Switched;
    NextIsReady(threads, idle, current, line, next);
    SwitchedPlaces(threads, idle, current, line, next);
    SwitchedQueue(threads, idle, current, next, callback, queued, owner, m);
  }

  // ---------- callbacks ----------

  /** An event in the queue is the current thread's and ends its slice, or a sleeper's and wakes
      it. */
  lemma WhoseEvent(threads: Threads, owner: map<Addr, Tid>, idle: Tid, current: Tid, ready: seq<Tid>,
      callback: map<Addr, Callback>, queued: set<Addr>, e: Addr)
    requires Owned(threads, owner) && PlacesOk(threads, idle, current, ready) && e in queued && e in owner
    requires forall t | t in threads :: QueueOk(threads, current, callback, queued, t)
    ensures e in callback && owner[e] in threads && threads[owner[e]].event == e
    ensures callback[e] == if owner[e] == current then OnSwitch else OnWake(owner[e])
    ensures owner[e] != current ==> threads[owner[e]].status.Sleeping?
  {
    assert QueueOk(threads, current, callback, queued, owner[e]);
  }

  lemma LeaveCurrent(threads: Threads, owner: map<Addr, Tid>, idle: Tid, current: Tid, ready: seq<Tid>,
      callback: map<Addr, Callback>, queued: set<Addr>, e: Addr)
    requires Owned(threads, owner) && PlacesOk(threads, idle, current, ready) && e in owner && owner[e] == current
    requires forall t | t in threads :: QueueOk(threads, current, callback, queued, t)
    ensures LeavingOk(threads, idle, current, ready)
    ensures forall t | t in threads :: QueueWithout(threads, callback, queued - {e}, t)
  {
    assert PlaceOk(threads, idle, current, ready, current);
    forall t | t in threads ensures QueueWithout(threads, callback, queued - {e}, t) {
      assert QueueOk(threads, current, callback, queued, t);
    }
  }

  lemma WokenPlaces(threads: Threads, idle: Tid, current: Tid, ready: seq<Tid>, t: Tid)
    requires PlacesOk(threads, idle, current, ready) && t in threads && threads[t].status.Sleeping? && t != current
    ensures PlacesOk(WithStatus(threads, t, Ready), idle, current, ready + [t])
  {
    var threads' := WithStatus(threads, t, Ready);
    assert PlaceOk(threads, idle, current, ready, t);
    forall u | u in threads' ensures PlaceOk(threads', idle, current, ready + [t], u) {
      assert PlaceOk(threads, idle, current, ready, u);
    }
  }

  lemma WokenQueue(threads: Threads, owner: map<Addr, Tid>, current: Tid, callback: map<Addr, Callback>,
      queued: set<Addr>, m: Records, e: Addr)
    requires Owned(threads, owner) && e in owner && owner[e] != current && threads[owner[e]].status.Sleeping? && e in m
    requires forall t | t in threads :: QueueOk(threads, current, callback, queued, t)
    ensures var t := owner[e]; var threads' := WithStatus(threads, t, Ready);
      && Owned(threads', owner)
      && (forall u | u in threads' :: QueueOk(threads', current, callback, queued - {e}, u))
      && t in Sleepers(threads, m) && Sleepers(threads, m)[t] == m[e].time
      && Sleepers(threads', m) == Sleepers(threads, m) - {t} && DoneThreads(threads') == DoneThreads(threads)
  {
    var t := owner[e];
    var threads' := WithStatus(threads, t, Ready);
    forall u | u in threads' ensures QueueOk(threads', current, callback, queued - {e}, u) {
      assert QueueOk(threads, current, callback, queued, u);
    }
  }

  lemma KeepsSorted(m: Records, q: seq<Addr>, e: Addr, t: Tree)
    requires EventQueue.SortedByTime(m, q) && q == Order(t) && Distinct(t)
    ensures EventQueue.SortedByTime(m, EventQueue.Without(q, e))
  {
    EventQueue.OrderOnce(t, e);
    EventQueue.WithoutSorted(m, m, q, e);
  }

  lemma {:induction false} SortedSame(m: Records, m': Records, q: seq<Addr>)
    requires EventQueue.SameTimes(m, m')
    ensures EventQueue.SortedByTime(m, q) ==> EventQueue.SortedByTime(m', q)
  {
    if q != [] { SortedSame(m, m', q[1..]); }
  }

  lemma SleepersSame(threads: Threads, m: Records, m': Records)
    requires EventQueue.SameTimes(m, m')
    ensures Sleepers(threads, m') == Sleepers(threads, m)
  {
  }

  /** The current thread is put back in line unless it is idle or done; it is never first in line
      itself. */
  lemma RequeuesUnlessDone(threads: Threads, idle: Tid, current: Tid, ready: seq<Tid>)
    requires PlacesOk(threads, idle, current, ready)
    ensures current in threads
    ensures Requeues(threads, idle, current) <==> current != idle && current !in DoneThreads(threads)
    ensures ready != [] ==> ready[0] != current
  {
    assert PlaceOk(threads, idle, current, ready, current);
    if ready != [] { assert ready[0] in ready; }
  }

  lemma SwitchIsNext(v: State, v': State)
    requires v'.idle == v.idle && v'.done == v.done && v'.sleeping == v.sleeping && v'.clock == v.clock
    requires SliceIsOver(v, v')
    requires v'.current == Front(v) && (v.ready != [] ==> v.ready[0] != v.current)
    requires v'.ready == if Front(v) == v.current then Rest(v)
                         else if v.current == v.idle || v.current in v.done then Rest(v) else Rest(v) + [v.current]
    ensures Next(v, v', if Front(v) == v.current then Rearm else Switch)
  {
  }

  lemma WakeIsNext(v: State, v': State, t: Tid)
    requires t in v.sleeping && v.sleeping[t] <= v.clock && IsEarliest(v, v.sleeping[t])
    requires v' == v.(ready := v.ready + [t], sleeping := v.sleeping - {t})
    ensures Next(v, v', Wake(t))
  {
  }

  // ---------- booting ----------

  function BootThreads(): Threads
  {
    map[0 := Thread(Done, 1), 1 := Thread(Ready, 2), 2 := Thread(Ready, 3), 3 := Thread(Ready, 4)]
  }

  function BootOwners(): map<Addr, Tid>
  {
    map[1 := 0, 2 := 1, 3 := 2, 4 := 3]
  }

  function BootCallbacks(): map<Addr, Callback>
  {
    map[1 := OnSwitch, 2 := NoCallback, 3 := NoCallback, 4 := NoCallback]
  }

  lemma EmptyQueue(m: Records, e: Addr)
    ensures Elems(Leaf) == {} && Order(Leaf) == [] && EventQueue.Without([], e) == [] && EventQueue.SortedByTime(m, [])
  {
  }

  /** Four event records, the boot thread's one queued for time 0. */
  method BootQueue() returns (q: EventQueue.EventQueue)
    ensures fresh(q) && q.Valid() && q.records.Keys == {1, 2, 3, 4} && Elems(q.tree) == {1}
    ensures EventQueue.SortedByTime(q.records, Order(q.tree)) && q.records[1].time == 0
  {
    hide Shape, EventQueue.Insert;
    q := new EventQueue.EventQueue();
    q.Create(1);
    q.Create(2);
    q.Create(3);
    q.Create(4);
    EmptyQueue(q.records, 1);
    hide EventQueue.EventQueue.Valid, Elems, Order, EventQueue.Without, EventQueue.SortedByTime;
    q.Enqueue(1);
  }

  lemma BootIsOk(m: Records)
    requires m.Keys == {1, 2, 3, 4} && m[1].time == 0
    ensures Owned(BootThreads(), BootOwners()) && PlacesOk(BootThreads(), 1, 0, [2, 3])
    ensures (forall e | e in BootOwners() :: e in m) && forall e | e in {1} :: e in BootOwners()
    ensures forall t | t in BootThreads() :: QueueOk(BootThreads(), 0, BootCallbacks(), {1}, t)
    ensures Sleepers(BootThreads(), m) == map[] && DoneThreads(BootThreads()) == {0}
    ensures SliceEnd(BootThreads(), 0, m) == 0
  {
    BootOwned();
    BootPlaces();
    hide Owned, PlacesOk;
  }

  lemma BootOwned()
    ensures Owned(BootThreads(), BootOwners())
  {
  }

  lemma BootPlaces()
    ensures PlacesOk(BootThreads(), 1, 0, [2, 3])
  {
    forall t | t in BootThreads() ensures PlaceOk(BootThreads(), 1, 0, [2, 3], t) {}
  }

  class Scheduler {
    const idle: Tid
    const events: EventQueue.EventQueue
    var threads: Threads
    var owner: map<Addr, Tid>
    var callback: map<Addr, Callback>
    var current: Tid
    var ready: seq<Tid>
    ghost var clock: nat

    /** The queue is in order and its events are those of the threads. */
    ghost predicate Core()
      reads this, events
    {
      && events.Valid() && EventQueue.SortedByTime(events.records, Order(events.tree))
      && Owned(threads, owner) && (forall e | e in owner :: e in events.records)
      && (forall e | e in Elems(events.tree) :: e in owner)
    }

    /** What holds between steps. */
    ghost predicate Valid()
      reads this, events
    {
      && Core() && PlacesOk(threads, idle, current, ready)
      && forall t | t in threads :: QueueOk(threads, current, callback, Elems(events.tree), t)
    }

    ghost function View(): State
      reads this, events
    {
      State(current, ready, Sleepers(threads, events.records), SliceEnd(threads, current, events.records), idle,
            DoneThreads(threads), clock)
    }

    /** What holds when the current thread is about to be left: its event is queued only if it has
        gone to sleep. */
    ghost predicate Leaving()
      reads this, events
    {
      && Core() && LeavingOk(threads, idle, current, ready)
      && forall t | t in threads :: QueueWithout(threads, callback, Elems(events.tree), t)
    }

    /** sched_init, up to the first dispatch: the boot thread is current and done, its event due at
        once; the idle thread is not in line, the two demo threads are. */
    constructor ()
      ensures Valid() && fresh(events) && View() == State(0, [2, 3], map[], 0, 1, {0}, 0)
    {
      idle := 1;
      var queue := BootQueue();
      events := queue;
      threads, owner, callback := BootThreads(), BootOwners(), BootCallbacks();
      current, ready, clock := 0, [2, 3], 0;
      new;
      hide Elems, Order, EventQueue.SortedByTime, EventQueue.EventQueue.Valid, BootThreads, BootOwners, BootCallbacks,
          PlacesOk, Owned, QueueOk, Sleepers, DoneThreads, SliceEnd;
      BootIsOk(events.records);
    }

    /** Starts the time slice of the current thread: its event is due 3 ms from now. */
    method Arm(now: nat)
      requires Core() && PlacesOk(threads, idle, current, ready)
      requires forall t | t in threads :: QueueWithout(threads, callback, Elems(events.tree), t)
      modifies this`callback, events
      ensures Valid()
      ensures Sleepers(threads, events.records) == old(Sleepers(threads, events.records))
      ensures SliceEnd(threads, current, events.records) == (now + 3000000) % 0x1_0000_0000_0000_0000
    {
      hide Elems, Order, EventQueue.SortedByTime, EventQueue.Insert, EventQueue.Without, EventQueue.EventQueue.Valid;
      var e := threads[current].event;
      assert PlaceOk(threads, idle, current, ready, current);
      hide PlacesOk;
      ghost var m := events.records;
      callback := callback[e := OnSwitch];
      events.EnqueueAt(e, ClockAfter(now, QUANTUM));
    }

    method GetNextThread() returns (t: Tid)
      modifies this`ready
      ensures t == if old(ready) == [] then idle else old(ready)[0]
      ensures ready == if old(ready) == [] then [] else old(ready)[1..]
    {
      if ready != [] {
        t := ready[0];
        ready := ready[1..];
        return;
      }
      t := idle;
    }

    /** Puts the thread that was left back in line, unless it sleeps or is done or idle. */
    method Requeue(thread: Tid)
      requires thread in threads
      modifies this`threads, this`ready
      ensures threads == if old(Requeues(threads, idle, thread)) then old(WithStatus(threads, thread, Ready))
        else old(threads)
      ensures ready == old(LineAfter(threads, idle, thread, ready))
    {
      if thread != idle {
        match threads[thread].status
        case Ready | Running =>
          threads := WithStatus(threads, thread, Ready);
          ready := ready + [thread];
        case _ =>
      }
    }

    /** switch_thread, once the next thread has been taken off the line. */
    method GoTo(next: Tid, now: nat, ghost line: seq<Tid>)
      requires Core() && LeavingOk(threads, idle, current, line)
      requires forall t | t in threads :: QueueWithout(threads, callback, Elems(events.tree), t)
      requires next == (if line == [] then idle else line[0]) && next != current
        && ready == (if line == [] then [] else line[1..])
      modifies this`threads, this`ready, this`current, this`callback, events
      ensures Valid() && clock == old(clock) && current == next
      ensures ready == old(LineAfter(threads, idle, current, ready))
      ensures Sleepers(threads, events.records) == old(Sleepers(threads, events.records))
      ensures DoneThreads(threads) == old(DoneThreads(threads))
      ensures SliceEnd(threads, current, events.records) == (now + 3000000) % 0x1_0000_0000_0000_0000
    {
      hide Elems, Order, EventQueue.SortedByTime, EventQueue.EventQueue.Valid, PlacesOk, Owned, Sleepers, DoneThreads,
          QueueWithout, SliceEnd;
      var this_ := current;
      SwitchIsReady(threads, idle, current, line, next, callback, Elems(events.tree), owner, events.records);
      hide LeavingOk;
      current := next;
      threads := WithStatus(threads, current, Running);
      Requeue(this_);
      Arm(now);
    }

    method SwitchThread(now: nat)
      requires Leaving()
      modifies this`threads, this`ready, this`current, this`callback, events
      ensures Valid() && clock == old(clock)
      ensures var next := if old(ready) == [] then idle else old(ready)[0];
        var rest := if old(ready) == [] then [] else old(ready)[1..];
        && current == next && old(current) in old(threads)
        && ready == (if next == old(current) then rest else LineAfter(old(threads), idle, old(current), rest))
        && Sleepers(threads, events.records) == old(Sleepers(threads, events.records))
        && DoneThreads(threads) == old(DoneThreads(threads))
      ensures SliceEnd(threads, current, events.records) == (now + 3000000) % 0x1_0000_0000_0000_0000
    {
      hide Elems, Order, EventQueue.SortedByTime, EventQueue.EventQueue.Valid, PlacesOk, Owned, Sleepers, DoneThreads,
          QueueWithout, SliceEnd;
      ghost var line := ready;
      var next := GetNextThread();
      if next == current {
        StaysIdle(threads, idle, current, line);
        Arm(now);
      } else {
        GoTo(next, now, line);
      }
    }

    /** thread_wake; the assertion in it never fails. */
    method WakeThread(t: Tid)
      requires t in threads
      requires threads[t].status.Sleeping?
      modifies this`threads, this`ready
      ensures threads == WithStatus(old(threads), t, Ready) && ready == old(ready) + [t]
    {
      threads := WithStatus(threads, t, Ready);
      ready := ready + [t];
    }

    /** The event is taken off the queue. */
    method TakeOff(e: Addr)
      requires Core() && e in Elems(events.tree)
      modifies events
      ensures Core() && Elems(events.tree) == old(Elems(events.tree)) - {e}
      ensures EventQueue.SameTimes(old(events.records), events.records)
    {
      assert Distinct(events.tree) && events.tree != Leaf;
      hide Elems, Order, EventQueue.SortedByTime, EventQueue.Without, Owned;
      ghost var m := events.records;
      KeepsSorted(m, Order(events.tree), e, events.tree);
      events.Remove(e);
      SortedSame(m, events.records, Order(events.tree));
    }

    /** The current thread's event is due: its slice ends. */
    method EndSlice(e: Addr, now: nat) returns (ghost step: Step)
      requires Valid() && IsFirstDue(e, now) && clock == now && owner[e] == current
      modifies this, events
      ensures Valid() && clock == now && Next(old(View()), View(), step) && !step.Tick? && !step.Sleep?
    {
      hide Elems, Order, EventQueue.SortedByTime, EventQueue.EventQueue.Valid, PlacesOk, QueueOk, QueueWithout, Owned,
          Sleepers, DoneThreads, LeavingOk, Next, SliceEnd, IsFirst, IsEarliest;
      FirstIsEarliest(e, now);
      RequeuesUnlessDone(threads, idle, current, ready);
      LeaveCurrent(threads, owner, idle, current, ready, callback, Elems(events.tree), e);
      ghost var v, m := View(), events.records;
      TakeOff(e);
      SleepersSame(threads, m, events.records);
      SwitchThread(now);
      step := if Front(v) == v.current then Rearm else Switch;
      SwitchIsNext(v, View());
    }

    /** A sleeper's event is due: it gets in line. */
    method EndSleep(e: Addr, t: Tid, now: nat) returns (ghost step: Step)
      requires Valid() && IsFirstDue(e, now) && now == clock && owner[e] == t && t != current
      modifies this, events
      ensures Valid() && clock == now && Next(old(View()), View(), step) && !step.Tick? && !step.Sleep?
    {
      hide Elems, Order, EventQueue.SortedByTime, EventQueue.EventQueue.Valid, PlacesOk, QueueOk, Owned, Sleepers,
          DoneThreads, Next, IsFirst, IsEarliest;
      FirstIsEarliest(e, now);
      WhoseEvent(threads, owner, idle, current, ready, callback, Elems(events.tree), e);
      WokenPlaces(threads, idle, current, ready, t);
      WokenQueue(threads, owner, current, callback, Elems(events.tree), events.records, e);
      ghost var v, m := View(), events.records;
      TakeOff(e);
      SleepersSame(WithStatus(threads, t, Ready), m, events.records);
      WakeThread(t);
      step := Wake(t);
      WakeIsNext(v, View(), t);
    }

    /** Takes a due event off the queue and runs its callback. */
    method RunCallback(e: Addr, now: nat) returns (ghost step: Step)
      requires Valid() && IsFirstDue(e, now) && now == clock
      modifies this, events
      ensures Valid() && clock == now && Next(old(View()), View(), step) && !step.Tick? && !step.Sleep?
    {
      hide Elems, Order, EventQueue.SortedByTime, EventQueue.EventQueue.Valid, PlacesOk, QueueOk, Owned, Sleepers,
          DoneThreads, Next, IsFirst;
      WhoseEvent(threads, owner, idle, current, ready, callback, Elems(events.tree), e);
      match callback[e] {
        case OnSwitch => step := EndSlice(e, now);
        case OnWake(t) => step := EndSleep(e, t, now);
      }
    }

    /** One round of handle_next_event: if the earliest event is due it is taken off the queue and
        its callback runs. */
    method Dispatch(now: nat) returns (dispatched: bool, ghost step: Step)
      requires Valid() && clock <= now
      modifies this, events
      ensures Valid() && clock == now
      ensures Next(old(View()), View(), step) && (step.Tick? <==> !dispatched) && !step.Sleep?
      ensures dispatched <==> exists e | e in old(Elems(events.tree)) && e in old(events.records) ::
        old(events.records)[e].time <= now
    {
      hide Elems, Order, EventQueue.EventQueue.Valid, PlacesOk, QueueOk, Owned, Sleepers, DoneThreads, SliceEnd;
      step := Tick;
      ghost var m, t := events.records, events.tree;
      var e := events.PeekNext();
      if e == NULL {
        EmptyOrder(t);
        NeverEmpty();
      }
      forall x | x in Elems(t) && x in m ensures m[e].time <= m[x].time { FrontIsEarliest(m, t, x); }
      if e == NULL || events.records[e].time > now {
        LaterIsNotDue(e, now);
        clock := now;
        return false, step;
      }
      clock := now;
      dispatched := true;
      step := RunCallback(e, now);
    }

    /** The queue always holds the current thread's event. */
    lemma NeverEmpty()
      requires Valid()
      ensures Elems(events.tree) != {}
    {
      assert QueueOk(threads, current, callback, Elems(events.tree), current);
    }

    ghost predicate IsFirstDue(e: Addr, now: nat)
      reads this, events
    {
      e in Elems(events.tree) && IsFirst(events.records, Elems(events.tree), e) && events.records[e].time <= now
    }

    /** The first event of the queue is the earliest wake time or slice end. */
    lemma FirstIsEarliest(e: Addr, now: nat)
      requires Valid() && IsFirstDue(e, now)
      ensures IsEarliest(View(), events.records[e].time) && e in owner
      ensures owner[e] == current ==> View().sliceEnd == events.records[e].time
    {
      hide Elems, Order, EventQueue.SortedByTime, EventQueue.EventQueue.Valid;
      QueueTimes(threads, idle, current, ready, owner, callback, Elems(events.tree), events.records);
    }

    lemma LaterIsNotDue(e: Addr, now: nat)
      requires Valid() && e in Elems(events.tree) && IsFirst(events.records, Elems(events.tree), e)
      requires now < events.records[e].time
      ensures NothingDue(View(), now)
    {
      hide Elems, Order, EventQueue.SortedByTime, EventQueue.EventQueue.Valid;
      QueueTimes(threads, idle, current, ready, owner, callback, Elems(events.tree), events.records);
    }

    /** thread_sleep, including the switch. */
    method SleepThread(delay: nat, now: nat) returns (ghost step: Step)
      requires Valid() && clock <= now && current != idle && threads[current].status.Running?
      modifies this, events
      ensures Valid() && clock == now && step == Sleep(delay) && Next(old(View()), View(), step)
    {
      hide Elems, Order, EventQueue.SortedByTime, EventQueue.Insert, EventQueue.EventQueue.Valid, EventQueue.Without,
          PlacesOk, QueueOk, QueueWithout, Owned, Sleepers, DoneThreads, LeavingOk, SliceEnd;
      clock := now;
      var wakeTime := ClockAfter(now, delay);
      RequeuesUnlessDone(threads, idle, current, ready);
      ghost var th, m, q := threads, events.records, Elems(events.tree);
      FallsAsleep(threads, owner, idle, current, ready, callback, q, m, wakeTime);
      var e := threads[current].event;
      threads := WithStatus(threads, current, Sleeping);
      callback := callback[e := OnWake(current)];
      events.EnqueueAt(e, wakeTime);
      SleepersSame(threads, m[e := m[e].(time := wakeTime)], events.records);
      SwitchThread(now);
      step := Sleep(delay);
    }

    /** Any run of interrupts and calls of thread_sleep under a monotone clock is a run of the
        abstract scheduler. */
    method Run(calls: seq<Call>) returns (ghost run: seq<State>, ghost steps: seq<Step>)
      requires Valid() && (forall i | 0 <= i < |calls| :: clock <= calls[i].now)
      requires forall i, j | 0 <= i < j < |calls| :: calls[i].now <= calls[j].now
      modifies this, events
      ensures Valid() && IsRun(run, steps) && |steps| == |calls|
      ensures run[0] == old(View()) && run[|steps|] == View()
      ensures forall i | 0 <= i < |calls| :: Answers(run[i], calls[i], steps[i], run[i + 1])
    {
      hide Elems, Order, EventQueue.SortedByTime, EventQueue.EventQueue.Valid, PlacesOk, QueueOk, Owned, Sleepers,
          DoneThreads, Next, Answers, SliceEnd;
      run, steps := [View()], [];
      for i := 0 to |calls|
        invariant Valid() && IsRun(run, steps) && |steps| == i && run[0] == old(View()) && run[i] == View()
        invariant i < |calls| ==> clock <= calls[i].now
        invariant forall k | 0 <= k < i :: Answers(run[k], calls[k], steps[k], run[k + 1])
      {
        ghost var step;
        ghost var before := View();
        RunningOrDone();
        if calls[i].Sleeps? && current != idle && IsRunning(current) {
          step := SleepThread(calls[i].delay, calls[i].now);
        } else {
          var dispatched;
          dispatched, step := Dispatch(calls[i].now);
        }
        assert Answers(before, calls[i], step, View()) by { IsAnswer(before, calls[i], step, View()); }
        run, steps := run + [View()], steps + [step];
      }
    }

    lemma RunningOrDone()
      requires Valid()
      ensures current != idle ==> (IsRunning(current) <==> current !in View().done)
    {
      assert PlaceOk(threads, idle, current, ready, current);
    }

    predicate IsRunning(t: Tid)
      reads this
    {
      t in threads && threads[t].status.Running?
    }

    /** Between steps each thread is in one place, and the queue is exactly the current thread's
        switch event and one wake event per sleeper. */
    lemma PlacesAndQueue()
      requires Valid()
      ensures OnePlace(View())
      ensures Elems(events.tree) == {threads[current].event} + (set t | t in View().sleeping :: threads[t].event)
      ensures callback[threads[current].event] == OnSwitch
      ensures forall t | t in View().sleeping :: callback[threads[t].event] == OnWake(t)
      ensures forall t | t in threads && t != idle && threads[t].status in {Ready, Running, Sleeping} ::
        t in Placed(View())
    {
      ViewPlaces(threads, idle, current, ready, events.records, View());
      forall t | t in threads
        ensures (t == current ==> callback[threads[t].event] == OnSwitch)
          && (threads[t].status.Sleeping? ==> callback[threads[t].event] == OnWake(t))
        ensures threads[t].event in Elems(events.tree) <==> t == current || threads[t].status.Sleeping?
      {
        assert QueueOk(threads, current, callback, Elems(events.tree), t);
      }
    }
  }

  datatype Call = Interrupt(now: nat) | Sleeps(delay: nat, now: nat)

  /** Which step a call is: a sleep if a thread other than the idle one calls for it, else a dispatch. */
  predicate Answers(s: State, call: Call, step: Step, s': State)
  {
    && s'.clock == call.now
    && (if call.Sleeps? && s.current != s.idle && s.current !in s.done then step == Sleep(call.delay) else !step.Sleep?)
  }

  lemma IsAnswer(s: State, call: Call, step: Step, s': State)
    requires s'.clock == call.now
    requires if call.Sleeps? && s.current != s.idle && s.current !in s.done then step == Sleep(call.delay)
             else !step.Sleep?
    ensures Answers(s, call, step, s')
  {
  }

  lemma ViewPlaces(threads: Threads, idle: Tid, current: Tid, ready: seq<Tid>, m: Records, v: State)
    requires PlacesOk(threads, idle, current, ready)
    requires v.current == current && v.ready == ready && v.idle == idle && v.sleeping == Sleepers(threads, m)
    requires forall t | t in threads :: threads[t].event in m
    ensures OnePlace(v)
    ensures forall t | t in threads && t != idle && threads[t].status in {Ready, Running, Sleeping} :: t in Placed(v)
  {
    forall t | t in threads
      ensures t != idle ==> (threads[t].status.Ready? <==> t in ready)
      ensures t != idle && t == current ==> threads[t].status.Running? || threads[t].status.Done?
      ensures t != idle && threads[t].status.Running? ==> t == current
    {
      assert PlaceOk(threads, idle, current, ready, t);
    }
  }

  lemma FallsAsleep(threads: Threads, owner: map<Addr, Tid>, idle: Tid, current: Tid, ready: seq<Tid>,
      callback: map<Addr, Callback>, queued: set<Addr>, m: Records, wakeTime: nat)
    requires Owned(threads, owner) && PlacesOk(threads, idle, current, ready) && current != idle
    requires threads[current].status.Running?
    requires forall t | t in threads :: QueueOk(threads, current, callback, queued, t)
    requires forall x | x in owner :: x in m
    ensures current in threads && threads[current].event in m && threads[current].event in owner
    ensures var e := threads[current].event; var threads' := WithStatus(threads, current, Sleeping);
      && LeavingOk(threads', idle, current, ready) && Owned(threads', owner)
      && (forall t | t in threads' :: QueueWithout(threads', callback[e := OnWake(current)], queued + {e}, t))
      && Sleepers(threads', m[e := m[e].(time := wakeTime)]) == Sleepers(threads, m)[current := wakeTime]
      && !Requeues(threads', idle, current) && DoneThreads(threads') == DoneThreads(threads)
  {
    FallsAsleepPlaces(threads, idle, current, ready);
    FallsAsleepQueue(threads, owner, current, callback, queued, m, wakeTime);
  }

  lemma FallsAsleepPlaces(threads: Threads, idle: Tid, current: Tid, ready: seq<Tid>)
    requires PlacesOk(threads, idle, current, ready) && current != idle
    ensures current in threads && LeavingOk(WithStatus(threads, current, Sleeping), idle, current, ready)
  {
    var threads' := WithStatus(threads, current, Sleeping);
    assert PlaceOk(threads, idle, current, ready, current);
    forall t | t in threads' && t != current ensures PlaceOk(threads', idle, current, ready, t) {
      assert PlaceOk(threads, idle, current, ready, t);
    }
  }

  lemma FallsAsleepQueue(threads: Threads, owner: map<Addr, Tid>, current: Tid, callback: map<Addr, Callback>,
      queued: set<Addr>, m: Records, wakeTime: nat)
    requires Owned(threads, owner) && current in threads && forall x | x in owner :: x in m
    requires forall t | t in threads :: QueueOk(threads, current, callback, queued, t)
    ensures threads[current].event in m && threads[current].event in owner
    ensures var e := threads[current].event; var threads' := WithStatus(threads, current, Sleeping);
      && Owned(threads', owner)
      && (forall t | t in threads' :: QueueWithout(threads', callback[e := OnWake(current)], queued + {e}, t))
      && Sleepers(threads', m[e := m[e].(time := wakeTime)]) == Sleepers(threads, m)[current := wakeTime]
  {
    var e := threads[current].event;
    var threads' := WithStatus(threads, current, Sleeping);
    forall t | t in threads' ensures QueueWithout(threads', callback[e := OnWake(current)], queued + {e}, t) {
      assert QueueOk(threads, current, callback, queued, t);
    }
  }

  /** No event of the queue is earlier. */
  ghost predicate IsFirst(m: Records, queued: set<Addr>, e: Addr)
  {
    e in m && forall x | x in queued && x in m :: m[e].time <= m[x].time
  }

  /** The events of the current thread and of the sleepers are queued, at the slice end and at the wake times. */
  lemma QueueTimes(threads: Threads, idle: Tid, current: Tid, ready: seq<Tid>, owner: map<Addr, Tid>,
      callback: map<Addr, Callback>, queued: set<Addr>, m: Records)
    requires Owned(threads, owner) && PlacesOk(threads, idle, current, ready) && forall x | x in owner :: x in m
    requires forall t | t in threads :: QueueOk(threads, current, callback, queued, t)
    ensures current in threads
    ensures var e := threads[current].event;
      e in queued && e in m && e in owner && SliceEnd(threads, current, m) == m[e].time
    ensures forall t | t in Sleepers(threads, m) ::
      && t in threads && threads[t].event in queued && threads[t].event in m
      && Sleepers(threads, m)[t] == m[threads[t].event].time
    ensures forall e | e in owner && owner[e] == current :: e == threads[current].event
  {
    forall t | t in threads && (t == current || threads[t].status.Sleeping?)
      ensures threads[t].event in queued && threads[t].event in owner
    {
      assert QueueOk(threads, current, callback, queued, t);
    }
  }

  lemma EmptyOrder(t: Tree)
    ensures Order(t) == [] <==> t == Leaf
    ensures Order(t) == [] ==> Elems(t) == {}
  {
  }

  lemma FrontIsEarliest(m: Records, t: Tree, x: Addr)
    requires EventQueue.SortedByTime(m, Order(t)) && x in Elems(t)
    ensures Order(t) != [] && Order(t)[0] in m && x in m && m[Order(t)[0]].time <= m[x].time
  {
    OrderElems(t, x);
    var i :| 0 <= i < |Order(t)| && Order(t)[i] == x;
    EventQueue.SortedPair(m, Order(t), 0, i);
  }
}
