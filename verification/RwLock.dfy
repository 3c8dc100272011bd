/**
 * The reader-writer lock built from two native mutexes and a reader count
 * (uacpi/source/mutex.c).
 *
 * Any number of threads interleave one mutex operation or one update of the
 * count at a time.  Acquiring a native mutex may also fail with an error, which
 * every operation hands back to its caller.
 */
module RwLock {

  type Thread = nat

  datatype Pc =
    | Outside
    | ReadEnter    // about to take the read mutex
    | ReadCount    // read mutex held, about to count itself in
    | ReadFirst    // counted as the first reader, about to take the write mutex
    | ReadUndo     // the write mutex could not be had, about to reset the count
    | ReadLeave(ok: bool)  // about to drop the read mutex
    | Reading
    | UnreadEnter  // about to take the read mutex to leave
    | UnreadCount  // about to count itself out
    | UnreadLast   // was the last reader, about to drop the write mutex
    | UnreadLeave  // about to drop the read mutex
    | WriteEnter   // about to take the write mutex
    | Writing

  datatype Gate = Open | HeldBy(owner: Thread)

  /** Who has the write mutex: nobody, the readers together, or one writer. */
  datatype Writers = Free | Readers | Writer(thread: Thread)

  /** What the threads share. */
  datatype Shared = Shared(gate: Gate, writers: Writers, count: int)

  datatype State = State(pcs: map<Thread, Pc>, shared: Shared)

  /** Thread i at p takes a step to q, changing the shared part from s to t. */
  ghost predicate Moves(i: Thread, p: Pc, q: Pc, s: Shared, t: Shared) {
    match p
    case Outside => (q.ReadEnter? || q.WriteEnter?) && t == s
    case ReadEnter =>
      || (q.Outside? && t == s)
      || (s.gate.Open? && q.ReadCount? && t == s.(gate := HeldBy(i)))
    case ReadCount => q == (if s.count == 0 then ReadFirst else ReadLeave(true)) && t == s.(count := s.count + 1)
    case ReadFirst =>
      || (q.ReadUndo? && t == s)
      || (s.writers.Free? && q == ReadLeave(true) && t == s.(writers := Readers))
    case ReadUndo => q == ReadLeave(false) && t == s.(count := 0)
    case ReadLeave(ok) => q == (if ok then Reading else Outside) && t == s.(gate := Open)
    case Reading => q.UnreadEnter? && t == s
    case UnreadEnter =>
      || (q.Reading? && t == s)
      || (s.gate.Open? && q.UnreadCount? && t == s.(gate := HeldBy(i)))
    case UnreadCount => q == (if s.count == 1 then UnreadLast else UnreadLeave) && t == s.(count := s.count - 1)
    case UnreadLast => q.UnreadLeave? && t == s.(writers := Free)
    case UnreadLeave => q.Outside? && t == s.(gate := Open)
    case WriteEnter =>
      || (q.Outside? && t == s)
      || (s.writers.Free? && q.Writing? && t == s.(writers := Writer(i)))
    case Writing => q.Outside? && t == s.(writers := Free)
  }

  ghost predicate Step(s: State, i: Thread, t: State) {
    && i in s.pcs && i in t.pcs
    && t.pcs == s.pcs[i := t.pcs[i]]
    && Moves(i, s.pcs[i], t.pcs[i], s.shared, t.shared)
  }

  // ----- what every step keeps -----

  /** Threads that have been counted in, hold the lock for reading and are not yet counted out. */
  predicate IsReader(pc: Pc) {
    pc == ReadLeave(true) || pc.Reading? || pc.UnreadEnter? || pc.UnreadCount?
  }

  predicate InsideRead(pc: Pc) {
    || pc.ReadCount? || pc.ReadFirst? || pc.ReadUndo? || pc.ReadLeave?
    || pc.UnreadCount? || pc.UnreadLast? || pc.UnreadLeave?
  }

  function ReaderSet(s: State): set<Thread> {
    set i | i in s.pcs && IsReader(s.pcs[i])
  }

  /** The read mutex serialises entry and exit. */
  ghost predicate GateOk(s: State) {
    && (forall i | i in s.pcs :: InsideRead(s.pcs[i]) <==> s.shared.gate == HeldBy(i))
    && (s.shared.gate.HeldBy? ==> s.shared.gate.owner in s.pcs)
  }

  /** The state of the thread inside the read mutex, if any. */
  function Busy(s: State): Pc {
    if s.shared.gate.HeldBy? && s.shared.gate.owner in s.pcs then s.pcs[s.shared.gate.owner] else Outside
  }

  /**
   * The count is the number of readers, and a first reader still on its way in;
   * the readers have the write mutex exactly while there are any, or while the
   * last one is handing it back.
   */
  ghost predicate SharedOk(s: Shared, readers: set<Thread>, busy: Pc) {
    && s.count == |readers| + (if busy.ReadFirst? || busy.ReadUndo? then 1 else 0)
    && (s.writers.Readers? <==> readers != {} || busy.UnreadLast?)
    && (busy.ReadFirst? || busy.ReadUndo? || busy.UnreadLast? ==> readers == {})
  }

  /** A thread writes exactly while it has the write mutex to itself. */
  ghost predicate WriterOk(s: State) {
    && (forall i | i in s.pcs :: s.pcs[i].Writing? <==> s.shared.writers == Writer(i))
    && (s.shared.writers.Writer? ==> s.shared.writers.thread in s.pcs)
  }

  ghost predicate Inv(s: State) {
    GateOk(s) && SharedOk(s.shared, ReaderSet(s), Busy(s)) && WriterOk(s)
  }

  ghost predicate Initial(s: State) {
    && (forall i | i in s.pcs :: s.pcs[i].Outside?)
    && s.shared.gate.Open? && s.shared.writers.Free? && s.shared.count == 0
  }

  lemma InitialIsOk(s: State)
    requires Initial(s)
    ensures Inv(s)
  {
    assert ReaderSet(s) == {};
  }

  lemma ReadersAfter(s: State, i: Thread, t: State)
    requires Step(s, i, t)
    ensures ReaderSet(t) == if IsReader(t.pcs[i]) then ReaderSet(s) + {i} else ReaderSet(s) - {i}
    ensures i in ReaderSet(s) <==> IsReader(s.pcs[i])
  {
    hide Moves, IsReader;
    var r := if IsReader(t.pcs[i]) then ReaderSet(s) + {i} else ReaderSet(s) - {i};
    assert forall k :: k in ReaderSet(t) <==> k in r;
  }

  lemma GateKept(s: State, i: Thread, t: State)
    requires GateOk(s) && Step(s, i, t)
    ensures GateOk(t)
  {
  }

  /** Inside the read mutex a thread sees itself; outside it, a step leaves whoever is inside alone. */
  lemma BusyAfter(s: State, i: Thread, t: State)
    requires GateOk(s) && Step(s, i, t)
    ensures Busy(s) == if InsideRead(s.pcs[i]) then s.pcs[i]
                       else if InsideRead(t.pcs[i]) then Outside else Busy(s)
    ensures Busy(t) == if InsideRead(t.pcs[i]) then t.pcs[i]
                       else if InsideRead(s.pcs[i]) then Outside else Busy(s)
  {
    GateKept(s, i, t);
  }

  lemma SharedKept(i: Thread, p: Pc, q: Pc, s: Shared, t: Shared, r0: set<Thread>, r1: set<Thread>, b0: Pc, b1: Pc)
    requires SharedOk(s, r0, b0) && Moves(i, p, q, s, t)
    requires p.Writing? ==> s.writers.Writer?
    requires r1 == (if IsReader(q) then r0 + {i} else r0 - {i}) && (i in r0 <==> IsReader(p))
    requires b0 == if InsideRead(p) then p else if InsideRead(q) then Outside else b0
    requires b1 == if InsideRead(q) then q else if InsideRead(p) then Outside else b0
    ensures SharedOk(t, r1, b1)
  {
    assert |r1| == |r0| + (if IsReader(q) then 1 else 0) - (if IsReader(p) then 1 else 0);
    assert r0 == {} <==> |r0| == 0;
    assert r1 == {} <==> |r1| == 0;
    assert IsReader(p) && !IsReader(q) ==> p.UnreadCount?;
    assert !IsReader(p) && IsReader(q) ==> q == ReadLeave(true);
    assert p != q;
    hide IsReader;
  }

  lemma WriterKept(s: State, i: Thread, t: State)
    requires WriterOk(s) && Step(s, i, t)
    requires s.shared.writers.Writer? ==> !s.pcs[i].UnreadLast?
    ensures WriterOk(t)
  {
  }

  lemma StepKeeps(s: State, i: Thread, t: State)
    requires Inv(s) && Step(s, i, t)
    ensures Inv(t) && t.pcs.Keys == s.pcs.Keys
  {
    hide GateOk, SharedOk, Moves, ReaderSet, Busy, IsReader, InsideRead;
    GateKept(s, i, t);
    ReadersAfter(s, i, t);
    BusyAfter(s, i, t);
    SharedKept(i, s.pcs[i], t.pcs[i], s.shared, t.shared, ReaderSet(s), ReaderSet(t), Busy(s), Busy(t));
    if s.shared.writers.Writer? {
      LastIsNoWriter(s, i);
    }
    WriterKept(s, i, t);
  }

  lemma LastIsNoWriter(s: State, i: Thread)
    requires Inv(s) && i in s.pcs && s.shared.writers.Writer?
    ensures !s.pcs[i].UnreadLast?
  {
  }

  // ----- every run -----

  ghost predicate Next(s: State, t: State) {
    exists i :: Step(s, i, t)
  }

  ghost predicate IsRun(states: seq<State>) {
    && states != [] && Initial(states[0])
    && forall n | 0 < n < |states| :: Next(states[n - 1], states[n])
  }

  lemma {:induction false} RunsKeep(states: seq<State>, n: nat)
    requires IsRun(states) && n < |states|
    ensures Inv(states[n])
  {
    hide Inv, Initial, Step;
    if n == 0 {
      InitialIsOk(states[0]);
    } else {
      RunsKeep(states, n - 1);
      assert Next(states[n - 1], states[n]);
      var i :| Step(states[n - 1], i, states[n]);
      StepKeeps(states[n - 1], i, states[n]);
    }
  }

  /** Whatever the interleaving and whichever acquires fail: one writer at most, and never beside a reader. */
  lemma NeverWithAWriter(states: seq<State>, n: nat, i: Thread, j: Thread)
    requires IsRun(states) && n < |states|
    requires i in states[n].pcs && j in states[n].pcs && i != j
    ensures states[n].pcs[i].Writing? ==> !states[n].pcs[j].Writing? && !states[n].pcs[j].Reading?
  {
    RunsKeep(states, n);
    var s := states[n];
    assert IsReader(s.pcs[j]) <==> j in ReaderSet(s);
  }

  /** Between operations the count is the number of readers inside, and they hold the write mutex iff there is one. */
  lemma CountIsReaders(states: seq<State>, n: nat)
    requires IsRun(states) && n < |states| && states[n].shared.gate.Open?
    ensures var inside := set i | i in states[n].pcs && (states[n].pcs[i].Reading? || states[n].pcs[i].UnreadEnter?);
            states[n].shared.count == |inside| && (states[n].shared.writers.Readers? <==> inside != {})
  {
    RunsKeep(states, n);
    var s := states[n];
    var inside := set i | i in s.pcs && (s.pcs[i].Reading? || s.pcs[i].UnreadEnter?);
    forall i | i in s.pcs ensures i in inside <==> i in ReaderSet(s) {
      assert !InsideRead(s.pcs[i]);
    }
    assert inside == ReaderSet(s);
  }
}
