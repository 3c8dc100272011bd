/** What the scheduler of kernel/multitasking/sched.c does to the threads, step by step: one thread
    is current, some are ready in line, some sleep until a time.  A step is the dispatch of one
    event, or one call of thread_sleep up to and including the switch to another thread; both are
    taken to be atomic. */
module SchedSpec {
  type Tid = nat

  /** uint64_t clock arithmetic wraps. */
  const CLOCK_LIMIT: nat := 0x1_0000_0000_0000_0000

  function ClockAfter(now: nat, delay: nat): (t: nat)
    ensures t < CLOCK_LIMIT
  {
    (now + delay) % CLOCK_LIMIT
  }

  /** SCHED_THREAD_QUANTUM: 3 ms. */
  const QUANTUM: nat := 3000000

  /** `done` are threads that are never put in line again, such as the boot thread; sliceEnd is the time at which
      the current thread has to give way. */
  datatype State = State(current: Tid, ready: seq<Tid>, sleeping: map<Tid, nat>, sliceEnd: nat, idle: Tid,
      done: set<Tid>, clock: nat)

  /** Rearm is the idle thread's slice ending with nobody in line; Tick is time passing. */
  datatype Step = Switch | Rearm | Tick | Wake(t: Tid) | Sleep(delay: nat)

  /** The thread that runs next: the first in line, or the idle thread. */
  function Front(s: State): Tid
  {
    if s.ready == [] then s.idle else s.ready[0]
  }

  function Rest(s: State): seq<Tid>
  {
    if s.ready == [] then [] else s.ready[1..]
  }

  /** No wake time and no slice end lies before `time`. */
  predicate IsEarliest(s: State, time: nat)
  {
    time <= s.sliceEnd && forall t | t in s.sleeping :: time <= s.sleeping[t]
  }

  predicate NothingDue(s: State, now: nat)
  {
    now < s.sliceEnd && forall t | t in s.sleeping :: now < s.sleeping[t]
  }

  /** What is dispatched is the earliest event and due; a slice starts with every switch. */
  predicate Next(s: State, s': State, step: Step)
  {
    && s'.idle == s.idle && s'.done == s.done && s.clock <= s'.clock
    && match step
       case Switch =>
         && SliceIsOver(s, s')
         && Front(s) != s.current && s'.current == Front(s) && s'.sleeping == s.sleeping
         && s'.ready == Rest(s) + (if s.current == s.idle || s.current in s.done then [] else [s.current])
       case Rearm =>
         && SliceIsOver(s, s')
         && s.ready == [] && s.current == s.idle && s' == s.(clock := s'.clock, sliceEnd := s'.sliceEnd)
       case Tick =>
         NothingDue(s, s'.clock) && s' == s.(clock := s'.clock)
       case Wake(t) =>
         && t in s.sleeping && s.sleeping[t] <= s'.clock && IsEarliest(s, s.sleeping[t])
         && s' == s.(ready := s.ready + [t], sleeping := s.sleeping - {t}, clock := s'.clock)
       case Sleep(delay) =>
         && s.current != s.idle && s'.sliceEnd == ClockAfter(s'.clock, QUANTUM)
         && s'.current == Front(s) && s'.ready == Rest(s)
         && s'.sleeping == s.sleeping[s.current := ClockAfter(s'.clock, delay)]
  }

  predicate SliceIsOver(s: State, s': State)
  {
    IsEarliest(s, s.sliceEnd) && s.sliceEnd <= s'.clock && s'.sliceEnd == ClockAfter(s'.clock, QUANTUM)
  }

  /** Every thread is in at most one place: current, once in line, or asleep. */
  ghost predicate OnePlace(s: State)
  {
    && (forall i, j | 0 <= i < j < |s.ready| :: s.ready[i] != s.ready[j])
    && s.current !in s.ready && s.current !in s.sleeping
    && s.idle !in s.ready && s.idle !in s.sleeping
    && (forall t | t in s.ready :: t !in s.sleeping)
  }

  /** The threads that are in some place. */
  ghost function Placed(s: State): set<Tid>
  {
    {s.current} + (set t | t in s.ready) + s.sleeping.Keys
  }

  lemma StepKeepsPlaces(s: State, s': State, step: Step)
    requires OnePlace(s) && Next(s, s', step)
    ensures OnePlace(s')
    ensures Placed(s) - {s.idle} - s.done <= Placed(s')
    ensures Placed(s') <= Placed(s) + {s.idle}
  {
    if s.ready != [] {
      assert s.ready == [s.ready[0]] + s.ready[1..];
    }
  }

  // ---------- runs ----------

  ghost predicate IsRun(run: seq<State>, steps: seq<Step>)
  {
    |run| == |steps| + 1 && forall i | 0 <= i < |steps| :: Next(run[i], run[i + 1], steps[i])
  }

  /** Whether the step hands the processor to another thread. */
  predicate Switches(step: Step)
  {
    step.Switch? || step.Sleep?
  }

  function SwitchCount(steps: seq<Step>): (n: nat)
    ensures n <= |steps|
  {
    if steps == [] then 0
    else SwitchCount(steps[..|steps| - 1]) + (if Switches(steps[|steps| - 1]) then 1 else 0)
  }

  lemma {:induction false} RunKeepsPlaces(run: seq<State>, steps: seq<Step>)
    requires IsRun(run, steps) && OnePlace(run[0])
    ensures OnePlace(run[|steps|])
    ensures run[|steps|].idle == run[0].idle && run[|steps|].done == run[0].done
    ensures Placed(run[0]) - {run[0].idle} - run[0].done <= Placed(run[|steps|])
    ensures Placed(run[|steps|]) <= Placed(run[0]) + {run[0].idle}
    decreases |steps|
  {
    if steps != [] {
      var k := |steps| - 1;
      RunKeepsPlaces(run[..k + 1], steps[..k]);
      StepKeepsPlaces(run[k], run[k + 1], steps[k]);
    }
  }

  /** Round robin: a thread at position k of the line moves up by exactly one place per switch,
      and becomes current with the (k+1)-th switch. */
  lemma {:induction false} RoundRobin(run: seq<State>, steps: seq<Step>, k: nat)
    requires IsRun(run, steps) && OnePlace(run[0]) && k < |run[0].ready| && SwitchCount(steps) <= k
    ensures var s, n := run[|steps|], SwitchCount(steps); k - n < |s.ready| && s.ready[k - n] == run[0].ready[k]
    decreases |steps|
  {
    if steps != [] {
      var m := |steps| - 1;
      RoundRobin(run[..m + 1], steps[..m], k);
    }
  }

  lemma TurnComes(run: seq<State>, steps: seq<Step>, k: nat)
    requires IsRun(run, steps) && OnePlace(run[0]) && k < |run[0].ready|
    requires steps != [] && SwitchCount(steps) == k + 1 && Switches(steps[|steps| - 1])
    ensures run[|steps|].current == run[0].ready[k]
  {
    var m := |steps| - 1;
    RoundRobin(run[..m + 1], steps[..m], k);
  }

  /** While a thread sleeps its wake time does not move; it gets in line only at that time or
      later. */
  lemma {:induction false} NoEarlyWake(run: seq<State>, steps: seq<Step>, t: Tid)
    requires IsRun(run, steps) && OnePlace(run[0]) && t in run[0].sleeping
    ensures run[0].clock <= run[|steps|].clock
    ensures run[|steps|].clock < run[0].sleeping[t] ==>
      t in run[|steps|].sleeping && run[|steps|].sleeping[t] == run[0].sleeping[t]
    decreases |steps|
  {
    if steps != [] {
      var m := |steps| - 1;
      NoEarlyWake(run[..m + 1], steps[..m], t);
      RunKeepsPlaces(run[..m + 1], steps[..m]);
      assert Next(run[m], run[m + 1], steps[m]);
    }
  }

  /** The promise of thread_sleep: until `delay` has passed the sleeper is neither in line nor
      current, in any run that starts with the call. */
  lemma SleepsLongEnough(run: seq<State>, steps: seq<Step>)
    requires IsRun(run, steps) && steps != [] && steps[0].Sleep? && OnePlace(run[0])
    requires run[1].clock + steps[0].delay < CLOCK_LIMIT
    requires run[|steps|].clock < run[1].clock + steps[0].delay
    ensures var t, s := run[0].current, run[|steps|];
      t in s.sleeping && t !in s.ready && t != s.current
  {
    assert Next(run[0], run[1], steps[0]);
    StepKeepsPlaces(run[0], run[1], steps[0]);
    var run', steps' := run[1..], steps[1..];
    forall i | 0 <= i < |steps'| ensures Next(run'[i], run'[i + 1], steps'[i]) {
      assert Next(run[i + 1], run[i + 2], steps[i + 1]);
    }
    NoEarlyWake(run', steps', run[0].current);
    RunKeepsPlaces(run', steps');
  }

  /** The wake time is the intended one exactly when the 64-bit sum does not wrap; if it does, it
      lies in the past and the event is due at once. */
  lemma WakeTimeIsExact(now: nat, delay: nat)
    requires now < CLOCK_LIMIT && delay < CLOCK_LIMIT
    ensures now + delay < CLOCK_LIMIT <==> ClockAfter(now, delay) == now + delay
    ensures now + delay >= CLOCK_LIMIT <==> ClockAfter(now, delay) < now
  {
  }

  // ---------- slices ----------

  predicate EndsSlice(step: Step)
  {
    step.Switch? || step.Rearm?
  }

  /** A thread that does not go to sleep keeps the processor for 3 ms from when it got it, and no step ends its
      slice before. */
  lemma {:induction false} FullSlice(run: seq<State>, steps: seq<Step>)
    requires IsRun(run, steps) && steps != [] && (EndsSlice(steps[0]) || steps[0].Sleep?)
    requires run[1].clock + 3000000 < 0x1_0000_0000_0000_0000
    requires forall i | 1 <= i < |steps| :: !steps[i].Sleep?
    requires run[|steps|].clock < run[1].clock + 3000000
    ensures run[|steps|].current == run[1].current && run[|steps|].sliceEnd == run[1].clock + 3000000
    ensures forall i | 1 <= i < |steps| :: !EndsSlice(steps[i])
    decreases |steps|
  {
    var n := |steps| - 1;
    assert Next(run[0], run[1], steps[0]);
    if n > 0 {
      assert Next(run[n], run[n + 1], steps[n]);
      FullSlice(run[..n + 1], steps[..n]);
      assert forall i | 1 <= i < n :: steps[..n][i] == steps[i];
    }
  }

  /** Once its time is up, the next interrupt ends the slice, unless a sleeper's time came earlier. */
  lemma SliceGivesWay(s: State, s': State, step: Step)
    requires Next(s, s', step) && !step.Sleep? && s.sliceEnd <= s'.clock
    requires forall t | t in s.sleeping :: s.sliceEnd < s.sleeping[t]
    ensures EndsSlice(step) && (s.ready != [] && s.ready[0] != s.current ==> s'.current == s.ready[0])
  {
  }

  /** However many sleepers come first, the slice ends after at most one interrupt for each and one more. */
  lemma {:induction false} SliceMustEnd(run: seq<State>, steps: seq<Step>) returns (i: nat)
    requires IsRun(run, steps) && |steps| > |run[0].sleeping| && run[0].sliceEnd <= run[1].clock
    requires forall k | 0 <= k < |steps| :: !steps[k].Sleep?
    ensures i < |steps| && EndsSlice(steps[i])
    decreases |steps|
  {
    var s, s' := run[0], run[1];
    assert Next(s, s', steps[0]);
    if EndsSlice(steps[0]) {
      return 0;
    }
    var run', steps' := run[1..], steps[1..];
    forall k | 0 <= k < |steps'| ensures Next(run'[k], run'[k + 1], steps'[k]) && !steps'[k].Sleep? {
      assert Next(run[k + 1], run[k + 2], steps[k + 1]);
    }
    FewerSleepers(s.sleeping, steps[0].t);
    assert Next(run'[0], run'[1], steps'[0]);
    i := SliceMustEnd(run', steps');
    i := i + 1;
  }

  lemma FewerSleepers(m: map<Tid, nat>, t: Tid)
    requires t in m
    ensures |m - {t}| == |m| - 1
  {
    assert m.Keys == (m - {t}).Keys + {t};
    assert |m.Keys| == |m| && |(m - {t}).Keys| == |m - {t}|;
  }

  // ---------- sums that wrap ----------

  /** Whenever the sum wraps, the promise is broken: the sleeper gets in line before its delay has passed, and with
      none of it passed unless the end of a slice wraps as well. */
  lemma WrappedSleeperWakes(s: State, s': State, delay: nat) returns (run: seq<State>, steps: seq<Step>)
    requires OnePlace(s) && Next(s, s', Sleep(delay)) && s'.clock < CLOCK_LIMIT && delay < CLOCK_LIMIT
    requires s'.clock + delay >= CLOCK_LIMIT
    ensures IsRun(run, steps) && |steps| >= 2 && steps[0] == Sleep(delay) && run[0] == s && run[1] == s'
    ensures run[|steps|].clock < s'.clock + delay && s.current in run[|steps|].ready
    ensures s'.clock + QUANTUM < CLOCK_LIMIT ==> run[|steps|].clock == s'.clock
  {
    WakeTimeIsExact(s'.clock, delay);
    var late := s'.clock;
    if s'.clock + QUANTUM >= CLOCK_LIMIT && delay > QUANTUM {
      late := s'.clock + delay - QUANTUM;
    }
    StepKeepsPlaces(s, s', Sleep(delay));
    var run', steps' := GetsInLine(s', s.current, late);
    run, steps := [s] + run', [Sleep(delay)] + steps';
    Prepended(s, Sleep(delay), run', steps');
  }

  lemma Prepended(s: State, step: Step, run: seq<State>, steps: seq<Step>)
    requires IsRun(run, steps) && Next(s, run[0], step)
    ensures IsRun([s] + run, [step] + steps) && ([s] + run)[|steps| + 1] == run[|steps|]
  {
    hide Next;
    var run', steps' := [s] + run, [step] + steps;
    forall i | 0 <= i < |steps'| ensures Next(run'[i], run'[i + 1], steps'[i]) {
      assert i > 0 ==> Next(run[i - 1], run[i], steps[i - 1]);
    }
  }

  /** A sleeper whose time has come gets in line, if a slice that starts at `late` does not end before it. */
  lemma {:induction false} GetsInLine(s: State, t: Tid, late: nat) returns (run: seq<State>, steps: seq<Step>)
    requires OnePlace(s) && t in s.sleeping && s.sleeping[t] <= s.clock <= late
    requires s.sleeping[t] <= ClockAfter(late, QUANTUM)
    ensures IsRun(run, steps) && steps != [] && run[0] == s && t in run[|steps|].ready
    ensures run[|steps|].clock <= late && (s.sleeping[t] <= s.sliceEnd ==> run[|steps|].clock == s.clock)
    decreases |s.sleeping|, if s.sliceEnd < s.sleeping[t] then 1 else 0
  {
    hide Next, OnePlace, IsEarliest, ClockAfter, Rest, Front;
    var u := FirstToWake(s.sleeping, s.sleeping.Keys, t);
    var s', step;
    if s.sleeping[u] <= s.sliceEnd {
      s', step := WakeFirst(s, u);
      if u == t {
        run, steps := [s, s'], [step];
        return;
      }
    } else {
      s', step := EndSliceFirst(s, u, late);
    }
    StepKeepsPlaces(s, s', step);
    var run', steps' := GetsInLine(s', t, late);
    run, steps := [s] + run', [step] + steps';
    Prepended(s, step, run', steps');
  }

  lemma WakeFirst(s: State, u: Tid) returns (s': State, step: Step)
    requires u in s.sleeping && s.sleeping[u] <= s.clock && s.sleeping[u] <= s.sliceEnd
    requires forall v | v in s.sleeping :: s.sleeping[u] <= s.sleeping[v]
    ensures s' == s.(ready := s.ready + [u], sleeping := s.sleeping - {u}) && Next(s, s', step)
    ensures |s'.sleeping| < |s.sleeping|
  {
    step := Wake(u);
    s' := s.(ready := s.ready + [u], sleeping := s.sleeping - {u});
    FewerSleepers(s.sleeping, u);
  }

  lemma EndSliceFirst(s: State, u: Tid, now: nat) returns (s': State, step: Step)
    requires OnePlace(s) && u in s.sleeping && s.sliceEnd < s.sleeping[u] && s.sliceEnd <= now && s.clock <= now
    requires forall v | v in s.sleeping :: s.sleeping[u] <= s.sleeping[v]
    ensures s' == AfterSlice(s, now) && Next(s, s', step)
  {
    step := if Front(s) == s.current then Rearm else Switch;
    s' := AfterSlice(s, now);
  }

  function AfterSlice(s: State, now: nat): State
  {
    var line := Rest(s) + (if s.current == s.idle || s.current in s.done then [] else [s.current]);
    State(Front(s), line, s.sleeping, ClockAfter(now, QUANTUM), s.idle, s.done, now)
  }

  lemma {:induction false} FirstToWake(sleeping: map<Tid, nat>, among: set<Tid>, t: Tid) returns (u: Tid)
    requires among <= sleeping.Keys && t in among
    ensures u in among && forall v | v in among :: sleeping[u] <= sleeping[v]
    decreases |among|
  {
    if among - {t} == {} {
      assert forall v | v in among :: v == t;
      return t;
    }
    var v :| v in among - {t};
    assert |among - {v}| < |among|;
    u := FirstToWake(sleeping, among - {v}, t);
    if sleeping[v] < sleeping[u] {
      u := v;
    }
  }
}
