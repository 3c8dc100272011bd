/**
 * The ACPI global lock, shared between the operating system and the firmware
 * (uacpi/source/mutex.c, uacpi/source/event.c).
 *
 * The lock is a 32-bit word with a pending and an owned bit, changed only by
 * compare-exchange.  The model interleaves three agents one memory access at a
 * time: the OS thread that acquires and releases the lock, the OS interrupt
 * handler that turns a release notification into an event, and the firmware,
 * which follows the same protocol from its side (section 5.2.10.1 of the ACPI
 * specification).
 */
module GlobalLock {

  // ----- the word -----

  predicate Pending(v: nat) { v % 2 == 1 }

  predicate Owned(v: nat) { v / 2 % 2 == 1 }

  /** The bits that are not the lock's to change. */
  function Rest(v: nat): nat { v / 4 }

  lemma LowBits(q: nat, b: nat)
    requires b < 4
    ensures Pending(4 * q + b) <==> b == 1 || b == 3
    ensures Owned(4 * q + b) <==> b == 2 || b == 3
    ensures Rest(4 * q + b) == q
  {
    assert (4 * q + b) / 2 == 2 * q + b / 2;
  }

  /** The word an acquire attempt installs over v. */
  function Taken(v: nat): (r: nat)
    ensures Owned(r) && Pending(r) == Owned(v) && Rest(r) == Rest(v)
  {
    LowBits(v / 4, 2);
    LowBits(v / 4, 3);
    var n := v - v % 4 + 2;
    if Owned(v) then n + 1 else n
  }

  /** The word a release installs over v. */
  function Dropped(v: nat): (r: nat)
    ensures !Owned(r) && !Pending(r) && Rest(r) == Rest(v)
  {
    LowBits(v / 4, 0);
    v - v % 4
  }

  // ----- the agents -----

  /** Where the OS thread is.  `spins` counts its attempts. */
  datatype Os =
    | Idle
    | Enter(spins: nat)              // about to take the spinlock
    | Load(spins: nat)               // spinlock held, about to read the word
    | Swap(spins: nat, value: nat)  // about to compare-exchange
    | Failed(spins: nat)             // the lock was owned; it is now pending
    | Flagged(spins: nat)            // the pending flag is up, about to drop the spinlock
    | Waiting(spins: nat)            // about to wait for the event
    | Settle(won: bool)              // about to lower the flag
    | Leave(won: bool)               // about to drop the spinlock
    | Holding
    | Unload
    | Unswap(value: nat)
    | Notify                         // released a pending lock, about to tell the firmware

  datatype Firmware =
    | FIdle
    | FLoad
    | FSwap(value: nat)
    | FWaiting
    | FHolding
    | FUnload
    | FUnswap(value: nat)
    | FNotify

  /** The interrupt handler for release notifications. */
  datatype Handler =
    | HIdle
    | HCleared   // cleared the status bit, about to take the spinlock
    | HLocked    // spinlock held, about to look at the flag
    | HLeave     // about to drop the spinlock

  datatype Spinlock = Free | ByOs | ByHandler

  datatype State = State(
    word: nat,       // FACS global lock
    os: Os,
    fw: Firmware,
    handler: Handler,
    spinlock: Spinlock,
    flag: bool,       // global_lock_pending
    event: nat,       // global_lock_event counter
    status: bool,     // latched release notification from the firmware
    signal: bool)     // release notification to the firmware

  const MAX_SPINS: nat := 0xFFFF

  predicate OsHolds(s: State) {
    s.os == Settle(true) || s.os == Leave(true) || s.os.Holding? || s.os.Unload? || s.os.Unswap?
  }

  predicate FwHolds(s: State) {
    s.fw.FHolding? || s.fw.FUnload? || s.fw.FUnswap?
  }

  // ----- the steps -----

  ghost predicate OsStep(s: State, t: State) {
    match s.os
    case Idle => t == s.(os := Enter(0))
    case Enter(n) => s.spinlock.Free? && t == s.(os := Load(n + 1), spinlock := ByOs)
    case Load(n) => t == s.(os := Swap(n, s.word))
    case Swap(n, v) =>
      || t == s.(os := Swap(n, s.word))
      || (s.word == v && t == s.(word := Taken(v), os := if Owned(v) then Failed(n) else Settle(true)))
    case Failed(n) => t == if n == MAX_SPINS then s.(os := Settle(false)) else s.(os := Flagged(n), flag := true)
    case Flagged(n) => t == s.(os := Waiting(n), spinlock := Free)
    case Waiting(n) => s.event > 0 && t == s.(os := Enter(n), event := s.event - 1)
    case Settle(won) => t == s.(os := Leave(won), flag := false)
    case Leave(won) => t == s.(os := if won then Holding else Idle, spinlock := Free)
    case Holding => t == s.(os := Unload)
    case Unload => t == s.(os := Unswap(s.word))
    case Unswap(v) =>
      || t == s.(os := Unswap(s.word))
      || (s.word == v && t == s.(word := Dropped(v), os := if Pending(v) then Notify else Idle))
    case Notify => t == s.(os := Idle, signal := true)
  }

  ghost predicate FwStep(s: State, t: State) {
    match s.fw
    case FIdle => t == s.(fw := FLoad)
    case FLoad => t == s.(fw := FSwap(s.word))
    case FSwap(v) =>
      || t == s.(fw := FSwap(s.word))
      || (s.word == v && t == s.(word := Taken(v), fw := if Owned(v) then FWaiting else FHolding))
    case FWaiting => s.signal && t == s.(fw := FLoad, signal := false)
    case FHolding => t == s.(fw := FUnload)
    case FUnload => t == s.(fw := FUnswap(s.word))
    case FUnswap(v) =>
      || t == s.(fw := FUnswap(s.word))
      || (s.word == v && t == s.(word := Dropped(v), fw := if Pending(v) then FNotify else FIdle))
    case FNotify => t == s.(fw := FIdle, status := true)
  }

  ghost predicate HandlerStep(s: State, t: State) {
    match s.handler
    case HIdle => s.status && t == s.(handler := HCleared, status := false)
    case HCleared => s.spinlock.Free? && t == s.(handler := HLocked, spinlock := ByHandler)
    case HLocked =>
      t == if s.flag then s.(handler := HLeave, event := s.event + 1, flag := false) else s.(handler := HLeave)
    case HLeave => t == s.(handler := HIdle, spinlock := Free)
  }

  ghost predicate Next(s: State, t: State) {
    OsStep(s, t) || FwStep(s, t) || HandlerStep(s, t)
  }

  /** The lock is free and nobody has started. */
  ghost predicate Initial(s: State) {
    && !Owned(s.word) && !Pending(s.word)
    && s.os.Idle? && s.fw.FIdle? && s.handler.HIdle? && s.spinlock.Free?
    && !s.flag && s.event == 0
  }

  // ----- what every step keeps -----

  /** The owned bit tells whether somebody holds the lock, and never two do. */
  ghost predicate Exclusive(s: State) {
    && !(OsHolds(s) && FwHolds(s))
    && (Owned(s.word) <==> OsHolds(s) || FwHolds(s))
  }

  ghost predicate SpinlockOk(s: State) {
    && (s.spinlock.ByOs? <==> s.os.Load? || s.os.Swap? || s.os.Failed? || s.os.Flagged? || s.os.Settle? || s.os.Leave?)
    && (s.spinlock.ByHandler? <==> s.handler.HLocked? || s.handler.HLeave?)
  }

  /** A release notification for the OS is owed, on its way, or being handled. */
  ghost predicate NoticeComing(s: State) {
    || (FwHolds(s) && Pending(s.word))
    || s.fw.FNotify?
    || s.status
    || s.handler.HCleared?
    || s.handler.HLocked?
  }

  /** The flag is up only while the OS is about to wait; at most one event is stored, and only for a waiter. */
  ghost predicate FlagOk(s: State) {
    && (s.flag ==> s.os.Flagged? || s.os.Waiting?)
    && (s.os.Flagged? ==> s.flag)
    && s.event <= 1
    && (s.event == 1 ==> s.os.Waiting? && !s.flag)
  }

  /** Whoever waits for the OS side has a wakeup coming. */
  ghost predicate OsWakes(s: State) {
    && (s.os.Failed? || s.os.Flagged? ==> NoticeComing(s))
    && (s.os.Waiting? ==> s.event == 1 || (s.flag && NoticeComing(s)))
  }

  ghost predicate FwWakes(s: State) {
    s.fw.FWaiting? ==> (OsHolds(s) && Pending(s.word)) || s.os.Notify? || s.signal
  }

  ghost predicate Inv(s: State) {
    Exclusive(s) && SpinlockOk(s) && FlagOk(s) && OsWakes(s) && FwWakes(s)
  }

  lemma InitialIsOk(s: State)
    requires Initial(s)
    ensures Inv(s)
  {
  }

  lemma OsKeepsExclusive(s: State, t: State)
    requires Exclusive(s) && OsStep(s, t)
    ensures Exclusive(t)
  {
    hide Pending, Owned, Rest, Taken, Dropped;
  }

  lemma OsKeepsSpinlockOk(s: State, t: State)
    requires SpinlockOk(s) && OsStep(s, t)
    ensures SpinlockOk(t)
  {
    hide Pending, Owned, Rest, Taken, Dropped;
  }

  lemma OsKeepsFlagOk(s: State, t: State)
    requires FlagOk(s) && SpinlockOk(s) && OsStep(s, t)
    ensures FlagOk(t)
  {
    hide Pending, Owned, Rest, Taken, Dropped;
  }

  lemma OsKeepsOsWakes(s: State, t: State)
    requires OsWakes(s) && Exclusive(s) && FlagOk(s) && SpinlockOk(s) && OsStep(s, t)
    ensures OsWakes(t)
  {
    hide Pending, Owned, Rest, Taken, Dropped;
  }

  lemma OsKeepsFwWakes(s: State, t: State)
    requires FwWakes(s) && Exclusive(s) && OsStep(s, t)
    ensures FwWakes(t)
  {
    hide Pending, Owned, Rest, Taken, Dropped;
  }

  lemma OsStepKeeps(s: State, t: State)
    requires Inv(s) && OsStep(s, t)
    ensures Inv(t) && Rest(t.word) == Rest(s.word)
  {
    assert Rest(t.word) == Rest(s.word) by { hide *; OsKeepsRest(s, t); }
    OsKeepsExclusive(s, t); OsKeepsSpinlockOk(s, t); OsKeepsFlagOk(s, t); OsKeepsOsWakes(s, t); OsKeepsFwWakes(s, t);
    hide Exclusive, SpinlockOk, FlagOk, OsWakes, FwWakes;
  }

  lemma OsKeepsRest(s: State, t: State)
    requires OsStep(s, t)
    ensures Rest(t.word) == Rest(s.word)
  {
    hide Pending, Owned, Rest, Taken, Dropped;
  }

  lemma FwKeepsExclusive(s: State, t: State)
    requires Exclusive(s) && FwStep(s, t)
    ensures Exclusive(t)
  {
    hide Pending, Owned, Rest, Taken, Dropped;
  }

  lemma FwKeepsSpinlockOk(s: State, t: State)
    requires SpinlockOk(s) && FwStep(s, t)
    ensures SpinlockOk(t)
  {
    hide Pending, Owned, Rest, Taken, Dropped;
  }

  lemma FwKeepsFlagOk(s: State, t: State)
    requires FlagOk(s) && SpinlockOk(s) && FwStep(s, t)
    ensures FlagOk(t)
  {
    hide Pending, Owned, Rest, Taken, Dropped;
  }

  lemma FwKeepsOsWakes(s: State, t: State)
    requires OsWakes(s) && Exclusive(s) && FlagOk(s) && SpinlockOk(s) && FwStep(s, t)
    ensures OsWakes(t)
  {
    hide Pending, Owned, Rest, Taken, Dropped;
  }

  lemma FwKeepsFwWakes(s: State, t: State)
    requires FwWakes(s) && Exclusive(s) && FwStep(s, t)
    ensures FwWakes(t)
  {
    hide Pending, Owned, Rest, Taken, Dropped;
  }

  lemma FwStepKeeps(s: State, t: State)
    requires Inv(s) && FwStep(s, t)
    ensures Inv(t) && Rest(t.word) == Rest(s.word)
  {
    assert Rest(t.word) == Rest(s.word) by { hide *; FwKeepsRest(s, t); }
    FwKeepsExclusive(s, t); FwKeepsSpinlockOk(s, t); FwKeepsFlagOk(s, t); FwKeepsOsWakes(s, t); FwKeepsFwWakes(s, t);
    hide Exclusive, SpinlockOk, FlagOk, OsWakes, FwWakes;
  }

  lemma FwKeepsRest(s: State, t: State)
    requires FwStep(s, t)
    ensures Rest(t.word) == Rest(s.word)
  {
    hide Pending, Owned, Rest, Taken, Dropped;
  }

  lemma HandlerKeepsExclusive(s: State, t: State)
    requires Exclusive(s) && HandlerStep(s, t)
    ensures Exclusive(t)
  {
    hide Pending, Owned, Rest, Taken, Dropped;
  }

  lemma HandlerKeepsSpinlockOk(s: State, t: State)
    requires SpinlockOk(s) && HandlerStep(s, t)
    ensures SpinlockOk(t)
  {
    hide Pending, Owned, Rest, Taken, Dropped;
  }

  lemma HandlerKeepsFlagOk(s: State, t: State)
    requires FlagOk(s) && SpinlockOk(s) && HandlerStep(s, t)
    ensures FlagOk(t)
  {
    hide Pending, Owned, Rest, Taken, Dropped;
  }

  lemma HandlerKeepsOsWakes(s: State, t: State)
    requires OsWakes(s) && Exclusive(s) && FlagOk(s) && SpinlockOk(s) && HandlerStep(s, t)
    ensures OsWakes(t)
  {
    hide Pending, Owned, Rest, Taken, Dropped;
  }

  lemma HandlerKeepsFwWakes(s: State, t: State)
    requires FwWakes(s) && Exclusive(s) && HandlerStep(s, t)
    ensures FwWakes(t)
  {
    hide Pending, Owned, Rest, Taken, Dropped;
  }

  lemma HandlerStepKeeps(s: State, t: State)
    requires Inv(s) && HandlerStep(s, t)
    ensures Inv(t) && Rest(t.word) == Rest(s.word)
  {
    assert Rest(t.word) == Rest(s.word) by { hide *; HandlerKeepsRest(s, t); }
    HandlerKeepsExclusive(s, t); HandlerKeepsSpinlockOk(s, t); HandlerKeepsFlagOk(s, t);
    HandlerKeepsOsWakes(s, t); HandlerKeepsFwWakes(s, t);
    hide Exclusive, SpinlockOk, FlagOk, OsWakes, FwWakes;
  }

  lemma HandlerKeepsRest(s: State, t: State)
    requires HandlerStep(s, t)
    ensures Rest(t.word) == Rest(s.word)
  {
    hide Pending, Owned, Rest, Taken, Dropped;
  }

  lemma StepKeeps(s: State, t: State)
    requires Inv(s) && Next(s, t)
    ensures Inv(t) && Rest(t.word) == Rest(s.word)
  {
    hide Inv, OsStep, FwStep, HandlerStep, Rest;
    if OsStep(s, t) {
      OsStepKeeps(s, t);
    } else if FwStep(s, t) {
      FwStepKeeps(s, t);
    } else {
      HandlerStepKeeps(s, t);
    }
  }

  // ----- every run -----

  ghost predicate IsRun(states: seq<State>) {
    && states != [] && Initial(states[0])
    && forall n | 0 < n < |states| :: Next(states[n - 1], states[n])
  }

  lemma {:induction false} RunsKeep(states: seq<State>, n: nat)
    requires IsRun(states) && n < |states|
    ensures Inv(states[n]) && Rest(states[n].word) == Rest(states[0].word)
  {
    hide Inv, Next, Initial, Rest;
    if n == 0 {
      InitialIsOk(states[0]);
    } else {
      RunsKeep(states, n - 1);
      StepKeeps(states[n - 1], states[n]);
    }
  }

  /** Under every interleaving OS and firmware never both hold the lock, and the other bits of the word stay. */
  lemma NeverBoth(states: seq<State>, n: nat)
    requires IsRun(states) && n < |states|
    ensures !(OsHolds(states[n]) && FwHolds(states[n]))
    ensures Owned(states[n].word) <==> OsHolds(states[n]) || FwHolds(states[n])
    ensures Rest(states[n].word) == Rest(states[0].word)
  {
    RunsKeep(states, n);
    hide Owned, Rest;
  }

  /**
   * No wakeup is lost: while the OS waits and the firmware is not the owner, the
   * event is signalled or a notification is owed, latched or being handled with
   * the flag up; a waiting firmware has its own in the same way.
   */
  lemma NoLostWakeup(states: seq<State>, n: nat)
    requires IsRun(states) && n < |states|
    ensures var s := states[n];
            s.os.Waiting? && !FwHolds(s) ==>
              s.event == 1 || (s.flag && (s.fw.FNotify? || s.status || s.handler.HCleared? || s.handler.HLocked?))
    ensures var s := states[n];
            s.fw.FWaiting? && !OsHolds(s) ==> s.os.Notify? || s.signal
  {
    RunsKeep(states, n);
    hide Pending, Owned, Rest;
  }

  /** How many steps of firmware and handler stand between a waiting OS and its event. */
  function Distance(s: State): nat {
    if s.event == 1 then 0
    else if s.handler.HLocked? then 1
    else if s.handler.HCleared? then 2
    else if s.status then (if s.handler.HIdle? then 3 else 4)
    else 5
  }

  ghost predicate Quiet(s: State, t: State) {
    HandlerStep(s, t) || (s.fw.FNotify? && FwStep(s, t))
  }

  lemma OneStepCloser(s: State) returns (t: State)
    requires Inv(s) && s.os.Waiting? && !FwHolds(s) && s.event == 0
    ensures Quiet(s, t) && t.os == s.os && !FwHolds(t) && Distance(t) < Distance(s)
  {
    hide Pending, Owned, Taken, Dropped, Rest;
    if s.handler.HLocked? {
      t := s.(handler := HLeave, event := s.event + 1, flag := false);
    } else if s.handler.HCleared? {
      t := s.(handler := HLocked, spinlock := ByHandler);
    } else if s.status {
      t := if s.handler.HIdle? then s.(handler := HCleared, status := false)
        else s.(handler := HIdle, spinlock := Free);
    } else {
      t := s.(fw := FIdle, status := true);
    }
  }

  /** From every reachable waiting state the notification already under way delivers the event, with no step
      of the OS thread. */
  lemma {:induction false} WaiterIsWoken(s: State) returns (path: seq<State>)
    requires Inv(s) && s.os.Waiting? && !FwHolds(s)
    ensures path != [] && path[0] == s && |path| <= 6
    ensures forall n | 0 < n < |path| :: Quiet(path[n - 1], path[n])
    ensures var t := path[|path| - 1]; t.os == s.os && t.event == 1
    ensures |path| <= Distance(s) + 1
    decreases Distance(s)
  {
    if s.event == 1 {
      path := [s];
    } else {
      var t := OneStepCloser(s);
      assert Inv(t) by { hide Inv, HandlerStep, FwStep; StepKeeps(s, t); }
      hide Inv, Quiet;
      var rest := WaiterIsWoken(t);
      path := [s] + rest;
    }
  }
}
