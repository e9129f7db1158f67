/** The broadcast barrier, for any number of threads and updates: a main thread creates the
    workers, raises a counter step by step, broadcasts after each step, and joins the workers; a
    worker waits on the condition variable until the counter has reached the last value. */
module Barrier {

  datatype Main =
    | Create                 // creating the next worker
    | MainLock | Update | Broadcast | MainUnlock
    | Join(joined: nat)
    | MainDone

  datatype Worker =
    | NotCreated
    | WorkerLock | Test | Asleep | Woken | WorkerUnlock | Exited

  datatype Owner = Nobody | MainThread | WorkerThread(id: nat)

  /** turn: how many iterations of its loop main has completed. */
  datatype State = State(main: Main, owner: Owner, counter: nat, turn: nat, created: nat, workers: seq<Worker>)

  function Init(threads: nat): State {
    State(Create, Nobody, 0, 0, 0, seq(threads, _ => NotCreated))
  }

  /** Spurious(i): worker i returns from its wait although nobody has woken it. */
  datatype Action = MainStep | WorkerStep(i: nat) | Spurious(i: nat)

  predicate Enabled(s: State, a: Action) {
    match a
    case MainStep =>
      match s.main {
        case MainLock => s.owner.Nobody?
        case Join(joined) => joined >= |s.workers| || s.workers[joined].Exited?
        case MainDone => false
        case _ => true
      }
    case WorkerStep(i) =>
      i < |s.workers| &&
      match s.workers[i] {
        case NotCreated => false
        case WorkerLock => s.owner.Nobody?
        case Woken => s.owner.Nobody?
        case Asleep => false
        case Exited => false
        case _ => true
      }
    case Spurious(i) => i < |s.workers| && s.workers[i].Asleep?
  }

  /** pthread_cond_broadcast wakes every waiter. */
  function WakeAll(ws: seq<Worker>): (r: seq<Worker>)
    ensures |r| == |ws|
    ensures forall i :: 0 <= i < |ws| ==> r[i] == if ws[i].Asleep? then Woken else ws[i]
  {
    seq(|ws|, i requires 0 <= i < |ws| => if ws[i].Asleep? then Woken else ws[i])
  }

  /** What main does before locking for its next update, or when there is none. */
  function NextUpdate(turn: nat, updates: nat): Main {
    if turn < updates then MainLock else Join(0)
  }

  function MainTurn(s: State, updates: nat): State {
    match s.main
    case Create =>
      if s.created < |s.workers|
      then s.(workers := s.workers[s.created := WorkerLock], created := s.created + 1)
      else s.(main := NextUpdate(s.turn, updates))
    case MainLock => s.(main := Update, owner := MainThread)
    case Update => s.(main := Broadcast, counter := s.turn + 1)
    case Broadcast => s.(main := MainUnlock, workers := WakeAll(s.workers))
    case MainUnlock => s.(main := NextUpdate(s.turn + 1, updates), turn := s.turn + 1, owner := Nobody)
    case Join(joined) => s.(main := if joined < |s.workers| then Join(joined + 1) else MainDone)
    case MainDone => s
  }

  function WorkerTurn(s: State, i: nat, updates: nat): State
    requires i < |s.workers|
  {
    match s.workers[i]
    case WorkerLock => s.(workers := s.workers[i := Test], owner := WorkerThread(i))
    case Woken => s.(workers := s.workers[i := Test], owner := WorkerThread(i))
    case Test =>
      if s.counter < updates
      then s.(workers := s.workers[i := Asleep], owner := Nobody)
      else s.(workers := s.workers[i := WorkerUnlock])
    case WorkerUnlock => s.(workers := s.workers[i := Exited], owner := Nobody)
    case _ => s
  }

  function Step(s: State, a: Action, updates: nat): State
    requires Enabled(s, a)
  {
    match a
    case MainStep => MainTurn(s, updates)
    case WorkerStep(i) => WorkerTurn(s, i, updates)
    case Spurious(i) => s.(workers := s.workers[i := Woken])
  }

  // ----- What can hold up a thread

  /** Whether a worker can take a step, or wake up for nothing, depends only on where it is and on the
      mutex. */
  lemma WorkerStepsAreLocal(s: State, s': State, i: nat)
    requires i < |s.workers| && i < |s'.workers| && s'.workers[i] == s.workers[i] && s'.owner == s.owner
    ensures Enabled(s, WorkerStep(i)) <==> Enabled(s', WorkerStep(i))
    ensures Enabled(s, Spurious(i)) <==> Enabled(s', Spurious(i))
  {
  }

  /** And for main only on where it is, on the mutex and, in a join, on the worker it waits for. */
  lemma MainStepsAreLocal(s: State, s': State)
    requires s'.main == s.main && s'.owner == s.owner && |s'.workers| == |s.workers|
    requires s.main.Join? && s.main.joined < |s.workers| ==> s'.workers[s.main.joined] == s.workers[s.main.joined]
    ensures Enabled(s, MainStep) <==> Enabled(s', MainStep)
  {
  }

  /** A worker that wakes up for nothing goes back to sleep, and nothing has changed. */
  lemma SpuriousWakeUpIsHarmless(s: State, i: nat, updates: nat)
    requires i < |s.workers| && s.workers[i].Asleep? && s.owner.Nobody? && s.counter < updates
    ensures Legal(s, [Spurious(i), WorkerStep(i), WorkerStep(i)], updates)
    ensures Last(s, [Spurious(i), WorkerStep(i), WorkerStep(i)], updates) == s
  {
    var a := WorkerStep(i);
    var woken := Step(s, Spurious(i), updates);
    var testing := Step(woken, a, updates);
    var again := Step(testing, a, updates);
    assert again.workers == s.workers;
    StepFirst(testing, a, [], updates);
    StepFirst(woken, a, [a] + [], updates);
    StepFirst(s, Spurious(i), [a] + ([a] + []), updates);
    assert [Spurious(i), a, a] == [Spurious(i)] + ([a] + ([a] + []));
  }

  lemma StepFirst(s: State, a: Action, rest: seq<Action>, updates: nat)
    requires Enabled(s, a) && Legal(Step(s, a, updates), rest, updates)
    ensures Legal(s, [a] + rest, updates)
    ensures Last(s, [a] + rest, updates) == Last(Step(s, a, updates), rest, updates)
  {
    assert ([a] + rest)[1..] == rest;
  }

  // ----- The invariant

  predicate Holding(w: Worker) {
    w.Test? || w.WorkerUnlock?
  }

  ghost predicate Inv(s: State, updates: nat) {
    // mutual exclusion
    && (s.owner.MainThread? <==> s.main.Update? || s.main.Broadcast? || s.main.MainUnlock?)
    && (forall i :: 0 <= i < |s.workers| ==> (Holding(s.workers[i]) <==> s.owner == WorkerThread(i)))
    && (s.owner.WorkerThread? ==> s.owner.id < |s.workers|)
    // main
    && s.created <= |s.workers| && s.counter <= updates
    && s.counter == s.turn + (if s.main.Broadcast? || s.main.MainUnlock? then 1 else 0)
    && (s.main.Create? ==> s.counter == 0)
    && (!s.main.Create? ==> s.created == |s.workers|)
    && (s.main.MainLock? || s.main.Update? ==> s.counter < updates)
    && (s.main.Broadcast? ==> s.counter > 0)
    && (s.main.Join? || s.main.MainDone? ==> s.counter == updates)
    && (s.main.Join? ==> s.main.joined <= |s.workers|)
    && (s.main.Join? ==> forall i :: 0 <= i < s.main.joined ==> s.workers[i].Exited?)
    && (s.main.MainDone? ==> forall i :: 0 <= i < |s.workers| ==> s.workers[i].Exited?)
    // workers
    && (forall i :: 0 <= i < |s.workers| ==> (s.workers[i].NotCreated? <==> s.created <= i))
    && (forall i :: 0 <= i < |s.workers| && s.workers[i].Asleep? ==> s.counter < updates || s.main.Broadcast?)
    && (forall i :: 0 <= i < |s.workers| && (s.workers[i].Exited? || s.workers[i].WorkerUnlock?) ==> s.counter == updates)
  }

  lemma InitInv(threads: nat, updates: nat)
    ensures Inv(Init(threads), updates)
  {
  }

  lemma StepKeepsInv(s: State, a: Action, updates: nat)
    requires Inv(s, updates) && Enabled(s, a)
    ensures Inv(Step(s, a, updates), updates)
    ensures s.counter <= Step(s, a, updates).counter
  {
    match a
    case MainStep => MainKeepsInv(s, updates);
    case WorkerStep(i) => WorkerKeepsInv(s, i, updates);
    case Spurious(i) =>
  }

  lemma MainKeepsInv(s: State, updates: nat)
    requires Inv(s, updates) && Enabled(s, MainStep)
    ensures Inv(MainTurn(s, updates), updates)
  {
  }

  lemma WorkerKeepsInv(s: State, i: nat, updates: nat)
    requires Inv(s, updates) && Enabled(s, WorkerStep(i))
    ensures Inv(WorkerTurn(s, i, updates), updates)
  {
    var s' := WorkerTurn(s, i, updates);
    assert forall j :: 0 <= j < |s.workers| && j != i ==> s'.workers[j] == s.workers[j];
  }

  /** Once the counter has reached its last value and main has broadcast it, nobody is
      asleep; and whoever has exited has seen the last value. */
  lemma NobodyLeftAsleep(s: State, updates: nat, i: nat)
    requires Inv(s, updates) && i < |s.workers|
    ensures s.counter == updates && !s.main.Broadcast? ==> !s.workers[i].Asleep?
    ensures s.workers[i].Exited? ==> s.counter == updates
  {
  }

  // ----- No deadlock

  predicate Finished(s: State) {
    s.main.MainDone?
  }

  /** A step that is open in an unfinished state. */
  function NextAction(s: State): Action {
    if s.owner.WorkerThread? then WorkerStep(s.owner.id)
    else match s.main
      case Join(joined) =>
        if joined < |s.workers| && !s.workers[joined].Exited? then WorkerStep(joined) else MainStep
      case _ => MainStep
  }

  lemma Progress(s: State, updates: nat)
    requires Inv(s, updates) && !Finished(s)
    ensures Enabled(s, NextAction(s)) && !NextAction(s).Spurious?
  {
    if s.main.Join? && s.main.joined < |s.workers| {
      NobodyLeftAsleep(s, updates, s.main.joined);
    }
  }

  // ----- Termination

  const WAKE_WORK: nat := 4

  function WorkerWork(w: Worker): nat {
    match w
    case NotCreated => 5
    case WorkerLock => 4
    case Woken => WAKE_WORK
    case Test => 3
    case WorkerUnlock => 1
    case _ => 0
  }

  function AllWork(ws: seq<Worker>): nat {
    if ws == [] then 0 else WorkerWork(ws[0]) + AllWork(ws[1..])
  }

  lemma {:induction false} AllWorkUpdate(ws: seq<Worker>, i: nat, w: Worker)
    requires i < |ws|
    ensures AllWork(ws[i := w]) == AllWork(ws) - WorkerWork(ws[i]) + WorkerWork(w)
  {
    if i == 0 {
      assert ws[0 := w][1..] == ws[1..];
    } else {
      assert ws[i := w][1..] == ws[1..][i - 1 := w];
      AllWorkUpdate(ws[1..], i - 1, w);
    }
  }

  lemma {:induction false} AllWorkWake(ws: seq<Worker>)
    ensures AllWork(WakeAll(ws)) <= AllWork(ws) + WAKE_WORK * |ws|
  {
    if ws != [] {
      assert WakeAll(ws)[1..] == WakeAll(ws[1..]);
      AllWorkWake(ws[1..]);
    }
  }

  /** The work in one update, waking every worker included. */
  function UpdateWork(threads: nat): nat {
    WAKE_WORK * threads + 6
  }

  /** The work in n updates and the joins after them. */
  function UpdatesWork(n: nat, threads: nat): nat {
    n * UpdateWork(threads) + threads + 2
  }

  lemma UpdatesWorkStep(n: nat, threads: nat)
    requires n > 0
    ensures UpdatesWork(n, threads) == UpdatesWork(n - 1, threads) + UpdateWork(threads)
  {
    var u := UpdateWork(threads);
    assert n * u == (n - 1) * u + u;
  }

  function MainWork(s: State, updates: nat): nat
    requires s.counter <= updates
  {
    var threads := |s.workers|;
    var left := UpdatesWork(updates - s.counter, threads);
    match s.main
    case Create => left + 1
    case MainLock => left
    case Update => left - 1
    case Broadcast => left + WAKE_WORK * threads + 4
    case MainUnlock => left + 3
    case Join(joined) => if joined <= threads then threads + 1 - joined else 0
    case MainDone => 0
  }

  function Measure(s: State, updates: nat): nat
    requires s.counter <= updates
  {
    MainWork(s, updates) + AllWork(s.workers)
  }

  lemma MainStepDecreases(s: State, updates: nat)
    requires Inv(s, updates) && Enabled(s, MainStep) && MainTurn(s, updates).counter <= updates
    ensures Measure(MainTurn(s, updates), updates) < Measure(s, updates)
  {
    match s.main
    case Create =>
      if s.created < |s.workers| {
        AllWorkUpdate(s.workers, s.created, WorkerLock);
      }
    case Update => UpdatesWorkStep(updates - s.counter, |s.workers|);
    case Broadcast => AllWorkWake(s.workers);
    case _ =>
  }

  lemma StepMeasure(s: State, a: Action, updates: nat)
    requires Inv(s, updates) && Enabled(s, a) && Step(s, a, updates).counter <= updates
    ensures !a.Spurious? ==> Measure(Step(s, a, updates), updates) < Measure(s, updates)
    ensures a.Spurious? ==> Measure(Step(s, a, updates), updates) == Measure(s, updates) + WAKE_WORK
  {
    match a
    case MainStep => MainStepDecreases(s, updates);
    case WorkerStep(i) => AllWorkUpdate(s.workers, i, WorkerTurn(s, i, updates).workers[i]);
    case Spurious(i) => AllWorkUpdate(s.workers, i, Woken);
  }

  // ----- Runs

  ghost predicate Legal(s: State, run: seq<Action>, updates: nat)
    decreases |run|
  {
    run == [] || (Enabled(s, run[0]) && Legal(Step(s, run[0], updates), run[1..], updates))
  }

  ghost function Last(s: State, run: seq<Action>, updates: nat): State
    requires Legal(s, run, updates)
    decreases |run|
  {
    if run == [] then s else Last(Step(s, run[0], updates), run[1..], updates)
  }

  function SpuriousCount(run: seq<Action>): nat {
    if run == [] then 0 else (if run[0].Spurious? then 1 else 0) + SpuriousCount(run[1..])
  }

  lemma {:induction false} RunKeepsInv(s: State, run: seq<Action>, updates: nat)
    requires Inv(s, updates) && Legal(s, run, updates)
    ensures Inv(Last(s, run, updates), updates)
    ensures s.counter <= Last(s, run, updates).counter
    ensures |Last(s, run, updates).workers| == |s.workers|
    ensures |run| + Measure(Last(s, run, updates), updates) <= Measure(s, updates) + (WAKE_WORK + 1) * SpuriousCount(run)
    decreases |run|
  {
    if run != [] {
      StepKeepsInv(s, run[0], updates);
      StepMeasure(s, run[0], updates);
      RunKeepsInv(Step(s, run[0], updates), run[1..], updates);
    }
  }

  /** The values the counter takes in the updates of a run, in order. */
  ghost function Stored(s: State, run: seq<Action>, updates: nat): seq<nat>
    requires Legal(s, run, updates)
    decreases |run|
  {
    if run == [] then []
    else
      var next := Step(s, run[0], updates);
      (if run[0].MainStep? && s.main.Update? then [next.counter] else []) + Stored(next, run[1..], updates)
  }

  /** The counter at each broadcast of a run, in order. */
  ghost function Announced(s: State, run: seq<Action>, updates: nat): seq<nat>
    requires Legal(s, run, updates)
    decreases |run|
  {
    if run == [] then []
    else
      (if run[0].MainStep? && s.main.Broadcast? then [s.counter] else [])
      + Announced(Step(s, run[0], updates), run[1..], updates)
  }

  /** The numbers after from, up to to. */
  function Count(from: nat, to: nat): (c: seq<nat>)
    requires from <= to
    ensures |c| == to - from && forall i :: 0 <= i < |c| ==> c[i] == from + 1 + i
  {
    seq(to - from, i => from + 1 + i)
  }

  /** How many broadcasts there have been. */
  function Broadcasts(s: State): nat
    requires s.counter > 0 || !s.main.Broadcast?
  {
    if s.main.Broadcast? then s.counter - 1 else s.counter
  }

  lemma CountFirst(from: nat, to: nat)
    requires from < to
    ensures Count(from, to) == [from + 1] + Count(from + 1, to)
  {
  }

  /** One step stores one more than the last value, or broadcasts the value just stored, or neither. */
  lemma StepCounts(s: State, a: Action, updates: nat)
    requires Inv(s, updates) && Enabled(s, a)
    ensures var next := Step(s, a, updates);
      && next.counter == s.counter + (if a.MainStep? && s.main.Update? then 1 else 0)
      && Inv(next, updates)
      && Broadcasts(next) == Broadcasts(s) + (if a.MainStep? && s.main.Broadcast? then 1 else 0)
      && (a.MainStep? && s.main.Broadcast? ==> s.counter == Broadcasts(s) + 1)
  {
    StepKeepsInv(s, a, updates);
  }

  /** In every run the counter goes up by one with every update main makes, and no other way ... */
  lemma {:induction false} CountsUp(s: State, run: seq<Action>, updates: nat)
    requires Inv(s, updates) && Legal(s, run, updates)
    ensures s.counter <= Last(s, run, updates).counter
    ensures Stored(s, run, updates) == Count(s.counter, Last(s, run, updates).counter)
    decreases |run|
  {
    if run != [] {
      var next := Step(s, run[0], updates);
      StepCounts(s, run[0], updates);
      CountsUp(next, run[1..], updates);
      if next.counter > s.counter {
        CountFirst(s.counter, Last(s, run, updates).counter);
      }
    }
  }

  /** ... and each broadcast comes after its update and before the next. */
  lemma {:induction false} AnnouncesEach(s: State, run: seq<Action>, updates: nat)
    requires Inv(s, updates) && Legal(s, run, updates)
    ensures var t := Last(s, run, updates);
      && Inv(t, updates) && Broadcasts(s) <= Broadcasts(t)
      && Announced(s, run, updates) == Count(Broadcasts(s), Broadcasts(t))
    decreases |run|
  {
    if run != [] {
      var next := Step(s, run[0], updates);
      StepCounts(s, run[0], updates);
      AnnouncesEach(next, run[1..], updates);
      if Broadcasts(next) > Broadcasts(s) {
        CountFirst(Broadcasts(s), Broadcasts(Last(s, run, updates)));
      }
    }
  }

  /** A run in which main finishes stores 1, 2, ... up to the number of updates, and broadcasts as often,
      each time with the value just stored. */
  lemma EveryUpdateAnnounced(threads: nat, updates: nat, run: seq<Action>)
    requires Legal(Init(threads), run, updates) && Finished(Last(Init(threads), run, updates))
    ensures Stored(Init(threads), run, updates) == Count(0, updates)
    ensures Announced(Init(threads), run, updates) == Count(0, updates)
  {
    InitInv(threads, updates);
    CountsUp(Init(threads), run, updates);
    AnnouncesEach(Init(threads), run, updates);
  }

  /** For any number of threads and updates: in every run no worker is asleep once the counter has
      reached its last value and main has broadcast it, and every worker that has exited has seen
      that value; every run without endless spurious wake-ups is finite; and a run that can only
      be continued by a spurious wake-up, or not at all, has main done and every worker exited. */
  lemma EveryoneGetsThrough(threads: nat, updates: nat, run: seq<Action>)
    requires Legal(Init(threads), run, updates)
    ensures var t := Last(Init(threads), run, updates);
      && |t.workers| == threads && t.counter <= updates
      && (forall i :: 0 <= i < threads ==>
            (t.counter == updates && !t.main.Broadcast? ==> !t.workers[i].Asleep?)
            && (t.workers[i].Exited? ==> t.counter == updates))
      && |run| <= UpdatesWork(updates, threads) + 1 + 5 * threads + (WAKE_WORK + 1) * SpuriousCount(run)
      && ((forall a :: Enabled(t, a) ==> a.Spurious?) ==>
            Finished(t) && t.counter == updates && forall i :: 0 <= i < threads ==> t.workers[i].Exited?)
  {
    InitInv(threads, updates);
    InitWork(threads);
    RunKeepsInv(Init(threads), run, updates);
    var t := Last(Init(threads), run, updates);
    forall i | 0 <= i < threads
      ensures t.counter == updates && !t.main.Broadcast? ==> !t.workers[i].Asleep?
      ensures t.workers[i].Exited? ==> t.counter == updates
    {
      NobodyLeftAsleep(t, updates, i);
    }
    if !Finished(t) {
      Progress(t, updates);
    }
  }

  lemma {:induction false} InitWork(threads: nat)
    ensures AllWork(seq(threads, _ => NotCreated)) == 5 * threads
  {
    if threads > 0 {
      InitWork(threads - 1);
      assert seq(threads, _ => NotCreated)[1..] == seq(threads - 1, _ => NotCreated);
    }
  }
}
