/**
 * Workers count up to a limit under a mutex while the main thread waits on a condition variable.
 * Any number of workers, any limit, any interleaving, spurious wake-ups included.
 */
module ConditionVariable {
  import opened Bytes

  /** Where a worker is. It holds the mutex from `Testing` up to either unlock. */
  datatype Worker =
    | Unborn | Locking | Testing | Loading | Storing(loaded: nat) | Unlocking | UnlockingLast | Signalling | Exited

  /** Where the main thread is. `Waiting` is the wait queue; `Waking` has left it but lacks the mutex. */
  datatype Main =
    | Creating(next: nat) | LockingFirst | TestingLimit | Waiting | Waking
    | UnlockingMain | Joining(next: nat) | Finished

  datatype Holder = Nobody | MainThread | WorkerThread(id: nat)

  /** `increments` counts the stores that finished an increment. */
  datatype State = State(counter: nat, holder: Holder, workers: seq<Worker>, main: Main, increments: nat)

  datatype Action = MainStep | WorkerStep(id: nat) | SpuriousWakeUp

  function Init(n: nat): State {
    State(0, Nobody, seq(n, _ => Unborn), Creating(0), 0)
  }

  /** One step; `None` when the thread has to wait. */
  function Fire(s: State, a: Action, limit: nat): Option<State> {
    match a
    case MainStep => FireMain(s, limit)
    case WorkerStep(i) => if i < |s.workers| then FireWorker(s, i, limit) else None
    case SpuriousWakeUp => if s.main.Waiting? then Some(s.(main := Waking)) else None
  }

  function FireMain(s: State, limit: nat): Option<State> {
    var n := |s.workers|;
    match s.main
    case Creating(i) =>
      if i < n then Some(s.(workers := s.workers[i := Locking], main := Creating(i + 1)))
      else Some(s.(main := LockingFirst))
    case LockingFirst => if s.holder.Nobody? then Some(s.(holder := MainThread, main := TestingLimit)) else None
    case TestingLimit =>
      if s.counter < limit then Some(s.(holder := Nobody, main := Waiting)) else Some(s.(main := UnlockingMain))
    case Waiting => None
    case Waking => if s.holder.Nobody? then Some(s.(holder := MainThread, main := TestingLimit)) else None
    case UnlockingMain => Some(s.(holder := Nobody, main := Joining(0)))
    case Joining(i) =>
      if i >= n then Some(s.(main := Finished))
      else if s.workers[i].Exited? then Some(s.(main := Joining(i + 1)))
      else None
    case Finished => None
  }

  function FireWorker(s: State, i: nat, limit: nat): Option<State>
    requires i < |s.workers|
  {
    match s.workers[i]
    case Unborn => None
    case Locking => if s.holder.Nobody? then Some(Move(s, i, Testing).(holder := WorkerThread(i))) else None
    case Testing => Some(Move(s, i, if s.counter == limit then UnlockingLast else Loading))
    case Loading => Some(Move(s, i, Storing(s.counter)))
    case Storing(x) => Some(Move(s, i, Unlocking).(counter := x + 1, increments := s.increments + 1))
    case Unlocking => Some(Move(s, i, Locking).(holder := Nobody))
    case UnlockingLast => Some(Move(s, i, Signalling).(holder := Nobody))
    case Signalling => Some(Move(s, i, Exited).(main := if s.main.Waiting? then Waking else s.main))
    case Exited => None
  }

  function Move(s: State, i: nat, w: Worker): State
    requires i < |s.workers|
  {
    s.(workers := s.workers[i := w])
  }

  /** The state after a run, if every step of it can be taken. */
  function After(s: State, run: seq<Action>, limit: nat): Option<State>
    decreases |run|
  {
    if run == [] then Some(s)
    else
      match After(s, run[..|run| - 1], limit)
      case None => None
      case Some(t) => Fire(t, run[|run| - 1], limit)
  }

  // ---------------------------------------------------------------- the invariant

  predicate Holds(w: Worker) {
    w.Testing? || w.Loading? || w.Storing? || w.Unlocking? || w.UnlockingLast?
  }

  predicate MainHolds(m: Main) {
    m.TestingLimit? || m.UnlockingMain?
  }

  /** The main thread has left its loop. */
  predicate PastLoop(m: Main) {
    m.UnlockingMain? || m.Joining? || m.Finished?
  }

  /** The worker has seen the limit. */
  predicate Leaving(w: Worker) {
    w.UnlockingLast? || w.Signalling? || w.Exited?
  }

  predicate WorkerOk(s: State, i: nat, limit: nat)
    requires i < |s.workers|
  {
    var w := s.workers[i];
    && (Holds(w) <==> s.holder == WorkerThread(i))
    && (w.Loading? ==> s.counter < limit)
    && (w.Storing? ==> w.loaded == s.counter < limit)
    && (Leaving(w) ==> s.counter == limit)
    && (w.Unborn? <==> s.main.Creating? && s.main.next <= i)
    && (w.Exited? ==> !s.main.Waiting?)
    && (s.main.Finished? || (s.main.Joining? && i < s.main.next) ==> w.Exited?)
  }

  predicate Inv(s: State, limit: nat) {
    && s.counter == s.increments <= limit
    && (MainHolds(s.main) <==> s.holder == MainThread)
    && (s.holder.WorkerThread? ==> s.holder.id < |s.workers|)
    && (PastLoop(s.main) ==> s.counter == limit)
    && (s.main.Creating? || s.main.Joining? ==> s.main.next <= |s.workers|)
    && forall i | 0 <= i < |s.workers| :: WorkerOk(s, i, limit)
  }

  lemma InitInv(n: nat, limit: nat)
    ensures Inv(Init(n), limit)
  {
  }

  lemma MainKeepsInv(s: State, limit: nat)
    requires Inv(s, limit) && FireMain(s, limit).Some?
    ensures Inv(FireMain(s, limit).value, limit)
  {
    var s' := FireMain(s, limit).value;
    forall j | 0 <= j < |s'.workers| ensures WorkerOk(s', j, limit) {
      assert WorkerOk(s, j, limit);
    }
  }

  lemma WorkerKeepsInv(s: State, i: nat, limit: nat)
    requires Inv(s, limit) && i < |s.workers| && FireWorker(s, i, limit).Some?
    ensures Inv(FireWorker(s, i, limit).value, limit)
  {
    var s' := FireWorker(s, i, limit).value;
    assert WorkerOk(s, i, limit);
    forall j | 0 <= j < |s'.workers| ensures WorkerOk(s', j, limit) {
      assert WorkerOk(s, j, limit);
    }
  }

  lemma StepKeepsInv(s: State, a: Action, limit: nat)
    requires Inv(s, limit) && Fire(s, a, limit).Some?
    ensures Inv(Fire(s, a, limit).value, limit)
  {
    match a
    case MainStep => MainKeepsInv(s, limit);
    case WorkerStep(i) => WorkerKeepsInv(s, i, limit);
    case SpuriousWakeUp =>
      var s' := Fire(s, a, limit).value;
      forall j | 0 <= j < |s'.workers| ensures WorkerOk(s', j, limit) {
        assert WorkerOk(s, j, limit);
      }
  }

  lemma {:induction false} RunKeepsInv(n: nat, run: seq<Action>, limit: nat)
    requires After(Init(n), run, limit).Some?
    ensures Inv(After(Init(n), run, limit).value, limit) && |After(Init(n), run, limit).value.workers| == n
  {
    hide Inv, Fire;
    if run == [] {
      InitInv(n, limit);
    } else {
      var before := run[..|run| - 1];
      RunKeepsInv(n, before, limit);
      StepKeepsInv(After(Init(n), before, limit).value, run[|run| - 1], limit);
      StepKeepsThreads(After(Init(n), before, limit).value, run[|run| - 1], limit);
    }
  }

  lemma StepKeepsThreads(s: State, a: Action, limit: nat)
    requires Fire(s, a, limit).Some?
    ensures |Fire(s, a, limit).value.workers| == |s.workers|
  {
  }

  // ---------------------------------------------------------------- safety over runs

  /**
   * The counter is the number of increments and within the limit; at most one thread is inside a
   * critical section; the main thread is not waiting once a worker has signalled; and the main
   * thread is past its loop only with the counter at the limit, and done only after every worker.
   */
  predicate Safe(s: State, limit: nat) {
    && s.counter == s.increments <= limit
    && (forall i, j | 0 <= i < j < |s.workers| :: !(Holds(s.workers[i]) && Holds(s.workers[j])))
    && (forall i | 0 <= i < |s.workers| :: Holds(s.workers[i]) ==> !MainHolds(s.main))
    && (forall i | 0 <= i < |s.workers| :: s.workers[i].Exited? ==> !s.main.Waiting?)
    && (PastLoop(s.main) ==> s.counter == limit)
    && (s.main.Finished? ==> forall i | 0 <= i < |s.workers| :: s.workers[i].Exited?)
  }

  /** Every state of every run is safe. */
  lemma SafeOverRuns(n: nat, run: seq<Action>, limit: nat)
    requires After(Init(n), run, limit).Some?
    ensures Safe(After(Init(n), run, limit).value, limit) && |After(Init(n), run, limit).value.workers| == n
  {
    RunKeepsInv(n, run, limit);
    InvIsSafe(After(Init(n), run, limit).value, limit);
  }

  lemma InvIsSafe(s: State, limit: nat)
    requires Inv(s, limit)
    ensures Safe(s, limit)
  {
    assert forall i | 0 <= i < |s.workers| :: WorkerOk(s, i, limit);
    forall i, j | 0 <= i < j < |s.workers| ensures !(Holds(s.workers[i]) && Holds(s.workers[j])) {
      assert WorkerOk(s, i, limit) && WorkerOk(s, j, limit);
    }
    forall i | 0 <= i < |s.workers|
      ensures Holds(s.workers[i]) ==> !MainHolds(s.main)
      ensures s.workers[i].Exited? ==> !s.main.Waiting?
      ensures s.main.Finished? ==> s.workers[i].Exited?
    {
      assert WorkerOk(s, i, limit);
    }
  }

  // ---------------------------------------------------------------- progress

  predicate CanMove(s: State, limit: nat) {
    Fire(s, MainStep, limit).Some? || exists i | 0 <= i < |s.workers| :: Fire(s, WorkerStep(i), limit).Some?
  }

  /** No state but the last is stuck, without any help from spurious wake-ups, if there is a worker. */
  lemma SomethingMoves(s: State, limit: nat)
    requires Inv(s, limit) && !s.main.Finished? && |s.workers| > 0
    ensures CanMove(s, limit)
  {
    if s.holder.WorkerThread? {
      assert WorkerOk(s, s.holder.id, limit);
      assert Fire(s, WorkerStep(s.holder.id), limit).Some?;
    } else if i: nat :| i < |s.workers| && (s.workers[i].Locking? || s.workers[i].Signalling?) && s.holder.Nobody? {
      assert Fire(s, WorkerStep(i), limit).Some?;
    } else if s.holder.Nobody? {
      forall i | 0 <= i < |s.workers| ensures s.workers[i].Unborn? || s.workers[i].Exited? {
        assert WorkerOk(s, i, limit);
      }
      assert WorkerOk(s, 0, limit);
      assert s.main.Joining? && s.main.next < |s.workers| ==> WorkerOk(s, s.main.next, limit);
    }
  }

  /** Nobody wakes the main thread when there is no worker; the two cases are all there is. */
  lemma StuckOnlyWithoutWorkers(n: nat, limit: nat)
    ensures (exists run :: After(Init(n), run, limit).Some? && Stuck(After(Init(n), run, limit).value, limit))
            <==> n == 0 && limit > 0
  {
    if n == 0 && limit > 0 {
      WaitsForever(limit);
    }
    forall run | After(Init(n), run, limit).Some? && (n > 0 || limit == 0)
      ensures !Stuck(After(Init(n), run, limit).value, limit)
    {
      RunKeepsInv(n, run, limit);
      var s := After(Init(n), run, limit).value;
      if n > 0 && !s.main.Finished? {
        SomethingMoves(s, limit);
      } else if !s.main.Finished? {
        NeverWaitsForNothing(run, limit);
      }
    }
  }

  predicate Stuck(s: State, limit: nat) {
    !s.main.Finished? && !CanMove(s, limit)
  }

  lemma WaitsForever(limit: nat)
    requires limit > 0
    ensures exists run :: After(Init(0), run, limit).Some? && Stuck(After(Init(0), run, limit).value, limit)
  {
    var s0 := Init(0);
    var s1 := s0.(main := LockingFirst);
    var s2 := s1.(holder := MainThread, main := TestingLimit);
    var s3 := s2.(holder := Nobody, main := Waiting);
    var r1, r2, r3 := [MainStep], [MainStep, MainStep], [MainStep, MainStep, MainStep];
    assert r1[..0] == [] && r2[..1] == r1 && r3[..2] == r2;
    assert After(s0, r1, limit) == Some(s1);
    assert After(s0, r2, limit) == Some(s2);
    assert After(s0, r3, limit) == Some(s3);
    assert Stuck(s3, limit);
  }

  /** Without workers and without anything to wait for, main never blocks. */
  lemma {:induction false} NeverWaitsForNothing(run: seq<Action>, limit: nat)
    requires limit == 0 && After(Init(0), run, limit).Some?
    ensures !Stuck(After(Init(0), run, limit).value, limit)
  {
    RunKeepsInv(0, run, limit);
    var s := After(Init(0), run, limit).value;
    NotInQueue(run);
    assert s.workers == [];
  }

  lemma {:induction false} NotInQueue(run: seq<Action>)
    requires After(Init(0), run, 0).Some?
    ensures !After(Init(0), run, 0).value.main.Waiting?
  {
    if run != [] {
      NotInQueue(run[..|run| - 1]);
      RunKeepsInv(0, run[..|run| - 1], 0);
    }
  }

  // ---------------------------------------------------------------- termination

  function WorkerRank(w: Worker): nat {
    match w
    case Unborn => 7
    case Locking => 6
    case Testing => 5
    case Loading => 4
    case Storing(_) => 3
    case Unlocking => 7
    case UnlockingLast => 4
    case Signalling => 3
    case Exited => 0
  }

  function MainRank(m: Main, n: nat): nat {
    match m
    case Creating(i) => if i <= n then 2 * n + 6 - i else 0
    case LockingFirst => n + 5
    case TestingLimit => n + 4
    case Waiting => n + 3
    case Waking => n + 5
    case UnlockingMain => n + 3
    case Joining(i) => if i <= n then n + 2 - i else 0
    case Finished => 0
  }

  function Ranks(ws: seq<Worker>): nat {
    if ws == [] then 0 else Ranks(ws[..|ws| - 1]) + WorkerRank(ws[|ws| - 1])
  }

  lemma {:induction false} RanksUpdate(ws: seq<Worker>, i: nat, w: Worker)
    requires i < |ws|
    ensures Ranks(ws[i := w]) == Ranks(ws) - WorkerRank(ws[i]) + WorkerRank(w)
  {
    var last := |ws| - 1;
    if i == last {
      assert ws[i := w][..last] == ws[..last];
    } else {
      assert ws[i := w][..last] == ws[..last][i := w];
      RanksUpdate(ws[..last], i, w);
    }
  }

  function Measure(s: State, limit: nat): int {
    5 * (limit - s.counter) + Ranks(s.workers) + MainRank(s.main, |s.workers|)
  }

  /** Every step but a spurious wake-up makes the measure smaller; a spurious wake-up adds 2. */
  lemma StepDecreases(s: State, a: Action, limit: nat)
    requires Inv(s, limit) && Fire(s, a, limit).Some?
    ensures var s' := Fire(s, a, limit).value;
            if a.SpuriousWakeUp? then Measure(s', limit) == Measure(s, limit) + 2
            else Measure(s', limit) < Measure(s, limit)
  {
    hide Ranks;
    match a
    case MainStep =>
      if s.main.Creating? && s.main.next < |s.workers| {
        assert WorkerOk(s, s.main.next, limit);
        RanksUpdate(s.workers, s.main.next, Locking);
      }
    case WorkerStep(i) =>
      assert WorkerOk(s, i, limit);
      RanksUpdate(s.workers, i, Fire(s, a, limit).value.workers[i]);
    case SpuriousWakeUp =>
  }

  function SpuriousIn(run: seq<Action>): nat {
    if run == [] then 0
    else SpuriousIn(run[..|run| - 1]) + if run[|run| - 1].SpuriousWakeUp? then 1 else 0
  }

  /** A run with finitely many spurious wake-ups is finite: its length is bounded. */
  lemma {:induction false} RunsAreBounded(n: nat, run: seq<Action>, limit: nat)
    requires After(Init(n), run, limit).Some?
    ensures |run| + Measure(After(Init(n), run, limit).value, limit) <= 5 * limit + 9 * n + 6 + 3 * SpuriousIn(run)
    ensures |run| <= 5 * limit + 9 * n + 6 + 3 * SpuriousIn(run)
  {
    hide Inv, Fire, Measure;
    RunKeepsInv(n, run, limit);
    MeasureIsNatural(After(Init(n), run, limit).value, limit);
    if run == [] {
      InitMeasure(n, limit);
    } else {
      var before := run[..|run| - 1];
      RunsAreBounded(n, before, limit);
      RunKeepsInv(n, before, limit);
      StepDecreases(After(Init(n), before, limit).value, run[|run| - 1], limit);
    }
  }

  lemma MeasureIsNatural(s: State, limit: nat)
    requires Inv(s, limit)
    ensures Measure(s, limit) >= 0
  {
  }

  lemma {:induction false} InitMeasure(n: nat, limit: nat)
    ensures Measure(Init(n), limit) == 5 * limit + 9 * n + 6
  {
    if n > 0 {
      InitMeasure(n - 1, limit);
      assert Init(n).workers[..n - 1] == Init(n - 1).workers;
    }
  }

  /** A run that cannot be extended has brought every thread to its end and the counter to the limit. */
  lemma MaximalRunsFinish(n: nat, run: seq<Action>, limit: nat)
    requires n > 0 && After(Init(n), run, limit).Some? && !CanMove(After(Init(n), run, limit).value, limit)
    ensures var s := After(Init(n), run, limit).value;
            s.main.Finished? && s.counter == limit && forall i | 0 <= i < |s.workers| :: s.workers[i].Exited?
  {
    RunKeepsInv(n, run, limit);
    var s := After(Init(n), run, limit).value;
    assert s.main.Finished? by {
      if !s.main.Finished? {
        SomethingMoves(s, limit);
      }
    }
    InvIsSafe(s, limit);
  }
}
