/**
 * Threads that each add to a shared counter and to a counter of their own, with and without a mutex
 * around the shared one. Adding to the shared counter is a load and a store.
 */
module SharedCounter {
  import opened Bytes

  datatype Pc = Head | Loading | Storing(loaded: nat) | Unlocking | Private | Done

  /** A thread: where it is, its loop variable and its own counter. */
  datatype Thread = Thread(pc: Pc, i: nat, own: nat)

  /** `last` is the thread that stored last. */
  datatype State = State(counter: nat, holder: Option<nat>, threads: seq<Thread>, last: nat)

  function Init(n: nat): State {
    State(0, None, seq(n, _ => Thread(Head, 0, 0)), 0)
  }

  /** One step of thread `t`, compiled with or without the mutex; `None` when it has to wait or is done. */
  function Fire(s: State, t: nat, mutex: bool, rounds: nat): Option<State> {
    if t >= |s.threads| then None
    else
      var me := s.threads[t];
      match me.pc
      case Head =>
        if me.i >= rounds then Some(Set(s, t, me.(pc := Done)))
        else if !mutex then Some(Set(s, t, me.(pc := Loading)))
        else if s.holder.Some? then None
        else Some(Set(s, t, me.(pc := Loading)).(holder := Some(t)))
      case Loading => Some(Set(s, t, me.(pc := Storing(s.counter))))
      case Storing(x) =>
        Some(Set(s, t, me.(pc := if mutex then Unlocking else Private)).(counter := x + 1, last := t))
      case Unlocking => Some(Set(s, t, me.(pc := Private)).(holder := None))
      case Private => Some(Set(s, t, Thread(Head, me.i + 1, me.own + 1)))
      case Done => None
  }

  function Set(s: State, t: nat, th: Thread): State
    requires t < |s.threads|
  {
    s.(threads := s.threads[t := th])
  }

  /** The state after the threads have stepped in the given order. */
  function After(s: State, run: seq<nat>, mutex: bool, rounds: nat): Option<State>
    decreases |run|
  {
    if run == [] then Some(s)
    else
      match After(s, run[..|run| - 1], mutex, rounds)
      case None => None
      case Some(u) => Fire(u, run[|run| - 1], mutex, rounds)
  }

  predicate AllDone(s: State) {
    forall t | 0 <= t < |s.threads| :: s.threads[t].pc.Done?
  }

  /** Between the shared increment and the thread's own one. */
  predicate Between(th: Thread) {
    th.pc.Unlocking? || th.pc.Private?
  }

  /** How often the thread has stored. */
  function Stored(th: Thread): nat {
    th.i + if Between(th) then 1 else 0
  }

  function SumStored(ths: seq<Thread>): nat {
    if ths == [] then 0 else SumStored(ths[..|ths| - 1]) + Stored(ths[|ths| - 1])
  }

  function SumOwn(ths: seq<Thread>): nat {
    if ths == [] then 0 else SumOwn(ths[..|ths| - 1]) + ths[|ths| - 1].own
  }

  function CountBetween(ths: seq<Thread>): nat {
    if ths == [] then 0 else CountBetween(ths[..|ths| - 1]) + if Between(ths[|ths| - 1]) then 1 else 0
  }

  lemma {:induction false} SumUpdate(ths: seq<Thread>, t: nat, th: Thread)
    requires t < |ths|
    ensures SumStored(ths[t := th]) == SumStored(ths) - Stored(ths[t]) + Stored(th)
    ensures Stored(ths[t]) <= SumStored(ths)
  {
    var n := |ths| - 1;
    if t == n {
      assert ths[t := th][..n] == ths[..n];
    } else {
      assert ths[t := th][..n] == ths[..n][t := th];
      SumUpdate(ths[..n], t, th);
    }
  }

  lemma {:induction false} SumSplits(ths: seq<Thread>)
    requires forall t | 0 <= t < |ths| :: ths[t].own == ths[t].i
    ensures SumStored(ths) == SumOwn(ths) + CountBetween(ths)
  {
    if ths != [] {
      SumSplits(ths[..|ths| - 1]);
    }
  }

  // ---------------------------------------------------------------- invariants

  /** What holds with and without the mutex. */
  predicate Ok(s: State, t: nat, rounds: nat)
    requires t < |s.threads|
  {
    var th := s.threads[t];
    && th.own == th.i <= rounds
    && (th.pc.Done? ==> th.i == rounds)
    && (!th.pc.Head? && !th.pc.Done? ==> th.i < rounds)
    && (th.pc.Storing? ==> th.pc.loaded <= SumStored(s.threads))
    && (th.pc.Storing? && th.i > 0 ==> th.pc.loaded > 0)
    && (Stored(th) > 0 ==> s.counter > 0)
  }

  predicate Inv(s: State, rounds: nat) {
    && s.counter <= SumStored(s.threads)
    && (forall t | 0 <= t < |s.threads| :: Ok(s, t, rounds))
    && (SumStored(s.threads) > 0 ==> s.last < |s.threads|)
    && (s.last < |s.threads| && Stored(s.threads[s.last]) > 1 ==> s.counter > 1)
  }

  /** With the mutex, only its holder is between its load and its store. */
  predicate Guarded(s: State, t: nat)
    requires t < |s.threads|
  {
    var pc := s.threads[t].pc;
    && (pc.Loading? || pc.Storing? || pc.Unlocking? <==> s.holder == Some(t))
    && (pc.Storing? ==> pc.loaded == s.counter)
  }

  predicate MutexInv(s: State) {
    && s.counter == SumStored(s.threads)
    && (s.holder.Some? ==> s.holder.value < |s.threads|)
    && forall t | 0 <= t < |s.threads| :: Guarded(s, t)
  }

  lemma {:induction false} InitSums(n: nat)
    ensures SumStored(Init(n).threads) == 0
  {
    if n > 0 {
      InitSums(n - 1);
      assert Init(n).threads[..n - 1] == Init(n - 1).threads;
    }
  }

  lemma StepKeepsInv(s: State, t: nat, mutex: bool, rounds: nat)
    requires Inv(s, rounds) && Fire(s, t, mutex, rounds).Some?
    ensures Inv(Fire(s, t, mutex, rounds).value, rounds)
  {
    hide SumStored;
    var s' := Fire(s, t, mutex, rounds).value;
    assert Ok(s, t, rounds);
    SumUpdate(s.threads, t, s'.threads[t]);
    forall u | 0 <= u < |s'.threads| ensures Ok(s', u, rounds) {
      assert Ok(s, u, rounds);
    }
  }

  lemma StepKeepsMutexInv(s: State, t: nat, rounds: nat)
    requires MutexInv(s) && Fire(s, t, true, rounds).Some?
    ensures MutexInv(Fire(s, t, true, rounds).value)
  {
    hide SumStored;
    var s' := Fire(s, t, true, rounds).value;
    assert Guarded(s, t);
    SumUpdate(s.threads, t, s'.threads[t]);
    forall u | 0 <= u < |s'.threads| ensures Guarded(s', u) {
      assert Guarded(s, u);
    }
  }

  lemma {:induction false} RunKeepsInv(n: nat, run: seq<nat>, mutex: bool, rounds: nat)
    requires After(Init(n), run, mutex, rounds).Some?
    ensures var s := After(Init(n), run, mutex, rounds).value;
            Inv(s, rounds) && (mutex ==> MutexInv(s)) && |s.threads| == n
  {
    hide Inv, MutexInv, Fire;
    if run == [] {
      InitInv(n, rounds);
    } else {
      var before, t := run[..|run| - 1], run[|run| - 1];
      RunKeepsInv(n, before, mutex, rounds);
      var s := After(Init(n), before, mutex, rounds).value;
      StepKeepsInv(s, t, mutex, rounds);
      StepKeepsThreads(s, t, mutex, rounds);
      if mutex {
        StepKeepsMutexInv(s, t, rounds);
      }
    }
  }

  lemma InitInv(n: nat, rounds: nat)
    ensures Inv(Init(n), rounds) && MutexInv(Init(n))
  {
    hide SumStored;
    InitSums(n);
  }

  lemma StepKeepsThreads(s: State, t: nat, mutex: bool, rounds: nat)
    requires Fire(s, t, mutex, rounds).Some?
    ensures |Fire(s, t, mutex, rounds).value.threads| == |s.threads|
  {
  }

  // ---------------------------------------------------------------- what the program prints

  lemma {:induction false} SumAtEnd(ths: seq<Thread>, rounds: nat)
    requires forall t | 0 <= t < |ths| :: Stored(ths[t]) == rounds
    ensures SumStored(ths) == |ths| * rounds
  {
    if ths != [] {
      SumAtEnd(ths[..|ths| - 1], rounds);
    }
  }

  lemma EndState(s: State, rounds: nat)
    requires Inv(s, rounds) && AllDone(s)
    ensures forall t | 0 <= t < |s.threads| :: s.threads[t].own == Stored(s.threads[t]) == rounds
    ensures SumStored(s.threads) == |s.threads| * rounds
  {
    forall t | 0 <= t < |s.threads| ensures s.threads[t].own == Stored(s.threads[t]) == rounds {
      assert Ok(s, t, rounds);
    }
    SumAtEnd(s.threads, rounds);
  }

  /**
   * With the mutex, in every state of every run the shared counter is the sum of the threads' own
   * counters plus the threads between their two increments, so no increment is missed at the end.
   */
  lemma CounterIsExact(n: nat, run: seq<nat>, rounds: nat)
    requires After(Init(n), run, true, rounds).Some?
    ensures var s := After(Init(n), run, true, rounds).value;
            && s.counter == SumOwn(s.threads) + CountBetween(s.threads)
            && (AllDone(s) ==> s.counter == n * rounds)
  {
    hide SumStored, SumOwn, CountBetween;
    RunKeepsInv(n, run, true, rounds);
    var s := After(Init(n), run, true, rounds).value;
    forall t | 0 <= t < |s.threads| ensures s.threads[t].own == s.threads[t].i {
      assert Ok(s, t, rounds);
    }
    SumSplits(s.threads);
    if AllDone(s) {
      EndState(s, rounds);
    }
  }

  /** Without the mutex, increments get lost, but never all: with two rounds or more the counter ends above 1. */
  lemma CounterIsBounded(n: nat, run: seq<nat>, mutex: bool, rounds: nat)
    requires After(Init(n), run, mutex, rounds).Some? && AllDone(After(Init(n), run, mutex, rounds).value)
    ensures var s := After(Init(n), run, mutex, rounds).value;
            && s.counter <= n * rounds
            && (n > 0 && rounds > 0 ==> s.counter > 0)
            && (n > 0 && rounds > 1 ==> s.counter > 1)
            && forall t | 0 <= t < |s.threads| :: s.threads[t].own == rounds
  {
    hide SumStored;
    RunKeepsInv(n, run, mutex, rounds);
    var s := After(Init(n), run, mutex, rounds).value;
    EndState(s, rounds);
    if n > 0 && rounds > 0 {
      assert Ok(s, 0, rounds);
      assert n * rounds > 0;
    }
  }

  /** With the mutex, some thread can always step until all are done. */
  lemma SomethingMoves(n: nat, run: seq<nat>, rounds: nat)
    requires After(Init(n), run, true, rounds).Some? && !AllDone(After(Init(n), run, true, rounds).value)
    ensures exists t | 0 <= t < n :: Fire(After(Init(n), run, true, rounds).value, t, true, rounds).Some?
  {
    RunKeepsInv(n, run, true, rounds);
    var s := After(Init(n), run, true, rounds).value;
    if s.holder.Some? {
      assert Guarded(s, s.holder.value);
      assert Fire(s, s.holder.value, true, rounds).Some?;
    } else {
      var t: nat :| t < n && !s.threads[t].pc.Done?;
      assert Guarded(s, t);
      assert Fire(s, t, true, rounds).Some?;
    }
  }

  // ---------------------------------------------------------------- the bounds are attained

  /** A run without the mutex leads from `s` to `u`. */
  ghost predicate Reaches(s: State, u: State, rounds: nat) {
    exists run :: After(s, run, false, rounds) == Some(u)
  }

  lemma {:induction false} AfterBoth(s: State, r: seq<nat>, q: seq<nat>, rounds: nat)
    requires After(s, r, false, rounds).Some?
    ensures After(s, r + q, false, rounds) == After(After(s, r, false, rounds).value, q, false, rounds)
  {
    hide Fire;
    if q == [] {
      assert r + q == r;
    } else {
      assert (r + q)[..|r + q| - 1] == r + q[..|q| - 1];
      AfterBoth(s, r, q[..|q| - 1], rounds);
    }
  }

  lemma Chained(s: State, u: State, v: State, rounds: nat)
    requires Reaches(s, u, rounds) && Reaches(u, v, rounds)
    ensures Reaches(s, v, rounds)
  {
    hide After;
    var r :| After(s, r, false, rounds) == Some(u);
    var q :| After(u, q, false, rounds) == Some(v);
    AfterBoth(s, r, q, rounds);
    assert After(s, r + q, false, rounds) == Some(v);
  }

  lemma Step(s: State, u: State, t: nat, v: State, rounds: nat)
    requires Reaches(s, u, rounds) && Fire(u, t, false, rounds) == Some(v)
    ensures Reaches(s, v, rounds)
  {
    hide Fire;
    assert [t][..0] == [];
    assert After(u, [t], false, rounds) == Some(v);
    Chained(s, u, v, rounds);
  }

  lemma Here(s: State, rounds: nat)
    ensures Reaches(s, s, rounds)
  {
    assert After(s, [], false, rounds) == Some(s);
  }

  /** Thread `t` goes `m` rounds without being interrupted. */
  lemma {:induction false} Solo(s: State, t: nat, m: nat, rounds: nat) returns (u: State)
    requires t < |s.threads| && s.threads[t].pc.Head? && s.threads[t].i + m <= rounds
    ensures Reaches(s, u, rounds) && u.counter == s.counter + m
    ensures u.threads == s.threads[t := Thread(Head, s.threads[t].i + m, s.threads[t].own + m)]
  {
    hide Reaches;
    Here(s, rounds);
    u := s;
    if m > 0 {
      u := Solo(s, t, m - 1, rounds);
      var a := Fire(u, t, false, rounds).value;
      Step(s, u, t, a, rounds);
      var b := Fire(a, t, false, rounds).value;
      Step(s, a, t, b, rounds);
      var c := Fire(b, t, false, rounds).value;
      Step(s, b, t, c, rounds);
      u := Fire(c, t, false, rounds).value;
      Step(s, c, t, u, rounds);
    }
  }

  /** The rounds that the threads from `t` on still have to go. */
  function Remaining(ths: seq<Thread>, t: nat, rounds: nat): int
    requires t <= |ths|
    decreases |ths| - t
  {
    if t == |ths| then 0 else rounds - ths[t].i + Remaining(ths, t + 1, rounds)
  }

  lemma {:induction false} RemainingDepends(a: seq<Thread>, b: seq<Thread>, t: nat, rounds: nat)
    requires t <= |a| == |b| && forall k | t <= k < |a| :: a[k] == b[k]
    ensures Remaining(a, t, rounds) == Remaining(b, t, rounds)
    decreases |a| - t
  {
    if t < |a| {
      RemainingDepends(a, b, t + 1, rounds);
    }
  }

  lemma {:induction false} RemainingAtStart(ths: seq<Thread>, t: nat, rounds: nat)
    requires t <= |ths| && forall k | t <= k < |ths| :: ths[k] == Thread(Head, 0, 0)
    ensures Remaining(ths, t, rounds) == (|ths| - t) * rounds
    decreases |ths| - t
  {
    if t < |ths| {
      RemainingAtStart(ths, t + 1, rounds);
      assert (|ths| - t) * rounds == rounds + (|ths| - (t + 1)) * rounds;
    }
  }

  /** The threads from `t` on are at the head of their loops. */
  predicate AtHead(ths: seq<Thread>, t: nat, rounds: nat) {
    forall k | t <= k < |ths| :: ths[k].pc.Head? && ths[k].i <= rounds
  }

  lemma {:induction false} RemainingIsNat(ths: seq<Thread>, t: nat, rounds: nat)
    requires t <= |ths| && AtHead(ths, t, rounds)
    ensures Remaining(ths, t, rounds) >= 0
    decreases |ths| - t
  {
    if t < |ths| {
      RemainingIsNat(ths, t + 1, rounds);
    }
  }

  /** The threads from `t` on go `x` rounds together, one thread after the other. */
  lemma {:induction false} GoSome(s: State, t: nat, x: nat, rounds: nat) returns (u: State)
    requires t <= |s.threads| && AtHead(s.threads, t, rounds) && x <= Remaining(s.threads, t, rounds)
    ensures Reaches(s, u, rounds) && u.counter == s.counter + x && |u.threads| == |s.threads|
    ensures AtHead(u.threads, t, rounds) && Remaining(u.threads, t, rounds) == Remaining(s.threads, t, rounds) - x
    ensures forall k | 0 <= k < t :: u.threads[k] == s.threads[k]
    decreases |s.threads| - t
  {
    hide Reaches;
    Here(s, rounds);
    u := s;
    if t < |s.threads| {
      var mine := rounds - s.threads[t].i;
      var m := if x <= mine then x else mine;
      var v := Solo(s, t, m, rounds);
      RemainingDepends(v.threads, s.threads, t + 1, rounds);
      RemainingIsNat(s.threads, t + 1, rounds);
      u := GoSome(v, t + 1, x - m, rounds);
      Chained(s, v, u, rounds);
    }
  }

  /** The threads from `t` on run to their ends, one after the other. */
  lemma {:induction false} AllToEnd(s: State, t: nat, rounds: nat) returns (u: State)
    requires t <= |s.threads| && AtHead(s.threads, t, rounds)
    ensures Reaches(s, u, rounds) && u.counter == s.counter + Remaining(s.threads, t, rounds)
    ensures |u.threads| == |s.threads| && forall k | t <= k < |s.threads| :: u.threads[k].pc.Done?
    ensures forall k | 0 <= k < t :: u.threads[k] == s.threads[k]
    decreases |s.threads| - t
  {
    hide Reaches;
    Here(s, rounds);
    u := s;
    if t < |s.threads| {
      var v := Solo(s, t, rounds - s.threads[t].i, rounds);
      var w := Fire(v, t, false, rounds).value;
      Step(s, v, t, w, rounds);
      RemainingDepends(w.threads, s.threads, t + 1, rounds);
      u := AllToEnd(w, t + 1, rounds);
      Chained(s, w, u, rounds);
    }
  }

  /** Thread `t` has loaded and is about to store. */
  lemma LoadFirst(s0: State, s: State, t: nat, rounds: nat) returns (u: State)
    requires Reaches(s0, s, rounds) && t < |s.threads| && s.threads[t].pc.Head? && s.threads[t].i < rounds
    ensures Reaches(s0, u, rounds) && u.counter == s.counter
    ensures u.threads == s.threads[t := s.threads[t].(pc := Storing(s.counter))]
  {
    hide Reaches;
    var a := Fire(s, t, false, rounds).value;
    Step(s0, s, t, a, rounds);
    u := Fire(a, t, false, rounds).value;
    Step(s0, a, t, u, rounds);
  }

  /** Thread `t` stores what it once loaded, and ends its round. */
  lemma StoreLate(s0: State, s: State, t: nat, rounds: nat) returns (u: State)
    requires Reaches(s0, s, rounds) && t < |s.threads| && s.threads[t].pc.Storing?
    ensures Reaches(s0, u, rounds) && u.counter == s.threads[t].pc.loaded + 1
    ensures u.threads == s.threads[t := Thread(Head, s.threads[t].i + 1, s.threads[t].own + 1)]
  {
    hide Reaches;
    var a := Fire(s, t, false, rounds).value;
    Step(s0, s, t, a, rounds);
    u := Fire(a, t, false, rounds).value;
    Step(s0, a, t, u, rounds);
  }

  /** A complete run without the mutex ends with the counter at `v`. */
  ghost predicate CanEndAt(n: nat, rounds: nat, v: nat) {
    exists s :: Reaches(Init(n), s, rounds) && AllDone(s) && s.counter == v
  }

  /** Thread 0 overwrites `x` rounds of the others with its first store. */
  lemma LoseSome(n: nat, rounds: nat, x: nat)
    requires n > 0 && rounds > 0 && x <= (n - 1) * rounds
    ensures CanEndAt(n, rounds, n * rounds - x)
  {
    hide Reaches;
    var s0 := Init(n);
    Here(s0, rounds);
    var s1 := LoadFirst(s0, s0, 0, rounds);
    RemainingAtStart(s1.threads, 1, rounds);
    var s2 := GoSome(s1, 1, x, rounds);
    Chained(s0, s1, s2, rounds);
    var s3 := StoreLate(s0, s2, 0, rounds);
    RemainingDepends(s3.threads, s2.threads, 1, rounds);
    var s4 := AllToEnd(s3, 0, rounds);
    Chained(s0, s3, s4, rounds);
    assert n * rounds == rounds + (n - 1) * rounds;
    assert s4.counter == n * rounds - x;
  }

  /**
   * Thread 0 overwrites all rounds of the others but the last one of thread 1, which overwrites `y` more
   * rounds of thread 0: what is left is 2 and the other rounds of thread 0.
   */
  lemma LoseMost(n: nat, rounds: nat, y: nat)
    requires n > 1 && rounds > 1 && y < rounds
    ensures CanEndAt(n, rounds, 1 + rounds - y)
  {
    hide Reaches;
    var s0 := Init(n);
    Here(s0, rounds);
    var s1 := LoadFirst(s0, s0, 0, rounds);
    var s2 := AllToEnd(s1, 2, rounds);
    Chained(s0, s1, s2, rounds);
    var s3 := Solo(s2, 1, rounds - 1, rounds);
    Chained(s0, s2, s3, rounds);
    var s4 := StoreLate(s0, s3, 0, rounds);
    var s5 := LoadFirst(s0, s4, 1, rounds);
    var s6 := Solo(s5, 0, y, rounds);
    Chained(s0, s5, s6, rounds);
    LoseMostEnd(n, rounds, y, s6);
  }

  lemma LoseMostEnd(n: nat, rounds: nat, y: nat, s: State)
    requires n > 1 && rounds > 1 && y < rounds && Reaches(Init(n), s, rounds) && |s.threads| == n
    requires s.threads[0] == Thread(Head, 1 + y, 1 + y)
    requires s.threads[1] == Thread(Storing(1), rounds - 1, rounds - 1)
    requires forall k | 2 <= k < n :: s.threads[k].pc.Done?
    ensures CanEndAt(n, rounds, 1 + rounds - y)
  {
    hide Reaches;
    var s0 := Init(n);
    var s1 := StoreLate(s0, s, 1, rounds);
    var s2 := Solo(s1, 0, rounds - 1 - y, rounds);
    Chained(s0, s1, s2, rounds);
    var s3 := Fire(s2, 0, false, rounds).value;
    Step(s0, s2, 0, s3, rounds);
    var s4 := Fire(s3, 1, false, rounds).value;
    Step(s0, s3, 1, s4, rounds);
    assert AllDone(s4) && s4.counter == 1 + rounds - y;
  }

  /** The least the counter can end at. */
  function Least(n: nat, rounds: nat): nat {
    if n <= 1 then n * rounds else if rounds <= 2 then rounds else 2
  }

  /** Alone, a thread loses nothing. */
  lemma {:induction false} AloneIsExact(run: seq<nat>, rounds: nat)
    requires After(Init(1), run, false, rounds).Some?
    ensures var s := After(Init(1), run, false, rounds).value;
            && |s.threads| == 1 && s.counter == Stored(s.threads[0])
            && (s.threads[0].pc.Storing? ==> s.threads[0].pc.loaded == s.counter)
  {
    if run != [] {
      AloneIsExact(run[..|run| - 1], rounds);
    }
  }

  /** Without the mutex the counter can end at exactly the values from `Least` to threads times rounds. */
  lemma FinalValues(n: nat, rounds: nat, v: nat)
    ensures CanEndAt(n, rounds, v) <==> Least(n, rounds) <= v <= n * rounds
  {
    if CanEndAt(n, rounds, v) {
      EndsWithin(n, rounds, v);
    }
    if Least(n, rounds) <= v <= n * rounds {
      if n == 0 || rounds == 0 {
        RunsToEnd(n, rounds);
      } else if v >= rounds {
        assert n * rounds == rounds + (n - 1) * rounds;
        LoseSome(n, rounds, n * rounds - v);
      } else {
        LoseMost(n, rounds, 1 + rounds - v);
      }
    }
  }

  lemma RunsToEnd(n: nat, rounds: nat)
    ensures CanEndAt(n, rounds, n * rounds)
  {
    RemainingAtStart(Init(n).threads, 0, rounds);
    var s := AllToEnd(Init(n), 0, rounds);
  }

  lemma EndsWithin(n: nat, rounds: nat, v: nat)
    requires CanEndAt(n, rounds, v)
    ensures Least(n, rounds) <= v <= n * rounds
  {
    var s :| Reaches(Init(n), s, rounds) && AllDone(s) && s.counter == v;
    var run :| After(Init(n), run, false, rounds) == Some(s);
    CounterIsBounded(n, run, false, rounds);
    if n == 1 {
      AloneIsExact(run, rounds);
      RunKeepsInv(n, run, false, rounds);
      assert Ok(s, 0, rounds);
    }
  }

  /** Hence no increment can be missed exactly when there is one thread at most, or nothing to count. */
  lemma ExactWithoutMutex(n: nat, rounds: nat)
    ensures (forall v: nat | CanEndAt(n, rounds, v) :: v == n * rounds) <==> n <= 1 || rounds == 0
  {
    forall v: nat ensures CanEndAt(n, rounds, v) <==> Least(n, rounds) <= v <= n * rounds {
      FinalValues(n, rounds, v);
    }
    if n > 1 && rounds > 0 {
      assert n * rounds >= 2 * rounds;
      assert CanEndAt(n, rounds, Least(n, rounds));
    }
  }
}
