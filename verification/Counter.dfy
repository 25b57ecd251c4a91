/** The shared counter, incremented K times by each of N threads without a lock: an increment
    is a load and a later store. */
module Counter {
  import opened CounterThreads

  /** Between its load and its store a thread holds the value that it loaded. */
  datatype Pc = Ready | Loaded(v: int)

  datatype State = State(counter: int, threads: seq<Thread<Pc>>)

  function Start(n: nat): State {
    State(0, seq(n, _ => Thread(0, Ready)))
  }

  predicate Enabled(k: nat, s: State, t: nat) {
    t < |s.threads| && (s.threads[t].done < k || s.threads[t].pc.Loaded?)
  }

  function Step(s: State, t: nat): State
    requires t < |s.threads|
  {
    var th := s.threads[t];
    match th.pc
    case Ready => s.(threads := s.threads[t := Thread(th.done, Loaded(s.counter))])
    case Loaded(v) => State(v + 1, s.threads[t := Thread(th.done + 1, Ready)])
  }

  /** `s'` is reached from `s` when the threads are scheduled in this order. */
  ghost predicate Runs(k: nat, s: State, schedule: seq<nat>, s': State)
    decreases |schedule|
  {
    if schedule == [] then s' == s
    else Enabled(k, s, schedule[0]) && Runs(k, Step(s, schedule[0]), schedule[1..], s')
  }

  ghost predicate AllDone(k: nat, s: State) {
    forall t :: 0 <= t < |s.threads| ==> s.threads[t] == Thread(k, Ready)
  }

  function Total(s: State): nat { DoneFrom(s.threads, 0) }

  // ----- every interleaving ends between the bounds

  /** Nothing ever exceeds the number of completed increments; and once a thread has stored,
      whatever it loads is positive. */
  ghost predicate Inv(k: nat, s: State) {
    && 0 <= s.counter <= Total(s)
    && (Total(s) > 0 ==> s.counter >= 1)
    && (forall t :: 0 <= t < |s.threads| ==>
          && s.threads[t].done <= k && (s.threads[t].done == k ==> s.threads[t].pc == Ready)
          && s.threads[t].done <= Total(s)
          && (s.threads[t].pc.Loaded? ==>
                0 <= s.threads[t].pc.v <= Total(s) && (s.threads[t].done > 0 ==> s.threads[t].pc.v >= 1)))
    && (AllDone(k, s) && s.threads != [] && k >= 2 ==> s.counter >= 2)
  }

  lemma StepKeepsInv(k: nat, s: State, t: nat)
    requires Inv(k, s) && Enabled(k, s, t)
    ensures Inv(k, Step(s, t))
  {
    DoneAfter(s.threads, 0, t, Step(s, t).threads[t]);
    if s.threads[t].pc.Ready? {
      assert Step(s, t).threads[t] != Thread(k, Ready);
    }
  }

  lemma {:induction false} RunsKeepInv(k: nat, s: State, schedule: seq<nat>, s': State)
    requires Inv(k, s) && Runs(k, s, schedule, s')
    ensures Inv(k, s') && |s'.threads| == |s.threads|
    decreases |schedule|
  {
    if schedule != [] {
      StepKeepsInv(k, s, schedule[0]);
      RunsKeepInv(k, Step(s, schedule[0]), schedule[1..], s');
    }
  }

  lemma StartInv(n: nat, k: nat)
    ensures n > 0 && k > 0 ==> Inv(k, Start(n))
    ensures Total(Start(n)) == 0
  {
    DoneOfAll(Start(n).threads, 0, 0);
    TimesIsProduct(n, 0);
    if n > 0 && k > 0 {
      assert Start(n).threads[0] != Thread(k, Ready);
    }
  }

  /** Every interleaving of the unlocked threads ends with a counter between 2 and N*K. */
  lemma RacyBounds(n: nat, k: nat, schedule: seq<nat>, s': State)
    requires n >= 1 && k >= 2 && Runs(k, Start(n), schedule, s') && AllDone(k, s')
    ensures 2 <= s'.counter <= n * k
  {
    StartInv(n, k);
    RunsKeepInv(k, Start(n), schedule, s');
    DoneOfAll(s'.threads, 0, k);
    TimesIsProduct(n, k);
  }

  // ----- every value between the bounds is the outcome of some interleaving

  lemma {:induction false} RunsConcat(k: nat, s: State, a: seq<nat>, s1: State, b: seq<nat>, s2: State)
    requires Runs(k, s, a, s1) && Runs(k, s1, b, s2)
    ensures Runs(k, s, a + b, s2)
    decreases |a|
  {
    if a == [] {
      assert a + b == b;
    } else {
      assert (a + b)[1..] == a[1..] + b;
      RunsConcat(k, Step(s, a[0]), a[1..], s1, b, s2);
    }
  }

  lemma OneStep(k: nat, s: State, t: nat)
    requires Enabled(k, s, t)
    ensures Runs(k, s, [t], Step(s, t))
  {
    assert Runs(k, Step(s, t), [], Step(s, t));
    assert [t][1..] == [];
  }

  /** `m` undisturbed increments of thread `t`. */
  function AfterSolo(s: State, t: nat, m: nat): State
    requires t < |s.threads|
  {
    State(s.counter + m, s.threads[t := Thread(s.threads[t].done + m, Ready)])
  }

  lemma {:induction false} Solo(k: nat, s: State, t: nat, m: nat) returns (schedule: seq<nat>)
    requires t < |s.threads| && s.threads[t].pc == Ready && s.threads[t].done + m <= k
    ensures Runs(k, s, schedule, AfterSolo(s, t, m))
    decreases m
  {
    if m == 0 {
      schedule := [];
      assert AfterSolo(s, t, 0) == s;
    } else {
      var s1 := Step(s, t);
      var s2 := Step(s1, t);
      assert s2 == AfterSolo(s, t, 1);
      var rest := Solo(k, s2, t, m - 1);
      assert AfterSolo(s2, t, m - 1) == AfterSolo(s, t, m);
      schedule := [t, t] + rest;
      assert schedule[1..][1..] == rest;
      assert schedule[1..][0] == t;
    }
  }

  /** The threads from `from` on run one after the other, each to its end. */
  lemma {:induction false} Finish(k: nat, s: State, from: nat) returns (schedule: seq<nat>, s': State)
    requires from <= |s.threads|
    requires forall t :: from <= t < |s.threads| ==> s.threads[t].pc == Ready && s.threads[t].done <= k
    ensures Runs(k, s, schedule, s') && |s'.threads| == |s.threads|
    ensures forall t :: from <= t < |s.threads| ==> s'.threads[t] == Thread(k, Ready)
    ensures forall t :: 0 <= t < from ==> s'.threads[t] == s.threads[t]
    ensures s'.counter == s.counter + Times(|s.threads| - from, k) - DoneFrom(s.threads, from)
    decreases |s.threads| - from
  {
    if from == |s.threads| {
      schedule, s' := [], s;
    } else {
      var m := k - s.threads[from].done;
      var first := Solo(k, s, from, m);
      var s1 := AfterSolo(s, from, m);
      DoneAfter(s.threads, from + 1, from, s1.threads[from]);
      var rest;
      rest, s' := Finish(k, s1, from + 1);
      RunsConcat(k, s, first, s1, rest, s');
      schedule := first + rest;
    }
  }

  /** The threads from `from` on, all fresh, complete `m` increments in total. */
  lemma {:induction false} Spend(k: nat, s: State, from: nat, m: nat) returns (schedule: seq<nat>, s': State)
    requires from <= |s.threads| && m <= Times(|s.threads| - from, k)
    requires forall t :: from <= t < |s.threads| ==> s.threads[t] == Thread(0, Ready)
    ensures Runs(k, s, schedule, s') && |s'.threads| == |s.threads|
    ensures forall t :: from <= t < |s.threads| ==> s'.threads[t].pc == Ready && s'.threads[t].done <= k
    ensures forall t :: 0 <= t < from ==> s'.threads[t] == s.threads[t]
    ensures s'.counter == s.counter + m && DoneFrom(s'.threads, from) == m
    decreases |s.threads| - from
  {
    if from == |s.threads| {
      schedule, s' := [], s;
    } else {
      var x := if m <= k then m else k;
      var first := Solo(k, s, from, x);
      var s1 := AfterSolo(s, from, x);
      var rest;
      rest, s' := Spend(k, s1, from + 1, m - x);
      RunsConcat(k, s, first, s1, rest, s');
      schedule := first + rest;
    }
  }

  /** What thread 0 loads first it stores after others completed `lost` increments: those are lost. */
  lemma LoseSome(n: nat, k: nat, lost: nat) returns (schedule: seq<nat>, s': State)
    requires n >= 1 && k >= 1 && lost <= Times(n - 1, k)
    ensures Runs(k, Start(n), schedule, s') && AllDone(k, s') && s'.counter == Times(n, k) - lost
  {
    var s1 := Step(Start(n), 0);
    OneStep(k, Start(n), 0);
    var a, s2 := Spend(k, s1, 1, lost);
    RunsConcat(k, Start(n), [0], s1, a, s2);
    var s3 := Step(s2, 0);
    OneStep(k, s2, 0);
    RunsConcat(k, Start(n), [0] + a, s2, [0], s3);
    DoneAfter(s2.threads, 1, 0, s3.threads[0]);
    var b;
    b, s' := Finish(k, s3, 0);
    RunsConcat(k, Start(n), [0] + a + [0], s3, b, s');
    schedule := [0] + a + [0] + b;
  }

  /** Two threads overwrite each other: thread 0 loses all but one of thread 1's increments and all
      of the others', then thread 1 loses all but `kept` of the rest of thread 0's. */
  lemma LoseMost(n: nat, k: nat, kept: nat) returns (schedule: seq<nat>, s': State)
    requires n >= 2 && k >= 2 && kept < k
    ensures Runs(k, Start(n), schedule, s') && AllDone(k, s') && s'.counter == 2 + kept
  {
    var s1 := Step(Start(n), 0);
    OneStep(k, Start(n), 0);
    var a := Solo(k, s1, 1, k - 1);
    var s2 := AfterSolo(s1, 1, k - 1);
    RunsConcat(k, Start(n), [0], s1, a, s2);
    var b, s3 := Finish(k, s2, 2);
    RunsConcat(k, Start(n), [0] + a, s2, b, s3);
    assert s3.threads[0] == Thread(0, Loaded(0)) && s3.threads[1] == Thread(k - 1, Ready);
    var c;
    c, s' := OverwriteEachOther(k, s3, kept);
    RunsConcat(k, Start(n), [0] + a + b, s3, c, s');
    schedule := [0] + a + b + c;
  }

  lemma OverwriteEachOther(k: nat, s: State, kept: nat) returns (schedule: seq<nat>, s': State)
    requires k >= 2 && kept < k && |s.threads| >= 2
    requires s.threads[0] == Thread(0, Loaded(0)) && s.threads[1] == Thread(k - 1, Ready)
    requires forall t :: 2 <= t < |s.threads| ==> s.threads[t] == Thread(k, Ready)
    ensures Runs(k, s, schedule, s') && AllDone(k, s') && s'.counter == 2 + kept
  {
    var s1 := Step(s, 0);
    OneStep(k, s, 0);
    var a := Solo(k, s1, 0, kept);
    var s2 := AfterSolo(s1, 0, kept);
    RunsConcat(k, s, [0], s1, a, s2);
    var s3 := Step(s2, 1);
    OneStep(k, s2, 1);
    RunsConcat(k, s, [0] + a, s2, [1], s3);
    var b := Solo(k, s3, 0, k - 1 - kept);
    var s4 := AfterSolo(s3, 0, k - 1 - kept);
    RunsConcat(k, s, [0] + a + [1], s3, b, s4);
    s' := Step(s4, 1);
    OneStep(k, s4, 1);
    RunsConcat(k, s, [0] + a + [1] + b, s4, [1], s');
    schedule := [0] + a + [1] + b + [1];
  }

  ghost predicate Outcome(n: nat, k: nat, v: int) {
    exists schedule, s' :: Runs(k, Start(n), schedule, s') && AllDone(k, s') && s'.counter == v
  }

  /** With at least two threads and two increments each, exactly the values from 2 to N*K are outcomes. */
  lemma RacyOutcomes(n: nat, k: nat, v: int)
    requires n >= 2 && k >= 2
    ensures Outcome(n, k, v) <==> 2 <= v <= n * k
  {
    TimesIsProduct(n, k);
    if Outcome(n, k, v) {
      var schedule, s' :| Runs(k, Start(n), schedule, s') && AllDone(k, s') && s'.counter == v;
      RacyBounds(n, k, schedule, s');
    }
    if 2 <= v <= k {
      var schedule, s' := LoseMost(n, k, v - 2);
    } else if k < v <= n * k {
      var schedule, s' := LoseSome(n, k, n * k - v);
    }
  }
}
