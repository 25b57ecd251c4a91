/** The shared counter, incremented K times by each of N threads under a mutex. */
module CounterLocked {
  import opened CounterThreads

  /** Where a thread is: outside the lock, or inside it before the load, between load and
      store, or behind the store. */
  datatype Pc = Ready | Locked | Loaded(v: int) | Stored

  datatype Mutex = Free | HeldBy(t: nat)

  datatype State = State(counter: int, mutex: Mutex, threads: seq<Thread<Pc>>)

  function Start(n: nat): State {
    State(0, Free, seq(n, _ => Thread(0, Ready)))
  }

  /** pthread_mutex_lock blocks while the mutex is held; everything else can always go on. */
  predicate Enabled(k: nat, s: State, t: nat) {
    t < |s.threads| && (s.threads[t].pc.Ready? ==> s.threads[t].done < k && s.mutex == Free)
  }

  function Step(s: State, t: nat): State
    requires t < |s.threads|
  {
    var th := s.threads[t];
    match th.pc
    case Ready => s.(mutex := HeldBy(t), threads := s.threads[t := Thread(th.done, Locked)])
    case Locked => s.(threads := s.threads[t := Thread(th.done, Loaded(s.counter))])
    case Loaded(v) => s.(counter := v + 1, threads := s.threads[t := Thread(th.done + 1, Stored)])
    case Stored => s.(mutex := Free, threads := s.threads[t := Thread(th.done, Ready)])
  }

  ghost predicate Runs(k: nat, s: State, schedule: seq<nat>, s': State)
    decreases |schedule|
  {
    if schedule == [] then s' == s
    else Enabled(k, s, schedule[0]) && Runs(k, Step(s, schedule[0]), schedule[1..], s')
  }

  ghost predicate AllDone(k: nat, s: State) {
    forall t :: 0 <= t < |s.threads| ==> s.threads[t] == Thread(k, Ready)
  }

  /** The counter is the number of completed increments, and only the holder of the mutex is
      inside an increment, with the current value. */
  ghost predicate Inv(k: nat, s: State) {
    && s.counter == DoneFrom(s.threads, 0)
    && (s.mutex.HeldBy? ==> s.mutex.t < |s.threads|)
    && (forall t :: 0 <= t < |s.threads| ==>
          && (s.threads[t].pc.Ready? <==> s.mutex != HeldBy(t))
          && (s.threads[t].pc.Loaded? ==> s.threads[t].pc.v == s.counter)
          && s.threads[t].done <= k
          && (s.threads[t].pc.Locked? || s.threads[t].pc.Loaded? ==> s.threads[t].done < k))
  }

  lemma StepKeepsInv(k: nat, s: State, t: nat)
    requires Inv(k, s) && Enabled(k, s, t)
    ensures Inv(k, Step(s, t))
  {
    DoneAfter(s.threads, 0, t, Step(s, t).threads[t]);
  }

  lemma {:induction false} RunsKeepInv(k: nat, s: State, schedule: seq<nat>, s': State)
    requires Inv(k, s) && Runs(k, s, schedule, s')
    ensures Inv(k, s') && |s'.threads| == |s.threads|
    decreases |schedule|
  {
    if schedule != [] {
      StepKeepsInv(k, s, schedule[0]);
      RunsKeepInv(k, Step(s, schedule[0]), schedule[1..], s');
    }
  }

  lemma StartInv(n: nat, k: nat)
    ensures Inv(k, Start(n))
  {
    DoneOfAll(Start(n).threads, 0, 0);
    TimesIsProduct(n, 0);
  }

  /** Every interleaving of the locked threads ends with exactly N*K. */
  lemma LockedExact(n: nat, k: nat, schedule: seq<nat>, s': State)
    requires Runs(k, Start(n), schedule, s') && AllDone(k, s')
    ensures s'.counter == n * k
  {
    StartInv(n, k);
    RunsKeepInv(k, Start(n), schedule, s');
    DoneOfAll(s'.threads, 0, k);
    TimesIsProduct(n, k);
  }

  /** No interleaving gets stuck before that. */
  lemma LockedProgress(n: nat, k: nat, schedule: seq<nat>, s': State)
    requires Runs(k, Start(n), schedule, s') && forall t :: 0 <= t < n ==> !Enabled(k, s', t)
    ensures AllDone(k, s')
  {
    StartInv(n, k);
    RunsKeepInv(k, Start(n), schedule, s');
    if s'.mutex != Free {
      assert Enabled(k, s', s'.mutex.t);
    }
    forall t | 0 <= t < n ensures s'.threads[t] == Thread(k, Ready) {
      assert !Enabled(k, s', t);
    }
  }

  // ----- a run to the end

  /** One thread alone: lock, load, store, unlock. */
  lemma OneIncrement(k: nat, s: State, t: nat)
    requires t < |s.threads| && s.threads[t].pc == Ready && s.threads[t].done < k && s.mutex == Free
    ensures Runs(k, s, [t, t, t, t],
                 State(s.counter + 1, Free, s.threads[t := Thread(s.threads[t].done + 1, Ready)]))
  {
    var d := s.threads[t].done;
    var s1 := State(s.counter, HeldBy(t), s.threads[t := Thread(d, Locked)]);
    var s2 := State(s.counter, HeldBy(t), s.threads[t := Thread(d, Loaded(s.counter))]);
    var s3 := State(s.counter + 1, HeldBy(t), s.threads[t := Thread(d + 1, Stored)]);
    var s4 := State(s.counter + 1, Free, s.threads[t := Thread(d + 1, Ready)]);
    assert Step(s, t) == s1 && Step(s1, t) == s2 && Step(s2, t) == s3 && Step(s3, t) == s4;
    assert Runs(k, s4, [], s4);
    RunsStep(k, s3, t, [], s4);
    RunsStep(k, s2, t, [t], s4);
    RunsStep(k, s1, t, [t, t], s4);
    RunsStep(k, s, t, [t, t, t], s4);
  }

  lemma RunsStep(k: nat, s: State, t: nat, rest: seq<nat>, s': State)
    requires Enabled(k, s, t) && Runs(k, Step(s, t), rest, s')
    ensures Runs(k, s, [t] + rest, s')
  {
    assert ([t] + rest)[1..] == rest;
  }

  lemma {:induction false} RunsConcat(k: nat, s: State, a: seq<nat>, s1: State, b: seq<nat>, s2: State)
    requires Runs(k, s, a, s1) && Runs(k, s1, b, s2)
    ensures Runs(k, s, a + b, s2)
    decreases |a|
  {
    if a == [] {
      assert a + b == b;
    } else {
      assert (a + b)[1..] == a[1..] + b;
      RunsConcat(k, Step(s, a[0]), a[1..], s1, b, s2);
    }
  }

  /** From any state in which nobody is in the lock, all threads can finish. */
  lemma {:induction false} CanFinish(k: nat, s: State) returns (schedule: seq<nat>, s': State)
    requires Inv(k, s) && s.mutex == Free
    ensures Runs(k, s, schedule, s') && AllDone(k, s')
    decreases |s.threads| * k - s.counter
  {
    if t :| 0 <= t < |s.threads| && s.threads[t].done < k {
      OneIncrement(k, s, t);
      var next := State(s.counter + 1, Free, s.threads[t := Thread(s.threads[t].done + 1, Ready)]);
      RunsKeepInv(k, s, [t, t, t, t], next);
      DoneBound(k, next.threads, 0);
      var rest;
      rest, s' := CanFinish(k, next);
      RunsConcat(k, s, [t, t, t, t], next, rest, s');
      schedule := [t, t, t, t] + rest;
    } else {
      schedule, s' := [], s;
    }
  }

  lemma {:induction false} DoneBound<P>(k: nat, threads: seq<Thread<P>>, from: nat)
    requires from <= |threads| && forall t :: 0 <= t < |threads| ==> threads[t].done <= k
    ensures DoneFrom(threads, from) <= (|threads| - from) * k
    decreases |threads| - from
  {
    if from < |threads| {
      DoneBound(k, threads, from + 1);
      assert (|threads| - from) * k == (|threads| - from - 1) * k + k;
    }
  }

  /** There is an interleaving to the end, for any number of threads and increments. */
  lemma LockedCompletes(n: nat, k: nat) returns (schedule: seq<nat>, s': State)
    ensures Runs(k, Start(n), schedule, s') && AllDone(k, s')
  {
    StartInv(n, k);
    schedule, s' := CanFinish(k, Start(n));
  }
}
