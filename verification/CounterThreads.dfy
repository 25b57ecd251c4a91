/** Threads that count their completed increments, and their total. */
module CounterThreads {

  /** `done` increments are stored; `pc` says where the thread is in the next one. */
  datatype Thread<P> = Thread(done: nat, pc: P)

  /** The increments that the threads from `from` on have completed. */
  function DoneFrom<P>(threads: seq<Thread<P>>, from: nat): nat
    decreases |threads| - from
  {
    if from >= |threads| then 0 else threads[from].done + DoneFrom(threads, from + 1)
  }

  /** n times k, by addition. */
  function Times(n: nat, k: nat): nat {
    if n == 0 then 0 else Times(n - 1, k) + k
  }

  lemma {:induction false} TimesIsProduct(n: nat, k: nat)
    ensures Times(n, k) == n * k
  {
    if n > 0 {
      TimesIsProduct(n - 1, k);
      assert n * k == (n - 1) * k + k;
    }
  }

  lemma {:induction false} DoneAfter<P>(threads: seq<Thread<P>>, from: nat, t: nat, th: Thread<P>)
    requires t < |threads|
    ensures DoneFrom(threads[t := th], from) ==
            DoneFrom(threads, from) + (if from <= t then th.done - threads[t].done else 0)
    decreases |threads| - from
  {
    if from < |threads| {
      DoneAfter(threads, from + 1, t, th);
    }
  }

  lemma {:induction false} DoneOfAll<P>(threads: seq<Thread<P>>, from: nat, k: nat)
    requires from <= |threads| && forall t :: from <= t < |threads| ==> threads[t].done == k
    ensures DoneFrom(threads, from) == Times(|threads| - from, k)
    decreases |threads| - from
  {
    if from < |threads| {
      DoneOfAll(threads, from + 1, k);
    }
  }
}
