/** Any number of accepting threads and workers around one bounded queue: a mutex, and a
    semaphore that is posted after the mutex is released. Connections are numbered in the
    order in which they are accepted; a number stands for the descriptor while it is open. */
module WorkQueueProtocol {
  import opened WorkQueue

  type Tid = int

  /** Where a thread is. The first group is the accept loop, the second the workers. */
  datatype Pc =
    | Accepting
    | Arriving(c: nat)    // in enqueue, before the lock
    | Linking(c: nat)     // holds the lock
    | Linked(c: nat)      // linked its node, holds the lock
    | Posting(c: nat)     // released the lock, before sem_post
    | Refused(c: nat)     // found no room, holds the lock
    | Rejecting(c: nat)   // enqueue returned -1, before close
    | Waiting             // before sem_wait
    | Passed              // passed sem_wait, before the lock
    | Taking              // holds the lock
    | FoundEmpty          // found front == NULL, holds the lock
    | Took(c: nat)        // unlinked a node, holds the lock
    | Handling(c: nat)    // in handle_client, before close

  datatype Mutex = Free | HeldBy(t: Tid)

  /** `accepted` connections so far; `linked` and `taken` in the order of linking and unlinking;
      `closed` in the order of the close calls. */
  datatype State = State(capacity: int, pcs: map<Tid, Pc>, mutex: Mutex, sem: nat, queue: seq<nat>,
                         accepted: nat, linked: seq<nat>, taken: seq<nat>, closed: seq<nat>)

  ghost predicate Initial(s: State) {
    && (forall t :: t in s.pcs ==> s.pcs[t] == Accepting || s.pcs[t] == Waiting)
    && s.mutex == Free && s.sem == 0 && s.queue == [] && s.accepted == 0
    && s.linked == [] && s.taken == [] && s.closed == []
  }

  /** A thread blocks only in pthread_mutex_lock and in sem_wait. */
  predicate Enabled(s: State, t: Tid) {
    && t in s.pcs
    && (s.pcs[t].Arriving? || s.pcs[t].Passed? ==> s.mutex == Free)
    && (s.pcs[t].Waiting? ==> s.sem > 0)
  }

  /** The next atomic step of thread `t`. */
  function Step(s: State, t: Tid, mallocOk: bool): State
    requires Enabled(s, t)
  {
    match s.pcs[t]
    case Accepting => s.(accepted := s.accepted + 1, pcs := s.pcs[t := Arriving(s.accepted)])
    case Arriving(c) => s.(mutex := HeldBy(t), pcs := s.pcs[t := Linking(c)])
    case Linking(c) =>
      if Admits(|s.queue|, s.capacity, mallocOk)
      then s.(queue := s.queue + [c], linked := s.linked + [c], pcs := s.pcs[t := Linked(c)])
      else s.(pcs := s.pcs[t := Refused(c)])
    case Linked(c) => s.(mutex := Free, pcs := s.pcs[t := Posting(c)])
    case Posting(c) => s.(sem := s.sem + 1, pcs := s.pcs[t := Accepting])
    case Refused(c) => s.(mutex := Free, pcs := s.pcs[t := Rejecting(c)])
    case Rejecting(c) => s.(closed := s.closed + [c], pcs := s.pcs[t := Accepting])
    case Waiting => s.(sem := s.sem - 1, pcs := s.pcs[t := Passed])
    case Passed => s.(mutex := HeldBy(t), pcs := s.pcs[t := Taking])
    case Taking =>
      if s.queue == [] then s.(pcs := s.pcs[t := FoundEmpty])
      else s.(queue := s.queue[1..], taken := s.taken + [s.queue[0]], pcs := s.pcs[t := Took(s.queue[0])])
    case FoundEmpty => s.(mutex := Free, pcs := s.pcs[t := Waiting])
    case Took(c) => s.(mutex := Free, pcs := s.pcs[t := Handling(c)])
    case Handling(c) => s.(closed := s.closed + [c], pcs := s.pcs[t := Waiting])
  }

  /** Every interleaving: a sequence of states, each one step of some thread after the one before. */
  ghost predicate IsRun(run: seq<State>) {
    && run != [] && Initial(run[0])
    && forall i :: 0 <= i < |run| - 1 ==> Steps(run[i], run[i + 1])
  }

  ghost predicate Steps(s: State, s': State) {
    exists t, mallocOk :: Enabled(s, t) && s' == Step(s, t, mallocOk)
  }

  // ----- counting threads

  function Flag(b: bool): nat { if b then 1 else 0 }

  /** The kinds of threads that are counted. */
  datatype Group =
    | Unposted          // linked a node, but did not post it yet
    | Committed         // passed the semaphore, but did not unlink yet
    | OwnersOf(c: nat)  // responsible for closing connection `c`

  predicate BelongsTo(pc: Pc, g: Group) {
    match g
    case Unposted => pc.Linked? || pc.Posting?
    case Committed => pc.Passed? || pc.Taking?
    case OwnersOf(c) => Owns(pc, c)
  }

  predicate Owns(pc: Pc, c: nat) {
    || pc == Arriving(c) || pc == Linking(c) || pc == Refused(c) || pc == Rejecting(c)
    || pc == Took(c) || pc == Handling(c)
  }

  function Members(pcs: map<Tid, Pc>, g: Group): set<Tid> {
    set t | t in pcs && BelongsTo(pcs[t], g)
  }

  function CountOf(pcs: map<Tid, Pc>, g: Group): nat { |Members(pcs, g)| }

  lemma MembersAfter(pcs: map<Tid, Pc>, t: Tid, pc: Pc, g: Group)
    requires t in pcs
    ensures Members(pcs[t := pc], g) == (Members(pcs, g) - {t}) + if BelongsTo(pc, g) then {t} else {}
    ensures t in Members(pcs, g) <==> BelongsTo(pcs[t], g)
  {
  }

  lemma CountAfter(pcs: map<Tid, Pc>, t: Tid, pc: Pc, g: Group)
    requires t in pcs
    ensures CountOf(pcs[t := pc], g) + Flag(BelongsTo(pcs[t], g)) == CountOf(pcs, g) + Flag(BelongsTo(pc, g))
  {
    MembersAfter(pcs, t, pc, g);
    var others := Members(pcs, g) - {t};
    if BelongsTo(pcs[t], g) {
      assert |Members(pcs, g)| == |others| + 1;
    } else {
      assert Members(pcs, g) == others;
    }
  }

  lemma NoMembers(pcs: map<Tid, Pc>, g: Group)
    requires forall t :: t in pcs ==> !BelongsTo(pcs[t], g)
    ensures CountOf(pcs, g) == 0
  {
    var members := set t | t in pcs && BelongsTo(pcs[t], g);
    assert forall t :: t !in members;
    assert members == {};
  }

  lemma HasMember(pcs: map<Tid, Pc>, t: Tid, g: Group)
    requires t in pcs && BelongsTo(pcs[t], g)
    ensures CountOf(pcs, g) > 0
  {
    assert t in Members(pcs, g);
  }

  // ----- the invariant

  predicate InCriticalSection(pc: Pc) {
    pc.Linking? || pc.Linked? || pc.Refused? || pc.Taking? || pc.FoundEmpty? || pc.Took?
  }

  ghost predicate MutualExclusion(s: State) {
    forall t :: t in s.pcs ==> (InCriticalSection(s.pcs[t]) <==> s.mutex == HeldBy(t))
  }

  /** The permits in the semaphore and the threads between semaphore and list account for every node. */
  ghost predicate PermitsMatchNodes(s: State) {
    && s.sem + CountOf(s.pcs, Unposted) + CountOf(s.pcs, Committed) == |s.queue|
    && forall t :: t in s.pcs ==> !s.pcs[t].FoundEmpty?
  }

  /** The list is a bounded FIFO: handed out, then still queued, in the order of linking. */
  ghost predicate BoundedFifo(s: State) {
    && s.linked == s.taken + s.queue
    && (s.queue == [] || |s.queue| <= s.capacity)
  }

  function Owners(pcs: map<Tid, Pc>, c: nat): nat {
    CountOf(pcs, OwnersOf(c))
  }

  /** How many times connection `c` is in the queue, was closed, or is some thread's to close. */
  function Places(s: State, c: nat): nat {
    multiset(s.queue)[c] + multiset(s.closed)[c] + Owners(s.pcs, c)
  }

  /** Every accepted connection is in exactly one place, once. */
  ghost predicate OnePlaceEach(s: State) {
    forall c: nat :: Places(s, c) == Flag(c < s.accepted)
  }

  ghost predicate Inv(s: State) {
    MutualExclusion(s) && PermitsMatchNodes(s) && BoundedFifo(s) && OnePlaceEach(s)
  }

  lemma StepKeepsExclusion(s: State, t: Tid, mallocOk: bool)
    requires MutualExclusion(s) && Enabled(s, t)
    ensures MutualExclusion(Step(s, t, mallocOk))
  {
  }

  lemma StepKeepsPermits(s: State, t: Tid, mallocOk: bool)
    requires PermitsMatchNodes(s) && Enabled(s, t)
    ensures PermitsMatchNodes(Step(s, t, mallocOk))
  {
    var s' := Step(s, t, mallocOk);
    CountAfter(s.pcs, t, s'.pcs[t], Unposted);
    CountAfter(s.pcs, t, s'.pcs[t], Committed);
  }

  lemma StepKeepsFifo(s: State, t: Tid, mallocOk: bool)
    requires BoundedFifo(s) && Enabled(s, t)
    ensures BoundedFifo(Step(s, t, mallocOk))
  {
    if s.pcs[t].Taking? && s.queue != [] {
      assert s.queue == [s.queue[0]] + s.queue[1..];
    }
  }

  lemma OwnersAfter(pcs: map<Tid, Pc>, t: Tid, pc: Pc, c: nat)
    requires t in pcs
    ensures Owners(pcs[t := pc], c) + Flag(Owns(pcs[t], c)) == Owners(pcs, c) + Flag(Owns(pc, c))
  {
    CountAfter(pcs, t, pc, OwnersOf(c));
  }

  lemma CountAppended(q: seq<nat>, x: nat, c: nat)
    ensures multiset(q + [x])[c] == multiset(q)[c] + if x == c then 1 else 0
  {
  }

  lemma CountTail(q: seq<nat>, c: nat)
    requires q != []
    ensures multiset(q[1..])[c] == multiset(q)[c] - if q[0] == c then 1 else 0
  {
    assert q == [q[0]] + q[1..];
  }

  function Stored(s: State, c: nat): nat {
    multiset(s.queue)[c] + multiset(s.closed)[c]
  }

  lemma ListMoves(s: State, t: Tid, mallocOk: bool, c: nat)
    requires Enabled(s, t) && (s.pcs[t].Linking? || s.pcs[t].Taking?)
    ensures var s' := Step(s, t, mallocOk);
            Stored(s', c) + Flag(Owns(s'.pcs[t], c)) == Stored(s, c) + Flag(Owns(s.pcs[t], c))
  {
    if s.pcs[t].Linking? {
      CountAppended(s.queue, s.pcs[t].c, c);
    } else if s.queue != [] {
      CountTail(s.queue, c);
    }
  }

  lemma CloseMoves(s: State, t: Tid, mallocOk: bool, c: nat)
    requires Enabled(s, t) && (s.pcs[t].Rejecting? || s.pcs[t].Handling?)
    ensures var s' := Step(s, t, mallocOk);
            Stored(s', c) + Flag(Owns(s'.pcs[t], c)) == Stored(s, c) + Flag(Owns(s.pcs[t], c))
  {
    CountAppended(s.closed, s.pcs[t].c, c);
  }

  lemma OthersMoveNothing(s: State, t: Tid, mallocOk: bool, c: nat)
    requires Enabled(s, t) && !s.pcs[t].Accepting?
    requires !s.pcs[t].Linking? && !s.pcs[t].Taking? && !s.pcs[t].Rejecting? && !s.pcs[t].Handling?
    ensures var s' := Step(s, t, mallocOk); Stored(s', c) == Stored(s, c) && (Owns(s'.pcs[t], c) <==> Owns(s.pcs[t], c))
  {
  }

  /** What a step puts into the queue or closes, its thread no longer owns, and vice versa. */
  lemma StoredAfter(s: State, t: Tid, mallocOk: bool, c: nat)
    requires Enabled(s, t) && !s.pcs[t].Accepting?
    ensures var s' := Step(s, t, mallocOk);
            Stored(s', c) + Flag(Owns(s'.pcs[t], c)) == Stored(s, c) + Flag(Owns(s.pcs[t], c))
  {
    var pc := s.pcs[t];
    if pc.Linking? || pc.Taking? {
      ListMoves(s, t, mallocOk, c);
    } else if pc.Rejecting? || pc.Handling? {
      CloseMoves(s, t, mallocOk, c);
    } else {
      OthersMoveNothing(s, t, mallocOk, c);
    }
  }

  /** A step changes the places of no connection, except that accept creates one. */
  lemma PlacesAfter(s: State, t: Tid, mallocOk: bool, c: nat)
    requires Enabled(s, t)
    ensures Places(Step(s, t, mallocOk), c) == Places(s, c) + Flag(s.pcs[t].Accepting? && c == s.accepted)
  {
    OwnersAfter(s.pcs, t, Step(s, t, mallocOk).pcs[t], c);
    if !s.pcs[t].Accepting? {
      StoredAfter(s, t, mallocOk, c);
    }
  }

  lemma StepKeepsPlaces(s: State, t: Tid, mallocOk: bool)
    requires OnePlaceEach(s) && Enabled(s, t)
    ensures OnePlaceEach(Step(s, t, mallocOk))
  {
    forall c: nat ensures Places(Step(s, t, mallocOk), c) == Flag(c < Step(s, t, mallocOk).accepted) {
      PlacesAfter(s, t, mallocOk, c);
    }
  }

  lemma InitialInv(s: State)
    requires Initial(s)
    ensures Inv(s)
  {
    NoMembers(s.pcs, Unposted);
    NoMembers(s.pcs, Committed);
    forall c: nat ensures Places(s, c) == 0 {
      NoMembers(s.pcs, OwnersOf(c));
    }
  }

  /** The invariant holds in every state of every interleaving. */
  lemma {:induction false} RunKeepsInv(run: seq<State>, i: nat)
    requires IsRun(run) && i < |run|
    ensures Inv(run[i])
  {
    if i > 0 {
      RunKeepsInv(run, i - 1);
      assert Steps(run[i - 1], run[i - 1 + 1]);
      var t, mallocOk :| Enabled(run[i - 1], t) && run[i] == Step(run[i - 1], t, mallocOk);
      StepKeepsExclusion(run[i - 1], t, mallocOk);
      StepKeepsPermits(run[i - 1], t, mallocOk);
      StepKeepsFifo(run[i - 1], t, mallocOk);
      StepKeepsPlaces(run[i - 1], t, mallocOk);
    } else {
      InitialInv(run[0]);
    }
  }

  // ----- what follows for the server

  /** A worker that passed the semaphore never finds the queue empty. */
  lemma DequeueFindsNode(run: seq<State>, i: nat, t: Tid, mallocOk: bool)
    requires IsRun(run) && i < |run| && t in run[i].pcs && run[i].pcs[t].Taking?
    ensures run[i].queue != [] && Step(run[i], t, mallocOk).pcs[t] == Took(run[i].queue[0])
  {
    RunKeepsInv(run, i);
    HasMember(run[i].pcs, t, Committed);
  }

  /** No wake-up is lost: with nobody between list and semaphore, every queued connection has its permit. */
  lemma NoLostWakeup(run: seq<State>, i: nat)
    requires IsRun(run) && i < |run|
    requires forall t :: t in run[i].pcs ==> !BelongsTo(run[i].pcs[t], Unposted) && !BelongsTo(run[i].pcs[t], Committed)
    ensures run[i].sem == |run[i].queue|
  {
    RunKeepsInv(run, i);
    NoMembers(run[i].pcs, Unposted);
    NoMembers(run[i].pcs, Committed);
  }

  /** The server never deadlocks: some thread can take its next step, unless all are workers
      waiting for an empty queue. (A thread in the accept loop can always accept.) */
  lemma DeadlockFree(run: seq<State>, i: nat)
    requires IsRun(run) && i < |run|
    ensures (exists t :: Enabled(run[i], t)) ||
            (run[i].queue == [] && forall t :: t in run[i].pcs ==> run[i].pcs[t].Waiting?)
  {
    var s := run[i];
    RunKeepsInv(run, i);
    if s.mutex != Free {
      HolderExists(run, i);
      assert Enabled(s, s.mutex.t);
    } else if t :| t in s.pcs && !s.pcs[t].Waiting? {
      assert Enabled(s, t);
    } else {
      NoLostWakeup(run, i);
      if s.queue != [] {
        SomeThread(run, i);
        var t :| t in s.pcs;
        assert Enabled(s, t);
      }
    }
  }

  lemma {:induction false} HolderExists(run: seq<State>, i: nat)
    requires IsRun(run) && i < |run|
    ensures run[i].mutex != Free ==> run[i].mutex.t in run[i].pcs
    ensures run[i].pcs.Keys == run[0].pcs.Keys
  {
    if i > 0 {
      HolderExists(run, i - 1);
      assert Steps(run[i - 1], run[i - 1 + 1]);
    }
  }

  /** Without threads nothing is ever queued. */
  lemma {:induction false} SomeThread(run: seq<State>, i: nat)
    requires IsRun(run) && i < |run| && run[i].queue != []
    ensures exists t :: t in run[i].pcs
  {
    HolderExists(run, i);
    if i > 0 {
      assert Steps(run[i - 1], run[i - 1 + 1]);
      var t, mallocOk :| Enabled(run[i - 1], t) && run[i] == Step(run[i - 1], t, mallocOk);
      assert t in run[i].pcs;
    }
  }

  /** Shutdown while no thread is busy with a connection: after `cleanup_queue` closed what was
      queued, every accepted connection has been closed exactly once. */
  lemma ClosedExactlyOnce(run: seq<State>, i: nat, c: nat)
    requires IsRun(run) && i < |run|
    requires forall t :: t in run[i].pcs ==> !Owns(run[i].pcs[t], c)
    ensures multiset(run[i].closed + run[i].queue)[c] == Flag(c < run[i].accepted)
  {
    RunKeepsInv(run, i);
    NoMembers(run[i].pcs, OwnersOf(c));
    assert Places(run[i], c) == Flag(c < run[i].accepted);
  }

  /** No connection is ever closed twice, and none is handled after it was closed. */
  lemma NeverClosedTwice(run: seq<State>, i: nat, t: Tid, c: nat)
    requires IsRun(run) && i < |run| && t in run[i].pcs && Owns(run[i].pcs[t], c)
    ensures c < run[i].accepted && c !in run[i].closed && c !in run[i].queue
  {
    RunKeepsInv(run, i);
    HasMember(run[i].pcs, t, OwnersOf(c));
    assert Places(run[i], c) <= 1;
  }

  // ----- one accepting thread, as in the server

  predicate IsAcceptor(pc: Pc) {
    pc.Accepting? || pc.Arriving? || pc.Linking? || pc.Linked? || pc.Posting? || pc.Refused? || pc.Rejecting?
  }

  ghost predicate OneAcceptor(s: State) {
    forall t, u :: t in s.pcs && u in s.pcs && IsAcceptor(s.pcs[t]) && IsAcceptor(s.pcs[u]) ==> t == u
  }

  ghost predicate Increasing(q: seq<nat>) {
    forall i, j :: 0 <= i < j < |q| ==> q[i] < q[j]
  }

  /** What is linked is older than what the acceptor still has in its hands. */
  ghost predicate AcceptOrder(s: State) {
    && OneAcceptor(s) && Increasing(s.linked)
    && (forall x :: x in s.linked ==> x < s.accepted)
    && (forall t, x :: t in s.pcs && (s.pcs[t].Arriving? || s.pcs[t].Linking?) && x in s.linked ==> x < s.pcs[t].c)
    && (forall t :: t in s.pcs && (s.pcs[t].Arriving? || s.pcs[t].Linking?) ==> s.pcs[t].c < s.accepted)
  }

  lemma IncreasingAppended(q: seq<nat>, c: nat)
    requires Increasing(q) && forall x :: x in q ==> x < c
    ensures Increasing(q + [c])
  {
    assert forall i :: 0 <= i < |q| ==> q[i] in q;
  }

  lemma LinkKeepsAcceptOrder(s: State, t: Tid, mallocOk: bool)
    requires AcceptOrder(s) && Enabled(s, t) && s.pcs[t].Linking?
    ensures AcceptOrder(Step(s, t, mallocOk))
  {
    IncreasingAppended(s.linked, s.pcs[t].c);
  }

  lemma AcceptKeepsAcceptOrder(s: State, t: Tid, mallocOk: bool)
    requires AcceptOrder(s) && Enabled(s, t) && (s.pcs[t].Accepting? || s.pcs[t].Arriving?)
    ensures AcceptOrder(Step(s, t, mallocOk))
  {
  }

  lemma OthersKeepAcceptOrder(s: State, t: Tid, mallocOk: bool)
    requires AcceptOrder(s) && Enabled(s, t)
    requires !s.pcs[t].Linking? && !s.pcs[t].Accepting? && !s.pcs[t].Arriving?
    ensures AcceptOrder(Step(s, t, mallocOk))
  {
    var s' := Step(s, t, mallocOk);
    assert s'.linked == s.linked && s'.accepted == s.accepted;
    assert !s'.pcs[t].Arriving? && !s'.pcs[t].Linking?;
    assert forall u :: u in s.pcs && u != t ==> s'.pcs[u] == s.pcs[u];
  }

  lemma StepKeepsAcceptOrder(s: State, t: Tid, mallocOk: bool)
    requires AcceptOrder(s) && Enabled(s, t)
    ensures AcceptOrder(Step(s, t, mallocOk))
  {
    if s.pcs[t].Linking? {
      LinkKeepsAcceptOrder(s, t, mallocOk);
    } else if s.pcs[t].Accepting? || s.pcs[t].Arriving? {
      AcceptKeepsAcceptOrder(s, t, mallocOk);
    } else {
      OthersKeepAcceptOrder(s, t, mallocOk);
    }
  }

  lemma {:induction false} RunKeepsAcceptOrder(run: seq<State>, i: nat)
    requires IsRun(run) && i < |run| && OneAcceptor(run[0])
    ensures AcceptOrder(run[i])
  {
    if i > 0 {
      RunKeepsAcceptOrder(run, i - 1);
      assert Steps(run[i - 1], run[i - 1 + 1]);
      var t, mallocOk :| Enabled(run[i - 1], t) && run[i] == Step(run[i - 1], t, mallocOk);
      StepKeepsAcceptOrder(run[i - 1], t, mallocOk);
    }
  }

  /** With one acceptor the connections handed out, followed by those still queued, are the
      connections that were not rejected, in the order in which they were accepted. */
  lemma ServedInAcceptOrder(run: seq<State>, i: nat)
    requires IsRun(run) && i < |run| && OneAcceptor(run[0])
    ensures Increasing(run[i].taken + run[i].queue)
  {
    RunKeepsInv(run, i);
    RunKeepsAcceptOrder(run, i);
  }

  // ----- one connection, undisturbed

  /** `n` steps of thread `t` alone lead from `s` to `s'`. */
  ghost predicate Goes(s: State, t: Tid, mallocOk: bool, n: nat, s': State)
    decreases n
  {
    if n == 0 then s' == s else Enabled(s, t) && Goes(Step(s, t, mallocOk), t, mallocOk, n - 1, s')
  }

  lemma GoesOn(s: State, t: Tid, mallocOk: bool, n: nat, s': State)
    requires Enabled(s, t) && Goes(Step(s, t, mallocOk), t, mallocOk, n, s')
    ensures Goes(s, t, mallocOk, n + 1, s')
  {
  }

  lemma {:induction false} GoesFurther(s: State, t: Tid, mallocOk: bool, n: nat, mid: State, n': nat, s': State)
    requires Goes(s, t, mallocOk, n, mid) && Goes(mid, t, mallocOk, n', s')
    ensures Goes(s, t, mallocOk, n + n', s')
    decreases n
  {
    if n > 0 {
      GoesFurther(Step(s, t, mallocOk), t, mallocOk, n - 1, mid, n', s');
    }
  }

  ghost predicate IsStep(s: State, t: Tid, mallocOk: bool, s': State) {
    Enabled(s, t) && s' == Step(s, t, mallocOk)
  }

  lemma FiveSteps(s: State, t: Tid, mallocOk: bool, s1: State, s2: State, s3: State, s4: State, s5: State)
    requires IsStep(s, t, mallocOk, s1) && IsStep(s1, t, mallocOk, s2) && IsStep(s2, t, mallocOk, s3)
    ensures IsStep(s3, t, mallocOk, s4) && IsStep(s4, t, mallocOk, s5) ==> Goes(s, t, mallocOk, 5, s5)
  {
    if IsStep(s3, t, mallocOk, s4) && IsStep(s4, t, mallocOk, s5) {
      assert Goes(s5, t, mallocOk, 0, s5);
      GoesOn(s4, t, mallocOk, 0, s5);
      GoesOn(s3, t, mallocOk, 1, s5);
      GoesOn(s2, t, mallocOk, 2, s5);
      GoesOn(s1, t, mallocOk, 3, s5);
      GoesOn(s, t, mallocOk, 4, s5);
    }
  }

  /** While there is room an accepted connection is queued last and announced by one permit. */
  lemma AcceptedIsQueued(s: State, t: Tid)
    requires t in s.pcs && s.pcs[t] == Accepting && s.mutex == Free && |s.queue| < s.capacity
    ensures Goes(s, t, true, 5, s.(accepted := s.accepted + 1, queue := s.queue + [s.accepted],
                                   linked := s.linked + [s.accepted], sem := s.sem + 1))
  {
    var c := s.accepted;
    var s3 := s.(accepted := c + 1, mutex := HeldBy(t), queue := s.queue + [c], linked := s.linked + [c],
                 pcs := s.pcs[t := Linked(c)]);
    var s5 := s.(accepted := c + 1, queue := s.queue + [c], linked := s.linked + [c], sem := s.sem + 1);
    AcceptedLinks(s, t, s3);
    assert s3.pcs[t := Accepting] == s5.pcs;
    LinkedPosts(s3, t, c, s5);
    GoesFurther(s, t, true, 3, s3, 2, s5);
  }

  lemma AcceptedLinks(s: State, t: Tid, s3: State)
    requires t in s.pcs && s.pcs[t] == Accepting && s.mutex == Free && |s.queue| < s.capacity
    requires s3 == s.(accepted := s.accepted + 1, mutex := HeldBy(t), queue := s.queue + [s.accepted],
                      linked := s.linked + [s.accepted], pcs := s.pcs[t := Linked(s.accepted)])
    ensures Goes(s, t, true, 3, s3)
  {
    var c := s.accepted;
    var s1 := s.(accepted := c + 1, pcs := s.pcs[t := Arriving(c)]);
    var s2 := s1.(mutex := HeldBy(t), pcs := s.pcs[t := Linking(c)]);
    assert s1.pcs[t := Linking(c)] == s2.pcs && s2.pcs[t := Linked(c)] == s3.pcs;
    assert Goes(s3, t, true, 0, s3);
    GoesOn(s2, t, true, 0, s3);
    GoesOn(s1, t, true, 1, s3);
    GoesOn(s, t, true, 2, s3);
  }

  lemma LinkedPosts(s: State, t: Tid, c: nat, s2: State)
    requires t in s.pcs && s.pcs[t] == Linked(c)
    requires s2 == s.(mutex := Free, sem := s.sem + 1, pcs := s.pcs[t := Accepting])
    ensures Goes(s, t, true, 2, s2)
  {
    var s1 := s.(mutex := Free, pcs := s.pcs[t := Posting(c)]);
    assert s1.pcs[t := Accepting] == s2.pcs;
    assert Goes(s2, t, true, 0, s2);
    GoesOn(s1, t, true, 0, s2);
    GoesOn(s, t, true, 1, s2);
  }

  /** Without room, or without a node, it is closed at once, and nothing else changes. */
  lemma AcceptedIsRefused(s: State, t: Tid, mallocOk: bool)
    requires t in s.pcs && s.pcs[t] == Accepting && s.mutex == Free && (|s.queue| >= s.capacity || !mallocOk)
    ensures Goes(s, t, mallocOk, 5, s.(accepted := s.accepted + 1, closed := s.closed + [s.accepted]))
  {
    var c := s.accepted;
    var s1 := s.(accepted := c + 1, pcs := s.pcs[t := Arriving(c)]);
    var s2 := s1.(mutex := HeldBy(t), pcs := s.pcs[t := Linking(c)]);
    var s3 := s2.(pcs := s.pcs[t := Refused(c)]);
    var s4 := s3.(mutex := Free, pcs := s.pcs[t := Rejecting(c)]);
    var s5 := s4.(closed := s.closed + [c], pcs := s.pcs[t := Accepting]);
    assert s.pcs[t := Accepting] == s.pcs;
    assert s1.pcs[t := Linking(c)] == s2.pcs && s2.pcs[t := Refused(c)] == s3.pcs;
    assert s3.pcs[t := Rejecting(c)] == s4.pcs && s4.pcs[t := Accepting] == s5.pcs;
    FiveSteps(s, t, mallocOk, s1, s2, s3, s4, s5);
  }

  /** A worker uses up one permit, takes the oldest connection, and closes it when it has handled it. */
  lemma QueuedIsServed(s: State, t: Tid, mallocOk: bool)
    requires t in s.pcs && s.pcs[t] == Waiting && s.mutex == Free && s.sem > 0 && s.queue != []
    ensures Goes(s, t, mallocOk, 5, s.(sem := s.sem - 1, queue := s.queue[1..], taken := s.taken + [s.queue[0]],
                                       closed := s.closed + [s.queue[0]]))
  {
    var c := s.queue[0];
    var s1 := s.(sem := s.sem - 1, pcs := s.pcs[t := Passed]);
    var s2 := s1.(mutex := HeldBy(t), pcs := s.pcs[t := Taking]);
    var s3 := s2.(queue := s.queue[1..], taken := s.taken + [c], pcs := s.pcs[t := Took(c)]);
    var s4 := s3.(mutex := Free, pcs := s.pcs[t := Handling(c)]);
    var s5 := s4.(closed := s.closed + [c], pcs := s.pcs[t := Waiting]);
    assert s.pcs[t := Waiting] == s.pcs;
    assert s1.pcs[t := Taking] == s2.pcs && s2.pcs[t := Took(c)] == s3.pcs;
    assert s3.pcs[t := Handling(c)] == s4.pcs && s4.pcs[t := Waiting] == s5.pcs;
    FiveSteps(s, t, mallocOk, s1, s2, s3, s4, s5);
  }

  // ----- the steps on the linked queue

  function FdsOf(queue: seq<nat>, fdOf: nat -> int): seq<int> {
    seq(|queue|, i requires 0 <= i < |queue| => fdOf(queue[i]))
  }

  /** The nodes of `q` hold the descriptors of the connections queued in `s`. */
  ghost predicate Represents(q: ThreadQueue, s: State, fdOf: nat -> int)
    reads q, q.nodes
  {
    q.Valid() && q.capacity == s.capacity && q.Contents() == FdsOf(s.queue, fdOf)
  }

  /** The locked part of `enqueue` on the nodes is the step that links a connection, or refuses it. */
  method LinkOnNodes(q: ThreadQueue, fd: int, mallocOk: bool, ghost s: State, ghost t: Tid, ghost fdOf: nat -> int)
    returns (status: int)
    requires Represents(q, s, fdOf) && Enabled(s, t) && s.pcs[t].Linking? && fd == fdOf(s.pcs[t].c)
    modifies q`front, q`rear, q`size, q`nodes, q.nodes
    ensures Represents(q, Step(s, t, mallocOk), fdOf)
    ensures status == 0 <==> |s.queue| < s.capacity && mallocOk
    ensures Step(s, t, mallocOk).pcs[t] == if status == 0 then Linked(s.pcs[t].c) else Refused(s.pcs[t].c)
  {
    status := q.Enqueue(fd, mallocOk);
    assert FdsOf(s.queue + [s.pcs[t].c], fdOf) == FdsOf(s.queue, fdOf) + [fd];
  }

  /** The locked part of `dequeue` on the nodes is the step that takes the oldest connection, or finds none. */
  method TakeFromNodes(q: ThreadQueue, ghost s: State, ghost t: Tid, ghost fdOf: nat -> int)
    returns (status: int, fd: int)
    requires Represents(q, s, fdOf) && Enabled(s, t) && s.pcs[t].Taking?
    modifies q`front, q`rear, q`size, q`nodes, q`freed
    ensures Represents(q, Step(s, t, true), fdOf)
    ensures match Step(s, t, true).pcs[t]
            case Took(c) => status == 0 && fd == fdOf(c)
            case FoundEmpty => status == -1
            case _ => false
  {
    status, fd := q.Dequeue();
    assert s.queue != [] ==> FdsOf(s.queue[1..], fdOf) == FdsOf(s.queue, fdOf)[1..];
  }
}
