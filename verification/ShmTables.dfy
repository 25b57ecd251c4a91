/** What the shared-memory chat's tables and history hold after any run of messages. */
module ShmTables {
  import opened Arrays
  import opened CStrings
  import opened ShmRing
  import opened ShmServer

  /** What the server takes notice of: every message, a join that finds room, a leave of a present user. */
  predicate Accepts(t: Tables, m: Message) {
    match m.kind
    case NewUser => |t.users| < 10
    case NewMessage => true
    case UserLeft => exists k :: 0 <= k < |t.users| && t.users[k].pid == m.pid
  }

  function Accepted(ms: seq<Message>): seq<Message> {
    if ms == [] then []
    else
      var before, m := ms[..|ms| - 1], ms[|ms| - 1];
      Accepted(before) + if Accepts(Run(before), m) then [m] else []
  }

  /** The history is the first hundred messages that were accepted. */
  lemma {:induction false} HistoryIsAccepted(ms: seq<Message>)
    ensures Run(ms).history == if |Accepted(ms)| <= 100 then Accepted(ms) else Accepted(ms)[..100]
  {
    if ms != [] {
      HistoryIsAccepted(ms[..|ms| - 1]);
    }
  }

  /** Message `i` is a join that found room. */
  predicate Enters(ms: seq<Message>, i: int) {
    0 <= i < |ms| && ms[i].kind == NewUser && |Run(ms[..i]).users| < 10
  }

  function CountPid(users: seq<User>, pid: int): nat {
    if users == [] then 0
    else CountPid(users[..|users| - 1], pid) + if users[|users| - 1].pid == pid then 1 else 0
  }

  /** The leaves of `pid` from position `from` on. */
  function LeavesFrom(ms: seq<Message>, from: nat, pid: int): nat {
    if |ms| <= from then 0
    else
      var m := ms[|ms| - 1];
      LeavesFrom(ms[..|ms| - 1], from, pid) + if m.kind == UserLeft && m.pid == pid then 1 else 0
  }

  /** A process that joined `n` times has `n` entries, and its leaves take them out oldest first: the
      entry of join `i` stays while there were fewer leaves than entries up to its own. */
  predicate Stays(ms: seq<Message>, i: nat)
    requires i < |ms|
  {
    LeavesFrom(ms, i + 1, ms[i].pid) < CountPid(Run(ms[..i + 1]).users, ms[i].pid)
  }

  /** A name as it is stored. */
  predicate StoredAs(name: string, stored: string) {
    stored == if |name| < 20 then name else name[..19]
  }

  // ----- entries and the joins that made them

  /** Entry `u` was made by message `i`. */
  ghost predicate MadeBy(ms: seq<Message>, u: User, i: int) {
    Enters(ms, i) && u.pid == ms[i].pid && StoredAs(ms[i].username, u.name)
  }

  ghost predicate Increasing(at: seq<nat>) {
    forall j, k :: 0 <= j < k < |at| ==> at[j] < at[k]
  }

  function Users(ms: seq<Message>): seq<User> { Run(ms).users }

  /** Entry `u` was made by message `i`, and is number `rank` of its process, counted from 1: every
      leave of the process takes one entry in front away. */
  ghost predicate Ranked(ms: seq<Message>, u: User, i: int, rank: int) {
    MadeBy(ms, u, i) && LeavesFrom(ms, i + 1, u.pid) + rank == CountPid(Users(ms[..i + 1]), u.pid)
  }

  function Rank(users: seq<User>, k: nat): nat
    requires k < |users|
  {
    CountPid(users[..k + 1], users[k].pid)
  }

  /** The entries `users` are those of the joins `at`, in order. */
  ghost predicate Entries(ms: seq<Message>, users: seq<User>, at: seq<nat>) {
    && |at| == |users| && Increasing(at)
    && forall k {:trigger Ranked(ms, users[k], at[k], Rank(users, k))} ::
         0 <= k < |at| ==> Ranked(ms, users[k], at[k], Rank(users, k))
  }

  /** And of no other joins that stay. */
  ghost predicate Complete(ms: seq<Message>, at: seq<nat>) {
    forall i :: Enters(ms, i) ==> (i in at <==> Stays(ms, i))
  }

  predicate IsLeave(m: Message, pid: int) {
    m.kind == UserLeft && m.pid == pid
  }

  function Flag(b: bool): int { if b then 1 else 0 }

  // ----- one more message

  /** What one more message changes about an earlier join. */
  lemma {:induction false} EarlierJoin(before: seq<Message>, m: Message, i: nat)
    requires i < |before|
    ensures var all := before + [m];
            && all[..i + 1] == before[..i + 1] && all[i] == before[i]
            && (Enters(all, i) <==> Enters(before, i))
            && LeavesFrom(all, i + 1, all[i].pid) ==
               LeavesFrom(before, i + 1, all[i].pid) + Flag(IsLeave(m, all[i].pid))
  {
    var all := before + [m];
    assert all[..|before|] == before && all[..i] == before[..i];
  }

  lemma {:induction false} LastEnters(before: seq<Message>, m: Message)
    ensures var all := before + [m];
            && all[..|before|] == before && all[|before|] == m && all[..|before| + 1] == all
            && (Enters(all, |before|) <==> m.kind == NewUser && |Run(before).users| < 10)
            && Run(all) == Handle(Run(before), m)
            && LeavesFrom(all, |all|, m.pid) == 0
  {
    var all := before + [m];
    assert all[..|before|] == before && all[..|before| + 1] == all;
  }

  lemma {:induction false} EntryKept(before: seq<Message>, m: Message, u: User, i: int, rank: int)
    requires Ranked(before, u, i, rank)
    ensures Ranked(before + [m], u, i, rank - Flag(IsLeave(m, u.pid)))
  {
    EarlierJoin(before, m, i);
  }

  lemma {:induction false} StaysBefore(before: seq<Message>, m: Message, i: int)
    requires Enters(before + [m], i) && i < |before|
    ensures Enters(before, i)
    ensures IsLeave(m, before[i].pid) || (Stays(before + [m], i) <==> Stays(before, i))
    ensures !Stays(before, i) ==> !Stays(before + [m], i)
  {
    EarlierJoin(before, m, i);
  }

  /** An entry is gone exactly when its rank is used up. */
  lemma {:induction false} RankedStays(ms: seq<Message>, u: User, i: int, rank: int)
    requires Ranked(ms, u, i, rank)
    ensures 0 <= i < |ms| && Enters(ms, i) && (Stays(ms, i) <==> rank > 0)
  {
  }

  // ----- counting entries

  lemma {:induction false} CountPidAppended(users: seq<User>, u: User, pid: int)
    ensures CountPid(users + [u], pid) == CountPid(users, pid) + if u.pid == pid then 1 else 0
  {
    assert (users + [u])[..|users|] == users;
  }

  lemma {:induction false} CountPidZero(users: seq<User>, pid: int)
    ensures CountPid(users, pid) == 0 <==> forall k :: 0 <= k < |users| ==> users[k].pid != pid
  {
    if users != [] {
      CountPidZero(users[..|users| - 1], pid);
      assert forall k :: 0 <= k < |users| - 1 ==> users[..|users| - 1][k] == users[k];
    }
  }

  lemma {:induction false} CountPidConcat(a: seq<User>, b: seq<User>, pid: int)
    ensures CountPid(a + b, pid) == CountPid(a, pid) + CountPid(b, pid)
  {
    if b == [] {
      assert a + b == a;
    } else {
      assert (a + b)[..|a + b| - 1] == a + b[..|b| - 1];
      CountPidConcat(a, b[..|b| - 1], pid);
    }
  }

  lemma CountPidWithout(users: seq<User>, idx: nat, k: nat, pid: int)
    requires idx < k <= |users|
    ensures CountPid(Without(users, idx)[..k - 1], pid) == CountPid(users[..k], pid) - Flag(users[idx].pid == pid)
  {
    var a, u, b := users[..idx], users[idx], users[idx + 1..k];
    assert Without(users, idx)[..k - 1] == a + b && users[..k] == a + [u] + b;
    CountPidConcat(a, b, pid);
    CountPidConcat(a + [u], b, pid);
    CountPidAppended(a, u, pid);
  }

  /** The entry that a leave takes out is the first of its pid, and the only one of rank 1. */
  lemma RankOne(users: seq<User>, pid: int, k: nat)
    requires IndexOf(users, pid) < |users| && k < |users| && users[k].pid == pid
    ensures Rank(users, k) >= 1 && (Rank(users, k) == 1 <==> k == IndexOf(users, pid))
  {
    var idx := IndexOf(users, pid);
    assert users[..k + 1][..k] == users[..k];
    CountPidZero(users[..k], pid);
    if k != idx {
      assert users[..k][idx].pid == pid;
    }
  }

  lemma RankAppended(users: seq<User>, u: User, k: nat)
    requires k < |users|
    ensures Rank(users + [u], k) == Rank(users, k)
  {
    assert (users + [u])[..k + 1] == users[..k + 1];
  }

  lemma RankAfterLeave(users: seq<User>, pid: int, k: nat, was: nat)
    requires IndexOf(users, pid) < |users| && k < |users| - 1
    requires was == if k < IndexOf(users, pid) then k else k + 1
    ensures var users' := Without(users, IndexOf(users, pid));
            users'[k] == users[was] && Rank(users', k) == Rank(users, was) - Flag(users[was].pid == pid)
  {
    if k < IndexOf(users, pid) {
      assert Without(users, IndexOf(users, pid))[..k + 1] == users[..k + 1];
    } else {
      CountPidWithout(users, IndexOf(users, pid), was + 1, users[was].pid);
    }
  }

  // ----- a message that leaves the users alone

  lemma {:induction false} EntriesKept(before: seq<Message>, m: Message, users: seq<User>, at: seq<nat>)
    requires Entries(before, users, at) && forall k :: 0 <= k < |users| ==> !IsLeave(m, users[k].pid)
    ensures Entries(before + [m], users, at)
  {
    forall k | 0 <= k < |at| ensures Ranked(before + [m], users[k], at[k], Rank(users, k)) {
      EntryKept(before, m, users[k], at[k], Rank(users, k));
    }
  }

  lemma {:induction false} ListedAt(ms: seq<Message>, users: seq<User>, at: seq<nat>, i: nat) returns (k: nat)
    requires Entries(ms, users, at) && i in at
    ensures k < |at| && at[k] == i && Ranked(ms, users[k], i, Rank(users, k)) && i < |ms| && users[k].pid == ms[i].pid
  {
    k :| 0 <= k < |at| && at[k] == i;
    assert Ranked(ms, users[k], at[k], Rank(users, k));
  }

  lemma {:induction false} CompleteKept(before: seq<Message>, m: Message, users: seq<User>, at: seq<nat>)
    requires Entries(before, users, at) && Complete(before, at)
    requires forall k :: 0 <= k < |users| ==> !IsLeave(m, users[k].pid)
    requires !Enters(before + [m], |before|)
    ensures Complete(before + [m], at)
  {
    forall i | Enters(before + [m], i) ensures i in at <==> Stays(before + [m], i) {
      StaysBefore(before, m, i);
      if i in at {
        var _ := ListedAt(before, users, at, i);
      }
    }
  }

  // ----- a join

  /** What a join adds to the table, seen from the message that did it. */
  lemma {:induction false} NewEntry(before: seq<Message>, m: Message)
    requires m.kind == NewUser && |Users(before)| < 10
    ensures var u := User(Truncate(m.username, MAX_NAME), m.pid);
            var users := Users(before) + [u];
            && Users(before + [m]) == users
            && Ranked(before + [m], u, |before|, Rank(users, |users| - 1)) && Rank(users, |users| - 1) > 0
  {
    LastEnters(before, m);
    var u := User(Truncate(m.username, MAX_NAME), m.pid);
    var users := Users(before) + [u];
    CountPidAppended(Users(before), u, m.pid);
    assert users[..|users|] == users;
  }

  lemma {:induction false} EntriesJoined(before: seq<Message>, m: Message, users: seq<User>, u: User, at: seq<nat>)
    requires Entries(before, users, at) && m.kind == NewUser
    requires Ranked(before + [m], u, |before|, Rank(users + [u], |users|))
    ensures Entries(before + [m], users + [u], at + [|before|])
  {
    var users', at' := users + [u], at + [|before|];
    forall k | 0 <= k < |at'|
      ensures Ranked(before + [m], users'[k], at'[k], Rank(users', k)) && (k < |at| ==> at[k] < |before|)
    {
      if k < |at| {
        EntryKept(before, m, users[k], at[k], Rank(users, k));
        RankAppended(users, u, k);
      }
    }
  }

  lemma {:induction false} CompleteJoined(before: seq<Message>, m: Message, at: seq<nat>)
    requires Complete(before, at) && m.kind == NewUser && Stays(before + [m], |before|)
    ensures Complete(before + [m], at + [|before|])
  {
    forall i | Enters(before + [m], i) ensures i in at + [|before|] <==> Stays(before + [m], i) {
      if i < |before| {
        StaysBefore(before, m, i);
        assert i in at + [|before|] <==> i in at;
      } else {
        assert (at + [|before|])[|at|] == i;
      }
    }
  }

  // ----- a leave

  lemma InWithout(at: seq<nat>, idx: nat, i: nat)
    requires idx < |at| && forall j, k :: 0 <= j < k < |at| ==> at[j] < at[k]
    ensures i in Without(at, idx) <==> i in at && i != at[idx]
  {
    var rest := Without(at, idx);
    if i in at && i != at[idx] {
      var k :| 0 <= k < |at| && at[k] == i;
      assert rest[if k < idx then k else k - 1] == i;
    }
    if i in rest {
      var k :| 0 <= k < |rest| && rest[k] == i;
      assert at[if k < idx then k else k + 1] == i;
    }
  }

  lemma IncreasingWithout(at: seq<nat>, idx: nat)
    requires Increasing(at) && idx < |at|
    ensures Increasing(Without(at, idx))
  {
  }

  lemma {:induction false} EntryLeft(before: seq<Message>, m: Message, users: seq<User>, i: int, k: nat, was: nat)
    requires was < |users| && Ranked(before, users[was], i, Rank(users, was))
    ensures m.kind == UserLeft && IndexOf(users, m.pid) < |users| && k < |users| - 1 &&
            was == (if k < IndexOf(users, m.pid) then k else k + 1) ==>
              var users' := Without(users, IndexOf(users, m.pid)); Ranked(before + [m], users'[k], i, Rank(users', k))
  {
    EntryKept(before, m, users[was], i, Rank(users, was));
    if IndexOf(users, m.pid) < |users| && k < |users| - 1 && was == if k < IndexOf(users, m.pid) then k else k + 1 {
      RankAfterLeave(users, m.pid, k, was);
    }
  }

  lemma {:induction false} EntriesLeft(before: seq<Message>, m: Message, users: seq<User>, at: seq<nat>)
    requires Entries(before, users, at)
    ensures m.kind == UserLeft && IndexOf(users, m.pid) < |users| ==>
              Entries(before + [m], Without(users, IndexOf(users, m.pid)), Without(at, IndexOf(users, m.pid)))
  {
    var idx := IndexOf(users, m.pid);
    if m.kind == UserLeft && idx < |users| {
      var users', at' := Without(users, idx), Without(at, idx);
      IncreasingWithout(at, idx);
      forall k | 0 <= k < |at'| ensures Ranked(before + [m], users'[k], at'[k], Rank(users', k)) {
        var was := if k < idx then k else k + 1;
        assert at'[k] == at[was] && Ranked(before, users[was], at[was], Rank(users, was));
        EntryLeft(before, m, users, at[was], k, was);
      }
    }
  }

  /** A listed join stays, unless it is the one that the leave takes out. */
  lemma {:induction false} ListedStays(before: seq<Message>, m: Message, users: seq<User>, k: nat, i: nat)
    requires k < |users| && i < |before| && Ranked(before, users[k], i, Rank(users, k))
    ensures m.kind == UserLeft && IndexOf(users, m.pid) < |users| ==>
              (Stays(before + [m], i) <==> k != IndexOf(users, m.pid))
  {
    EntryKept(before, m, users[k], i, Rank(users, k));
    RankedStays(before + [m], users[k], i, Rank(users, k) - Flag(IsLeave(m, users[k].pid)));
    RankOne(users, users[k].pid, k);
  }

  lemma {:induction false} CompleteLeft(before: seq<Message>, m: Message, users: seq<User>, at: seq<nat>)
    requires Entries(before, users, at) && Complete(before, at)
    ensures m.kind == UserLeft && IndexOf(users, m.pid) < |users| ==>
              Complete(before + [m], Without(at, IndexOf(users, m.pid)))
  {
    var idx := IndexOf(users, m.pid);
    if m.kind == UserLeft && idx < |users| {
      LastEnters(before, m);
      forall i | Enters(before + [m], i) ensures i in Without(at, idx) <==> Stays(before + [m], i) {
        StaysBefore(before, m, i);
        InWithout(at, idx, i);
        if i in at {
          var k := ListedAt(before, users, at, i);
          ListedStays(before, m, users, k, i);
          assert k != idx ==> at[k] != at[idx];
        }
      }
    }
  }

  // ----- any run

  lemma {:induction false} StepTracked(before: seq<Message>, m: Message, at: seq<nat>) returns (at': seq<nat>)
    requires Entries(before, Users(before), at) && Complete(before, at)
    ensures Entries(before + [m], Users(before + [m]), at') && Complete(before + [m], at')
  {
    var users := Users(before);
    LastEnters(before, m);
    if m.kind == NewUser && |users| < 10 {
      NewEntry(before, m);
      var u := User(Truncate(m.username, MAX_NAME), m.pid);
      EntriesJoined(before, m, users, u, at);
      RankedStays(before + [m], u, |before|, Rank(users + [u], |users|));
      CompleteJoined(before, m, at);
      at' := at + [|before|];
    } else if m.kind == UserLeft && IndexOf(users, m.pid) < |users| {
      EntriesLeft(before, m, users, at);
      CompleteLeft(before, m, users, at);
      at' := Without(at, IndexOf(users, m.pid));
    } else {
      EntriesKept(before, m, users, at);
      CompleteKept(before, m, users, at);
      at' := at;
    }
  }

  lemma {:induction false} EntriesTracked(ms: seq<Message>) returns (at: seq<nat>)
    ensures Entries(ms, Users(ms), at) && Complete(ms, at)
    decreases |ms|
  {
    if ms == [] {
      at := [];
    } else {
      at := EntriesTracked(ms[..|ms| - 1]);
      assert ms[..|ms| - 1] + [ms[|ms| - 1]] == ms;
      at := StepTracked(ms[..|ms| - 1], ms[|ms| - 1], at);
    }
  }

  /** Over any run both tables list, in order, the joins that found room and were not taken out by a
      leave of their process since, each with its name as stored and, locally, its process id. */
  lemma {:induction false} TablesListJoins(ms: seq<Message>) returns (at: seq<nat>)
    ensures |Run(ms).users| == |Run(ms).names| == |at|
    ensures forall j, k :: 0 <= j < k < |at| ==> at[j] < at[k]
    ensures forall k :: 0 <= k < |at| ==>
              && Enters(ms, at[k]) && Run(ms).users[k].pid == ms[at[k]].pid
              && Run(ms).users[k].name == Run(ms).names[k] && StoredAs(ms[at[k]].username, Run(ms).names[k])
    ensures forall i :: Enters(ms, i) ==> (i in at <==> Stays(ms, i))
  {
    at := EntriesTracked(ms);
    RunInStep(ms);
    forall k | 0 <= k < |at| ensures MadeBy(ms, Run(ms).users[k], at[k]) {
      assert Ranked(ms, Users(ms)[k], at[k], Rank(Users(ms), k));
    }
  }

  /** For a process that was not present when it joined: its entry stays until its first leave. */
  lemma {:induction false} StaysUntilLeave(ms: seq<Message>, i: nat)
    requires Enters(ms, i) && forall k :: 0 <= k < |Run(ms[..i]).users| ==> Run(ms[..i]).users[k].pid != ms[i].pid
    ensures Stays(ms, i) <==> forall j :: i < j < |ms| ==> !IsLeave(ms[j], ms[i].pid)
  {
    var users := Users(ms[..i]);
    NewEntry(ms[..i], ms[i]);
    assert ms[..i] + [ms[i]] == ms[..i + 1];
    CountPidZero(users, ms[i].pid);
    CountPidAppended(users, User(Truncate(ms[i].username, MAX_NAME), ms[i].pid), ms[i].pid);
    NoLeaves(ms, i + 1, ms[i].pid);
  }

  lemma {:induction false} NoLeaves(ms: seq<Message>, from: nat, pid: int)
    ensures LeavesFrom(ms, from, pid) == 0 <==> forall j :: from <= j < |ms| ==> !IsLeave(ms[j], pid)
  {
    if |ms| > from {
      NoLeaves(ms[..|ms| - 1], from, pid);
      assert forall j :: from <= j < |ms| - 1 ==> ms[..|ms| - 1][j] == ms[j];
    }
  }
}
