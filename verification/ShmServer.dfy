/** The server of the shared-memory chat: its own table of users, the table of names that it
    publishes for the clients, and the history, each with its own counter. */
module ShmServer {
  import opened Arrays
  import opened CStrings
  import opened ShmRing

  const HISTORY_SIZE := 100
  const USERS_MAX := 10
  const MAX_NAME := 20

  datatype User = User(name: string, pid: int)

  /** users[..active_users], the shared users[..users_count], and the messages in the history. */
  datatype Tables = Tables(users: seq<User>, names: seq<string>, history: seq<Message>)

  const START := Tables([], [], [])

  // ----- the handlers as functions

  /** The first user with that process id, or |users|. */
  function IndexOf(users: seq<User>, pid: int): (i: nat)
    ensures i <= |users|
    ensures forall k :: 0 <= k < i ==> users[k].pid != pid
    ensures i < |users| ==> users[i].pid == pid
  {
    if users == [] || users[0].pid == pid then 0 else 1 + IndexOf(users[1..], pid)
  }

  /** One turn of the loop. The two tables are changed by separate statements: the local one
      under its own counter, the shared one under the shared counter. */
  function Handle(t: Tables, m: Message): Tables {
    match m.kind
    case NewUser =>
      if |t.users| < USERS_MAX
      then Tables(t.users + [User(Truncate(m.username, MAX_NAME), m.pid)], t.names + [Truncate(m.username, MAX_NAME)],
                  AppendWithin(t.history, m, HISTORY_SIZE))
      else t
    case NewMessage => t.(history := AppendWithin(t.history, m, HISTORY_SIZE))
    case UserLeft =>
      var i := IndexOf(t.users, m.pid);
      if i < |t.users|
      then Tables(Without(t.users, i), if i < |t.names| then Without(t.names, i) else t.names,
                  AppendWithin(t.history, m, HISTORY_SIZE))
      else t
  }

  function Run(ms: seq<Message>): Tables {
    if ms == [] then START else Handle(Run(ms[..|ms| - 1]), ms[|ms| - 1])
  }

  // ----- the tables stay in step

  /** Both tables have the same length, at most ten, and the same name at every index. */
  ghost predicate InStep(t: Tables) {
    && |t.users| == |t.names| <= USERS_MAX && |t.history| <= HISTORY_SIZE
    && forall i :: 0 <= i < |t.users| ==> t.users[i].name == t.names[i]
  }

  lemma WithoutInStep(t: Tables, i: nat)
    requires InStep(t) && i < |t.users|
    ensures InStep(t.(users := Without(t.users, i), names := Without(t.names, i)))
  {
  }

  /** Whoever joins or leaves, twice or under any process id, the tables stay in step. */
  lemma {:induction false} RunInStep(ms: seq<Message>)
    ensures InStep(Run(ms))
  {
    if ms != [] {
      RunInStep(ms[..|ms| - 1]);
      var t, m := Run(ms[..|ms| - 1]), ms[|ms| - 1];
      if m.kind == UserLeft && IndexOf(t.users, m.pid) < |t.users| {
        WithoutInStep(t, IndexOf(t.users, m.pid));
      }
    }
  }

  /** A leave takes the user that joined under its process id out of both tables again. */
  lemma LeaveUndoesJoin(t: Tables, joined: Message, left: Message)
    requires InStep(t) && joined.kind == NewUser && left.kind == UserLeft && joined.pid == left.pid
    requires |t.users| < USERS_MAX && IndexOf(t.users, joined.pid) == |t.users|
    ensures var r := Handle(Handle(t, joined), left); r.users == t.users && r.names == t.names
  {
    var t1 := Handle(t, joined);
    assert t1.users[|t.users|].pid == joined.pid;
    assert forall k :: 0 <= k < |t.users| ==> t1.users[k] == t.users[k];
    assert IndexOf(t1.users, joined.pid) == |t.users|;
  }

  // ----- the handlers on the arrays

  class Server {
    var users: array<User>
    var activeUsers: nat
    // the shared memory
    var names: array<string>
    var usersCount: nat
    var history: array<Slot>
    var currentPos: nat
    var historyCount: nat

    /** The counters agree and the ring holds its messages front to back, without ever wrapping over them. */
    ghost predicate Ok(t: Tables)
      reads this, users, names, history
    {
      && users.Length == USERS_MAX && names.Length == USERS_MAX && history.Length == HISTORY_SIZE
      && activeUsers <= USERS_MAX && usersCount <= USERS_MAX && historyCount <= HISTORY_SIZE
      && users[..activeUsers] == t.users && names[..usersCount] == t.names && InStep(t)
      && historyCount == |t.history| && currentPos == historyCount % HISTORY_SIZE
      && forall i :: 0 <= i < historyCount ==> history[i] == Whole(t.history[i])
    }

    constructor ()
      ensures Ok(START) && fresh(users) && fresh(names) && fresh(history)
    {
      users := new User[USERS_MAX](_ => User("", 0));
      names := new string[USERS_MAX](_ => "");
      history := new Slot[HISTORY_SIZE](_ => Blank);
      activeUsers, usersCount, currentPos, historyCount := 0, 0, 0, 0;
    }

    method Record(m: Message, ghost t: Tables)
      requires Ok(t)
      modifies history, this`currentPos, this`historyCount
      ensures Ok(t.(history := AppendWithin(t.history, m, HISTORY_SIZE)))
    {
      if historyCount >= HISTORY_SIZE {
        return;
      }
      history[currentPos] := Whole(m);
      currentPos := (currentPos + 1) % HISTORY_SIZE;
      if historyCount < HISTORY_SIZE {
        historyCount := historyCount + 1;
      }
    }

    method FindUser(pid: int, ghost t: Tables) returns (i: int)
      requires Ok(t)
      ensures i == if IndexOf(t.users, pid) < |t.users| then IndexOf(t.users, pid) else -1
    {
      i := 0;
      while i < activeUsers
        invariant 0 <= i <= activeUsers
        invariant forall k :: 0 <= k < i ==> t.users[k].pid != pid
      {
        assert users[i] == t.users[i];
        if users[i].pid == pid {
          return;
        }
        i := i + 1;
      }
      i := -1;
    }

    method Join(m: Message, ghost t: Tables)
      requires Ok(t) && m.kind == NewUser
      modifies this, users, names, history
      ensures users == old(users) && names == old(names) && history == old(history)
      ensures Ok(Handle(t, m))
    {
      if activeUsers < USERS_MAX {
        users[activeUsers] := User(Truncate(m.username, MAX_NAME), m.pid);
        names[usersCount] := Truncate(m.username, MAX_NAME);
        usersCount := usersCount + 1;
        activeUsers := activeUsers + 1;
        ghost var t1 := t.(users := t.users + [User(Truncate(m.username, MAX_NAME), m.pid)],
                           names := t.names + [Truncate(m.username, MAX_NAME)]);
        assert users[..activeUsers] == t1.users && names[..usersCount] == t1.names;
        Record(m, t1);
      }
    }

    method Leave(m: Message, ghost t: Tables)
      requires Ok(t) && m.kind == UserLeft
      modifies this, users, names, history
      ensures users == old(users) && names == old(names) && history == old(history)
      ensures Ok(Handle(t, m))
    {
      var idx := FindUser(m.pid, t);
      if idx != -1 {
        ShiftOver(users, idx, activeUsers);
        activeUsers := activeUsers - 1;
        ShiftOver(names, idx, usersCount);
        usersCount := usersCount - 1;
        WithoutInStep(t, idx);
        Record(m, t.(users := Without(t.users, idx), names := Without(t.names, idx)));
      }
    }

    /** The switch in `main`. */
    method HandleMessage(m: Message, ghost t: Tables)
      requires Ok(t)
      modifies this, users, names, history
      ensures users == old(users) && names == old(names) && history == old(history)
      ensures Ok(Handle(t, m))
    {
      match m.kind {
        case NewUser => Join(m, t);
        case NewMessage => Record(m, t);
        case UserLeft => Leave(m, t);
      }
    }
  }

  // ----- the server is the writer of the ring

  /** What `Record` does in one go, the writer's steps do one by one. */
  lemma WriterStepsRecord(s: State, m: Message)
    requires WriterInv(s) && s.writer == Idle && Size(s) == HISTORY_SIZE
    ensures var s1 := WriterStep(s, m);
            if |s.accepted| >= HISTORY_SIZE then s1 == s
            else
              && s1.currentPos < Size(s1) && WriterStep(s1, m).currentPos < Size(s1)
              && WriterStep(WriterStep(s1, m), m).currentPos < Size(s1)
              && var s4 := WriterStep(WriterStep(WriterStep(s1, m), m), m);
                 && s4.writer == Idle && s4.accepted == AppendWithin(s.accepted, m, HISTORY_SIZE)
                 && s4.historyCount == |s4.accepted| && s4.currentPos == Position(|s4.accepted|, HISTORY_SIZE)
                 && s4.slots == s.slots[|s.accepted| := Whole(m)]
  {
    if |s.accepted| < HISTORY_SIZE {
      NextPosition(s.currentPos, Size(s));
    }
  }
}
