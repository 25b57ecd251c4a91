/** The server of the message-queue chat: a bounded history, an array of users and one
    kernel queue per user. Everything ever sent to a queue is kept, read or not. */
module MqServer {
  import opened Arrays
  import opened CStrings
  import opened MqWire
  import opened Options

  const HISTORY_SIZE := 100
  const USERS_MAX := 10
  const NAME_SIZE := 20

  /** An entry of the users array; `mq` is the open queue, not its name. */
  datatype User = User(name: string, mq: nat, pid: int)

  /** `queueOf` is the kernel's name table: the queue called /chat_user_<pid>.
      `sent[q]` is all that was sent to queue `q`, and `since[q]` how long the log was when it was made.
      `log` is every message the server ever broadcast. */
  datatype Server = Server(users: seq<User>, history: seq<string>, queueOf: map<int, nat>,
                           sent: seq<seq<string>>, since: seq<nat>, log: seq<string>)

  const START := Server([], [], map[], [], [], [])

  // ----- the handlers as functions

  function FindUser(users: seq<User>, pid: int): (i: int)
    ensures -1 <= i < |users|
    ensures i >= 0 ==> users[i].pid == pid && forall k :: 0 <= k < i ==> users[k].pid != pid
    ensures i == -1 <==> forall k :: 0 <= k < |users| ==> users[k].pid != pid
  {
    if users == [] then -1
    else if users[0].pid == pid then 0
    else
      var i := FindUser(users[1..], pid);
      if i == -1 then -1 else i + 1
  }

  function SendAll(sent: seq<seq<string>>, q: nat, ms: seq<string>): (r: seq<seq<string>>)
    requires q < |sent|
    ensures |r| == |sent|
  {
    sent[q := sent[q] + ms]
  }

  ghost predicate QueuesExist(users: seq<User>, queues: nat) {
    forall i :: 0 <= i < |users| ==> users[i].mq < queues
  }

  function Broadcast(sent: seq<seq<string>>, users: seq<User>, m: string): (r: seq<seq<string>>)
    requires QueuesExist(users, |sent|)
    ensures |r| == |sent|
  {
    if users == [] then sent
    else SendAll(Broadcast(sent, users[..|users| - 1], m), users[|users| - 1].mq, [m])
  }

  /** add_to_history and the broadcast loop. */
  function Post(s: Server, m: string): Server
    requires QueuesExist(s.users, |s.sent|)
  {
    s.(history := AppendWithin(s.history, m, HISTORY_SIZE), log := s.log + [m], sent := Broadcast(s.sent, s.users, m))
  }

  ghost predicate Valid(s: Server) {
    && |s.users| <= USERS_MAX && |s.history| <= HISTORY_SIZE && |s.since| == |s.sent|
    && QueuesExist(s.users, |s.sent|)
    && forall pid :: pid in s.queueOf ==> s.queueOf[pid] < |s.sent|
  }

  /** mq_open with O_CREAT: the queue of that name, made if there is none. */
  function OpenQueue(s: Server, pid: int): (r: (Server, nat))
    requires Valid(s)
    ensures Valid(r.0) && r.1 < |r.0.sent| && r.0.users == s.users && r.0.history == s.history && r.0.log == s.log
  {
    if pid in s.queueOf then (s, s.queueOf[pid])
    else (s.(queueOf := s.queueOf[pid := |s.sent|], sent := s.sent + [[]], since := s.since + [|s.log|]), |s.sent|)
  }

  function Join(s: Server, name: string, pid: int): (r: Server)
    requires Valid(s)
    ensures Valid(r)
  {
    if |s.users| >= USERS_MAX then s
    else
      var (ready, q) := OpenQueue(s, pid);
      var added := ready.(users := s.users + [User(Truncate(name, NAME_SIZE), q, pid)],
                           sent := SendAll(ready.sent, q, s.history));
      Post(added, Notice(Joined(name, pid)))
  }

  function Say(s: Server, name: string, pid: int, text: string): (r: Server)
    requires Valid(s)
    ensures Valid(r)
  {
    Post(s, Notice(Said(name, pid, text)))
  }

  /** mq_unlink of the queue name of user `i`, and the shift of the array over its entry. */
  function Remove(s: Server, i: nat): (r: Server)
    requires Valid(s) && i < |s.users|
    ensures Valid(r)
  {
    s.(queueOf := s.queueOf - {s.users[i].pid}, users := Without(s.users, i))
  }

  function Leave(s: Server, name: string, pid: int): (r: Server)
    requires Valid(s)
    ensures Valid(r)
  {
    var i := FindUser(s.users, pid);
    if i == -1 then s
    else Post(Remove(s, i), Notice(Left(name, pid)))
  }

  /** One turn of the server's loop. */
  function Handle(s: Server, message: string): (r: Server)
    requires Valid(s)
    ensures Valid(r)
  {
    match Decode(message)
    case None => s
    case Some(Joined(name, pid)) => Join(s, name, pid)
    case Some(Said(name, pid, text)) => Say(s, name, pid, text)
    case Some(Left(name, pid)) => Leave(s, name, pid)
  }

  // ----- every stream is a truncated replay followed by the live log

  /** What a user that joined when the log had length `since` has been sent. */
  function Stream(log: seq<string>, since: nat): seq<string>
    requires since <= |log|
  {
    log[..if since <= HISTORY_SIZE then since else HISTORY_SIZE] + log[since..]
  }

  /** The history is the start of the log, every user has a queue of its own, found under its
      process id, and has been sent exactly its stream. */
  ghost predicate Consistent(s: Server) {
    && Valid(s)
    && s.history == s.log[..if |s.log| <= HISTORY_SIZE then |s.log| else HISTORY_SIZE]
    && StreamsRight(s)
    && Distinct(s.users)
    && (forall pid :: pid in s.queueOf ==> IsUser(s.users, pid))
  }

  /** Every user has been sent exactly its stream. */
  ghost predicate StreamsRight(s: Server) {
    forall i :: 0 <= i < |s.users| ==> HasStream(s, s.users[i])
  }

  ghost predicate Distinct(users: seq<User>) {
    forall i, j :: 0 <= i < j < |users| ==> users[i].mq != users[j].mq && users[i].pid != users[j].pid
  }

  predicate IsUser(users: seq<User>, pid: int) {
    exists i :: 0 <= i < |users| && users[i].pid == pid
  }

  ghost predicate HasStream(s: Server, u: User) {
    && u.mq < |s.sent| == |s.since|
    && u.pid in s.queueOf && s.queueOf[u.pid] == u.mq
    && s.since[u.mq] <= |s.log|
    && s.sent[u.mq] == Stream(s.log, s.since[u.mq])
  }

  lemma {:induction false} BroadcastSendsOnce(sent: seq<seq<string>>, users: seq<User>, m: string, q: nat)
    requires QueuesExist(users, |sent|) && q < |sent|
    requires Distinct(users)
    ensures (exists i :: 0 <= i < |users| && users[i].mq == q) ==> Broadcast(sent, users, m)[q] == sent[q] + [m]
    ensures (forall i :: 0 <= i < |users| ==> users[i].mq != q) ==> Broadcast(sent, users, m)[q] == sent[q]
  {
    if users != [] {
      BroadcastSendsOnce(sent, users[..|users| - 1], m, q);
    }
  }

  lemma StreamGrows(log: seq<string>, since: nat, m: string)
    requires since <= |log|
    ensures Stream(log + [m], since) == Stream(log, since) + [m]
  {
    assert (log + [m])[since..] == log[since..] + [m];
  }

  /** Recording and broadcasting a message extends every stream by it. */
  lemma PostKeepsConsistent(s: Server, m: string)
    requires Consistent(s)
    ensures Consistent(Post(s, m))
  {
    var r := Post(s, m);
    forall i | 0 <= i < |s.users| ensures HasStream(r, s.users[i]) {
      assert HasStream(s, s.users[i]);
      BroadcastSendsOnce(s.sent, s.users, m, s.users[i].mq);
      StreamGrows(s.log, s.since[s.users[i].mq], m);
    }
  }

  /** The state after the history was replayed to a new user, before its arrival is announced. */
  lemma ReplayKeepsConsistent(s: Server, u: User, r: Server)
    requires Consistent(s) && |s.users| < USERS_MAX && !IsUser(s.users, u.pid) && u.mq == |s.sent|
    requires r == s.(queueOf := s.queueOf[u.pid := u.mq], since := s.since + [|s.log|],
                     users := s.users + [u], sent := s.sent + [s.history])
    ensures Consistent(r)
  {
    forall i | 0 <= i < |r.users| ensures HasStream(r, r.users[i]) {
      if i < |s.users| {
        assert HasStream(s, s.users[i]);
      } else {
        assert s.log[|s.log|..] == [];
      }
    }
    forall p | p in r.queueOf ensures IsUser(r.users, p) {
      if p == u.pid {
        assert r.users[|s.users|].pid == p;
      } else {
        var i :| 0 <= i < |s.users| && s.users[i].pid == p;
        assert r.users[i].pid == p;
      }
    }
  }

  lemma JoinKeepsConsistent(s: Server, name: string, pid: int)
    requires Consistent(s) && !IsUser(s.users, pid)
    ensures Consistent(Join(s, name, pid))
  {
    if |s.users| < USERS_MAX {
      assert pid !in s.queueOf;
      var (ready, q) := OpenQueue(s, pid);
      var u := User(Truncate(name, NAME_SIZE), q, pid);
      assert [] + s.history == s.history;
      assert SendAll(ready.sent, q, s.history) == s.sent + [s.history];
      var added := ready.(users := s.users + [u], sent := SendAll(ready.sent, q, s.history));
      ReplayKeepsConsistent(s, u, added);
      PostKeepsConsistent(added, Notice(Joined(name, pid)));
    }
  }

  /** Shifting the array over the entry that leaves keeps every other user with its own stream. */
  lemma RemovalKeepsConsistent(s: Server, i: nat)
    requires Consistent(s) && i < |s.users|
    ensures Consistent(Remove(s, i))
  {
    var r := Remove(s, i);
    RemainingUsers(s.users, i);
    forall k | 0 <= k < |r.users| ensures HasStream(r, r.users[k]) {
      var l := if k < i then k else k + 1;
      assert r.users[k] == s.users[l];
      assert HasStream(s, s.users[l]);
    }
    forall p | p in r.queueOf ensures IsUser(r.users, p) {
      var k :| 0 <= k < |s.users| && s.users[k].pid == p;
      assert s.users[k] in r.users;
    }
  }

  lemma RemainingUsers(users: seq<User>, i: nat)
    requires Distinct(users) && i < |users|
    ensures var r := Without(users, i);
            && Distinct(r)
            && (forall k :: 0 <= k < |r| ==> r[k].pid != users[i].pid)
            && forall k :: 0 <= k < |users| && k != i ==> users[k] in r
  {
    var r := Without(users, i);
    forall k | 0 <= k < |r| ensures r[k] == users[if k < i then k else k + 1] {
    }
    forall k | 0 <= k < |users| && k != i ensures users[k] in r {
      assert users[k] == r[if k < i then k else k - 1];
    }
  }

  lemma LeaveKeepsConsistent(s: Server, name: string, pid: int)
    requires Consistent(s)
    ensures Consistent(Leave(s, name, pid))
  {
    var i := FindUser(s.users, pid);
    if i != -1 {
      RemovalKeepsConsistent(s, i);
      PostKeepsConsistent(Remove(s, i), Notice(Left(name, pid)));
    }
  }

  /** A second join of user `i`: its queue gets the history once more, and the notice twice. */
  lemma RejoinSpoilsStream(s: Server, name: string, pid: int, i: nat)
    requires Consistent(s) && |s.users| < USERS_MAX && i < |s.users| && s.users[i].pid == pid
    ensures var r, q, m := Join(s, name, pid), s.users[i].mq, Notice(Joined(name, pid));
            && r.users[i] == s.users[i] && q < |s.sent| == |r.sent|
            && r.sent[q] == s.sent[q] + s.history + [m, m] && !HasStream(r, r.users[i])
  {
    var r, q, m := Join(s, name, pid), s.users[i].mq, Notice(Joined(name, pid));
    assert HasStream(s, s.users[i]);
    var replayed := SendAll(s.sent, q, s.history);
    var all := s.users + [User(Truncate(name, NAME_SIZE), q, pid)];
    assert all[..|s.users|] == s.users;
    BroadcastSendsOnce(replayed, s.users, m, q);
    assert r.sent[q] == s.sent[q] + s.history + [m] + [m];
    StreamGrows(s.log, s.since[q], m);
  }

  /** Exactly the joins of a process that is already a user spoil a stream: the process shares its
      one queue between two entries, and is sent the history again and everything else twice. */
  lemma JoinConsistentIff(s: Server, name: string, pid: int)
    requires Consistent(s)
    ensures StreamsRight(Join(s, name, pid)) <==> !IsUser(s.users, pid) || |s.users| >= USERS_MAX
    ensures StreamsRight(Join(s, name, pid)) ==> Consistent(Join(s, name, pid))
  {
    if !IsUser(s.users, pid) {
      JoinKeepsConsistent(s, name, pid);
    } else if |s.users| < USERS_MAX {
      var i :| 0 <= i < |s.users| && s.users[i].pid == pid;
      RejoinSpoilsStream(s, name, pid, i);
    }
  }

  /** The one kind of message that spoils a stream. */
  ghost predicate Rejoins(s: Server, message: string) {
    match Decode(message)
    case Some(Joined(_, pid)) => IsUser(s.users, pid) && |s.users| < USERS_MAX
    case _ => false
  }

  /** Any message that has its fields keeps every stream right, unless it is a second join of a present user. */
  lemma HandleConsistentIff(s: Server, message: string)
    requires Consistent(s)
    ensures StreamsRight(Handle(s, message)) <==> !Rejoins(s, message)
    ensures StreamsRight(Handle(s, message)) ==> Consistent(Handle(s, message))
  {
    match Decode(message) {
      case None =>
      case Some(Joined(name, pid)) => JoinConsistentIff(s, name, pid);
      case Some(Said(name, pid, text)) => PostKeepsConsistent(s, Notice(Said(name, pid, text)));
      case Some(Left(name, pid)) => LeaveKeepsConsistent(s, name, pid);
    }
  }

  /** The server after any messages; those of unknown type, or without their fields, change nothing. */
  function Serve(messages: seq<string>): (s: Server)
    ensures Valid(s)
  {
    if messages == [] then START else Handle(Serve(messages[..|messages| - 1]), messages[|messages| - 1])
  }

  ghost predicate NobodyRejoins(messages: seq<string>) {
    messages == [] ||
    var before := messages[..|messages| - 1];
    NobodyRejoins(before) && !Rejoins(Serve(before), messages[|messages| - 1])
  }

  /** In every state of the run. */
  ghost predicate AlwaysRight(messages: seq<string>) {
    StreamsRight(Serve(messages)) && (messages == [] || AlwaysRight(messages[..|messages| - 1]))
  }

  /** Over any run without such a second join: history and streams are what they should be. */
  lemma {:induction false} ServeConsistent(messages: seq<string>)
    requires NobodyRejoins(messages)
    ensures Consistent(Serve(messages))
  {
    if messages != [] {
      var before := messages[..|messages| - 1];
      ServeConsistent(before);
      HandleConsistentIff(Serve(before), messages[|messages| - 1]);
    }
  }

  /** The streams are right throughout a run exactly if no present user joins again in it. */
  lemma {:induction false} AlwaysRightIff(messages: seq<string>)
    ensures AlwaysRight(messages) <==> NobodyRejoins(messages)
  {
    if messages != [] {
      var before := messages[..|messages| - 1];
      AlwaysRightIff(before);
      if NobodyRejoins(before) {
        ServeConsistent(before);
        HandleConsistentIff(Serve(before), messages[|messages| - 1]);
      }
    }
  }

  /** The shortest run that spoils a stream: a process says twice that it joins. */
  lemma RejoinHappens(name: string, pid: int)
    requires WellFormed(Joined(name, pid))
    ensures var m := ClientMessage(Joined(name, pid));
            && Consistent(Serve([m])) && Rejoins(Serve([m]), m) && !StreamsRight(Serve([m, m]))
  {
    var m := ClientMessage(Joined(name, pid));
    DecodeInvertsPrinting(Joined(name, pid));
    FirstJoin(m, name, pid);
    assert [m, m][..1] == [m];
    HandleConsistentIff(Serve([m]), m);
  }

  lemma FirstJoin(m: string, name: string, pid: int)
    requires Decode(m) == Some(Joined(name, pid))
    ensures Consistent(Serve([m])) && IsUser(Serve([m]).users, pid) && |Serve([m]).users| == 1
  {
    assert [m][..0] == [];
    HandleConsistentIff(START, m);
    JoinEmpty(name, pid);
    assert Serve([m]) == Join(START, name, pid);
  }

  lemma JoinEmpty(name: string, pid: int)
    ensures var users := Join(START, name, pid).users; |users| == 1 && users[0].pid == pid && IsUser(users, pid)
  {
    var users := Join(START, name, pid).users;
    assert users == [] + [User(Truncate(name, NAME_SIZE), 0, pid)];
    assert users[0].pid == pid;
  }

  /** The stream is the whole log exactly for those who joined before anything was dropped. */
  lemma StreamIsWholeLog(log: seq<string>, since: nat)
    requires since <= |log|
    ensures Stream(log, since) == log <==> since <= HISTORY_SIZE
  {
    if since <= HISTORY_SIZE {
      assert log[..since] + log[since..] == log;
    } else {
      assert |Stream(log, since)| == HISTORY_SIZE + |log| - since;
    }
  }

  // ----- what one message does, and what a whole run records

  /** What the server takes notice of: every message, a join that finds room, a leave of a present user. */
  predicate Accepts(s: Server, e: Event) {
    match e
    case Joined(_, _) => |s.users| < 10
    case Said(_, _, _) => true
    case Left(_, pid) => exists i :: 0 <= i < |s.users| && s.users[i].pid == pid
  }

  /** The users after an event that was accepted. */
  ghost predicate UsersChange(users: seq<User>, e: Event, users': seq<User>) {
    match e
    case Joined(name, pid) =>
      && |users'| == |users| + 1 && users'[..|users|] == users && users'[|users|].pid == pid
      && users'[|users|].name == if |name| < 20 then name else name[..19]
    case Said(_, _, _) => users' == users
    case Left(_, pid) =>
      exists i :: 0 <= i < |users| && users[i].pid == pid && users' == users[..i] + users[i + 1..]
  }

  /** Every user of before that is still there was sent exactly `m`. */
  ghost predicate SentOnce(s: Server, s': Server, m: string) {
    |s.sent| <= |s'.sent| &&
    forall u :: u in s.users && u in s'.users ==> u.mq < |s.sent| && s'.sent[u.mq] == s.sent[u.mq] + [m]
  }

  /** An event that is not accepted changes nothing. One that is, unless it is a second join, adds one
      message to the log, which reads as the event, and sends just that to everyone who was there and stays. */
  lemma OneMessage(s: Server, e: Event)
    requires Consistent(s) && WellFormed(e) && (e.Joined? ==> !IsUser(s.users, e.pid))
    ensures var s' := Handle(s, ClientMessage(e));
            if Accepts(s, e)
            then && |s'.log| == |s.log| + 1 && s'.log[..|s.log|] == s.log && Decode(s'.log[|s.log|]) == Some(e)
                 && UsersChange(s.users, e, s'.users) && SentOnce(s, s', s'.log[|s.log|])
            else s' == s
  {
    DecodeInvertsPrinting(e);
    var s' := Handle(s, ClientMessage(e));
    if Accepts(s, e) {
      LogGrowsBy(s, e);
      HandleConsistentIff(s, ClientMessage(e));
      StreamsGrowBy(s, s', s'.log[|s.log|]);
    }
  }

  /** In any state, the log grows by the event as it was meant, and the users change as they should. */
  lemma LogGrowsBy(s: Server, e: Event)
    requires Valid(s) && WellFormed(e)
    ensures var s' := Handle(s, ClientMessage(e));
            if Accepts(s, e)
            then && |s'.log| == |s.log| + 1 && s'.log[..|s.log|] == s.log && Decode(s'.log[|s.log|]) == Some(e)
                 && UsersChange(s.users, e, s'.users)
                 && |s.since| <= |s'.since| && s'.since[..|s.since|] == s.since
            else s' == s
  {
    DecodeInvertsPrinting(e);
    assert Accepts(s, e) && e.Left? ==> FindUser(s.users, e.pid) != -1;
  }

  /** If the streams are right before and after, everyone who stays was sent what the log grew by. */
  lemma StreamsGrowBy(s: Server, s': Server, m: string)
    requires Consistent(s) && Consistent(s') && s'.log == s.log + [m]
    requires |s.since| <= |s'.since| && s'.since[..|s.since|] == s.since
    ensures SentOnce(s, s', m)
  {
    forall u | u in s.users && u in s'.users ensures u.mq < |s.sent| && s'.sent[u.mq] == s.sent[u.mq] + [m] {
      var i :| 0 <= i < |s.users| && s.users[i] == u;
      var j :| 0 <= j < |s'.users| && s'.users[j] == u;
      assert HasStream(s, s.users[i]) && HasStream(s', s'.users[j]);
      assert s'.since[u.mq] == s'.since[..|s.since|][u.mq];
      StreamGrows(s.log, s.since[u.mq], m);
    }
  }

  // ----- the handlers on the server's arrays

  class ChatServer {
    var users: array<User>
    var activeUsers: nat
    var history: array<string>
    var historyCount: nat
    // the kernel's side
    var queueOf: map<int, nat>
    var sent: seq<seq<string>>
    ghost var since: seq<nat>
    ghost var log: seq<string>

    ghost predicate Ok()
      reads this, users, history
    {
      && users.Length == USERS_MAX && history.Length == HISTORY_SIZE
      && activeUsers <= USERS_MAX && historyCount <= HISTORY_SIZE
      && Valid(State())
    }

    ghost function State(): Server
      reads this, users, history
      requires activeUsers <= users.Length && historyCount <= history.Length
    {
      Server(users[..activeUsers], history[..historyCount], queueOf, sent, since, log)
    }

    constructor ()
      ensures Ok() && State() == START && fresh(users) && fresh(history)
    {
      users := new User[USERS_MAX](_ => User("", 0, 0));
      history := new string[HISTORY_SIZE](_ => "");
      activeUsers, historyCount, queueOf, sent, since, log := 0, 0, map[], [], [], [];
    }

    method Find(pid: int) returns (i: int)
      requires Ok()
      ensures i == FindUser(users[..activeUsers], pid)
    {
      i := 0;
      while i < activeUsers
        invariant 0 <= i <= activeUsers
        invariant forall k :: 0 <= k < i ==> users[k].pid != pid
      {
        if users[i].pid == pid {
          assert users[..activeUsers][i].pid == pid;
          return;
        }
        i := i + 1;
      }
      i := -1;
    }

    /** mq_send */
    method Send(mq: nat, m: string)
      requires mq < |sent|
      modifies this`sent
      ensures sent == SendAll(old(sent), mq, [m])
    {
      sent := sent[mq := sent[mq] + [m]];
    }

    method RecordAndBroadcast(m: string)
      requires Ok()
      modifies this`sent, this`log, this`historyCount, history
      ensures Ok() && State() == Post(old(State()), m)
    {
      if historyCount < HISTORY_SIZE {
        history[historyCount] := m;
        historyCount := historyCount + 1;
      }
      log := log + [m];
      ghost var sent0, all := sent, users[..activeUsers];
      for i := 0 to activeUsers
        invariant |sent| == |sent0| && sent == Broadcast(sent0, all[..i], m)
        modifies this`sent
      {
        assert all[..i + 1][..i] == all[..i] && all[..i + 1][i] == users[i];
        Send(users[i].mq, m);
      }
      assert all[..activeUsers] == all;
    }

    /** mq_open with O_CREAT */
    method OpenUserQueue(pid: int) returns (userMq: nat)
      requires Ok()
      modifies this`queueOf, this`sent, this`since
      ensures Ok() && (State(), userMq) == OpenQueue(old(State()), pid)
    {
      if pid in queueOf {
        userMq := queueOf[pid];
      } else {
        userMq := |sent|;
        queueOf, sent, since := queueOf[pid := userMq], sent + [[]], since + [|log|];
      }
    }

    /** The loop that sends the whole history to a new user. */
    method Replay(userMq: nat)
      requires historyCount <= history.Length && userMq < |sent|
      modifies this`sent
      ensures sent == SendAll(old(sent), userMq, history[..historyCount])
    {
      ghost var sent0 := sent;
      assert sent0[userMq] + history[..0] == sent0[userMq];
      for i := 0 to historyCount
        invariant |sent| == |sent0| && sent == sent0[userMq := sent0[userMq] + history[..i]]
      {
        assert sent0[userMq] + history[..i + 1] == sent0[userMq] + history[..i] + [history[i]];
        Send(userMq, history[i]);
      }
    }

    /** NEW_USER */
    method HandleJoin(name: string, pid: int)
      requires Ok()
      modifies this, users, history
      ensures users == old(users) && history == old(history)
      ensures Ok() && State() == Join(old(State()), name, pid)
    {
      if activeUsers < USERS_MAX {
        ghost var s := State();
        var userMq := OpenUserQueue(pid);
        users[activeUsers] := User(Truncate(name, NAME_SIZE), userMq, pid);
        activeUsers := activeUsers + 1;
        Replay(userMq);
        assert users[..activeUsers] == s.users + [User(Truncate(name, NAME_SIZE), userMq, pid)];
        RecordAndBroadcast(Notice(Joined(name, pid)));
      }
    }

    /** USER_LEFT */
    method HandleLeave(name: string, pid: int)
      requires Ok()
      modifies this, users, history
      ensures users == old(users) && history == old(history)
      ensures Ok() && State() == Leave(old(State()), name, pid)
    {
      var idx := Find(pid);
      if idx != -1 {
        ghost var s := State();
        queueOf := queueOf - {pid};
        ShiftOver(users, idx, activeUsers);
        activeUsers := activeUsers - 1;
        assert State() == Remove(s, idx);
        RecordAndBroadcast(Notice(Left(name, pid)));
      }
    }

    /** The body of the receive loop. */
    method HandleMessage(message: string)
      requires Ok()
      modifies this, users, history
      ensures users == old(users) && history == old(history)
      ensures Ok() && State() == Handle(old(State()), message)
    {
      match Decode(message) {
        case None =>
        case Some(Joined(name, pid)) => HandleJoin(name, pid);
        case Some(Said(name, pid, text)) => RecordAndBroadcast(Notice(Said(name, pid, text)));
        case Some(Left(name, pid)) => HandleLeave(name, pid);
      }
    }
  }
}
