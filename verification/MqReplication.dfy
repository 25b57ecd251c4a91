/** What the message-queue chat is for: every client's user list follows the server's. */
module MqReplication {
  import opened Arrays
  import opened CStrings
  import opened MqWire
  import opened MqServer
  import opened MqClient
  import opened Options

  function Names(users: seq<User>): seq<string> {
    seq(|users|, i requires 0 <= i < |users| => users[i].name)
  }

  /** What the clients do: a process joins while it is no user, and leaves under the name it joined with. */
  ghost predicate Honest(s: Server, e: Event) {
    && WellFormed(e)
    && (e.Joined? ==> !IsUser(s.users, e.pid))
    && (e.Left? && IsUser(s.users, e.pid) ==> s.users[FindUser(s.users, e.pid)].name == e.name)
  }

  /** The server after the clients sent the messages for `es`, in that order. */
  function Run(es: seq<Event>): (s: Server)
    ensures Valid(s)
  {
    if es == [] then START
    else Handle(Run(es[..|es| - 1]), ClientMessage(es[|es| - 1]))
  }

  ghost predicate HonestRun(es: seq<Event>) {
    es == [] || (HonestRun(es[..|es| - 1]) && Honest(Run(es[..|es| - 1]), es[|es| - 1]))
  }

  /** The same as a condition on the messages alone: a process joins at most once, and every
      message of a process carries the name it joined with. */
  ghost predicate ClientsBehave(es: seq<Event>) {
    && (forall i :: 0 <= i < |es| ==> WellFormed(es[i]))
    && (forall i, j :: 0 <= i < j < |es| && es[i].Joined? && es[j].Joined? ==> es[i].pid != es[j].pid)
    && (forall i, j :: 0 <= i < j < |es| && es[i].Joined? && es[i].pid == es[j].pid ==> es[i].name == es[j].name)
  }

  /** The user joined, under the name that the server has for it. */
  ghost predicate HasJoined(es: seq<Event>, u: User) {
    exists i :: 0 <= i < |es| && es[i].Joined? && es[i].pid == u.pid && es[i].name == u.name
  }

  ghost predicate UsersJoined(es: seq<Event>) {
    forall u :: u in Run(es).users ==> HasJoined(es, u)
  }

  lemma {:induction false} HasJoinedGrows(es: seq<Event>, e: Event, u: User)
    requires HasJoined(es, u) || (e.Joined? && e.pid == u.pid && e.name == u.name)
    ensures HasJoined(es + [e], u)
  {
    var all := es + [e];
    if HasJoined(es, u) {
      var i :| 0 <= i < |es| && es[i].Joined? && es[i].pid == u.pid && es[i].name == u.name;
      assert all[i] == es[i];
    } else {
      assert all[|es|] == e;
    }
  }

  /** A step brings no user but the one that joins. */
  lemma UsersAfter(s: Server, e: Event, u: User)
    requires Valid(s) && WellFormed(e)
    ensures u in Handle(s, ClientMessage(e)).users && u !in s.users ==>
              e.Joined? && e.pid == u.pid && e.name == u.name
  {
    DecodeInvertsPrinting(e);
  }

  lemma {:induction false} StepUsersJoined(es: seq<Event>, e: Event)
    requires UsersJoined(es) && WellFormed(e)
    ensures UsersJoined(es + [e])
  {
    var s, all := Run(es), es + [e];
    assert all[..|es|] == es && all[|es|] == e;
    forall u | u in Run(all).users ensures HasJoined(all, u) {
      if u !in s.users {
        UsersAfter(s, e, u);
      }
      HasJoinedGrows(es, e, u);
    }
  }

  lemma {:induction false} NextIsHonest(before: seq<Event>, e: Event)
    requires ClientsBehave(before + [e]) && UsersJoined(before)
    ensures Honest(Run(before), e)
  {
    var es, s := before + [e], Run(before);
    assert es[|before|] == e;
    if IsUser(s.users, e.pid) {
      var u := s.users[FindUser(s.users, e.pid)];
      assert HasJoined(before, u);
      var i :| 0 <= i < |before| && before[i].Joined? && before[i].pid == u.pid && before[i].name == u.name;
      assert es[i] == before[i];
    }
  }

  lemma {:induction false} BehaveBefore(before: seq<Event>, e: Event)
    requires ClientsBehave(before + [e])
    ensures ClientsBehave(before) && WellFormed(e)
  {
    var es := before + [e];
    assert es[|before|] == e && forall i :: 0 <= i < |before| ==> before[i] == es[i];
  }

  /** Well-behaved clients make honest runs. */
  lemma {:induction false} BehaveIsHonest(es: seq<Event>)
    requires ClientsBehave(es)
    ensures HonestRun(es) && UsersJoined(es)
  {
    if es != [] {
      var before, e := es[..|es| - 1], es[|es| - 1];
      assert before + [e] == es;
      BehaveBefore(before, e);
      BehaveIsHonest(before);
      StepUsersJoined(before, e);
      NextIsHonest(before, e);
    }
  }

  // ----- what the log records

  ghost predicate AllWellFormed(es: seq<Event>) {
    forall i :: 0 <= i < |es| ==> WellFormed(es[i])
  }

  /** The events of a run that were accepted: every message, the joins that found room and the leaves
      of users who were present. */
  function Recorded(es: seq<Event>): seq<Event> {
    if es == [] then []
    else
      var before, e := es[..|es| - 1], es[|es| - 1];
      Recorded(before) + if Accepts(Run(before), e) then [e] else []
  }

  ghost predicate ReadsAs(log: seq<string>, es: seq<Event>) {
    |log| == |es| && forall k :: 0 <= k < |es| ==> Decode(log[k]) == Some(es[k])
  }

  lemma {:induction false} ReadsGrow(log: seq<string>, longer: seq<string>, es: seq<Event>, more: seq<Event>)
    requires ReadsAs(log, es) && |log| <= |longer| && longer[..|log|] == log
    requires |es| <= |more| <= |es| + 1 && more[..|es|] == es
    requires |longer| == |more| && (|longer| > |log| ==> Decode(longer[|log|]) == Some(more[|es|]))
    ensures ReadsAs(longer, more)
  {
    assert forall k :: 0 <= k < |log| ==> longer[k] == longer[..|log|][k];
  }

  /** Over any run the log, read message by message, is exactly the events that were accepted. */
  lemma {:induction false} LogIsRecorded(es: seq<Event>)
    requires AllWellFormed(es)
    ensures ReadsAs(Run(es).log, Recorded(es))
  {
    if es != [] {
      var before := es[..|es| - 1];
      LogIsRecorded(before);
      LogGrowsBy(Run(before), es[|es| - 1]);
      assert Run(es) == Handle(Run(before), ClientMessage(es[|es| - 1]));
      ReadsGrow(Run(before).log, Run(es).log, Recorded(before), Recorded(es));
    }
  }

  // ----- what a client shows of it

  /** What the line for an event says. */
  predicate Tells(line: string, e: Event) {
    match e
    case Joined(name, _) => line == "User " + name + " joined the chat!"
    case Said(name, _, text) => line == name + ": " + text
    case Left(name, _) => line == "User " + name + " left the chat!"
  }

  function Notices(es: seq<Event>): (ms: seq<string>)
    ensures |ms| == |es| && forall i :: 0 <= i < |es| ==> ms[i] == Notice(es[i])
  {
    seq(|es|, i requires 0 <= i < |es| => Notice(es[i]))
  }

  lemma RenderTells(e: Event)
    requires WellFormed(e)
    ensures Tells(Render(Fields(e)), e)
  {
    NoticeFields(e);
  }

  /** As many lines as there are events, up to 99, each in the words of its event. */
  ghost predicate TellAll(lines: seq<string>, es: seq<Event>) {
    && |lines| == (if |es| <= 99 then |es| else 99)
    && forall k :: 0 <= k < |lines| ==> Tells(lines[k], es[k])
  }

  lemma {:induction false} OneMoreLine(lines: seq<string>, line: string, es: seq<Event>, e: Event)
    requires TellAll(lines, es) && Tells(line, e)
    ensures TellAll(AddLine(lines, line), es + [e])
  {
  }

  lemma NextLine(log: seq<string>, e: Event)
    requires WellFormed(e)
    ensures ViewOf(log + [Notice(e)]).lines == AddLine(ViewOf(log).lines, Render(Fields(e)))
  {
    ViewAfterPost(log, e);
  }

  lemma {:induction false} LinesGrow(before: seq<Event>, e: Event, es: seq<Event>, lines: seq<string>)
    returns (longer: seq<string>)
    requires lines == ViewOf(Notices(before)).lines && TellAll(lines, before)
    requires WellFormed(e) && es == before + [e]
    ensures longer == ViewOf(Notices(es)).lines && TellAll(longer, es)
  {
    assert Notices(es) == Notices(before) + [Notice(e)];
    NextLine(Notices(before), e);
    RenderTells(e);
    OneMoreLine(lines, Render(Fields(e)), before, e);
    longer := AddLine(lines, Render(Fields(e)));
  }

  lemma NoLines() returns (lines: seq<string>)
    ensures lines == ViewOf(Notices([])).lines && TellAll(lines, [])
  {
    assert Notices([]) == [];
    lines := [];
  }

  lemma {:induction false} LastEvent(es: seq<Event>) returns (before: seq<Event>, e: Event)
    requires AllWellFormed(es) && es != []
    ensures AllWellFormed(before) && WellFormed(e) && es == before + [e] && |before| < |es|
  {
    before, e := es[..|es| - 1], es[|es| - 1];
  }

  /** The chat lines of a client are those of the first 99 events of its stream. */
  lemma {:induction false} LinesTell(es: seq<Event>) returns (lines: seq<string>)
    requires AllWellFormed(es)
    ensures lines == ViewOf(Notices(es)).lines && TellAll(lines, es)
    decreases |es|
  {
    if es == [] {
      lines := NoLines();
    } else {
      var before, e := LastEvent(es);
      lines := LinesTell(before);
      lines := LinesGrow(before, e, es, lines);
    }
  }

  /** A client that has read the whole log shows the server's users, up to order. */
  ghost predicate Replicated(s: Server) {
    multiset(Names(s.users)) == multiset(ViewOf(s.log).users)
  }

  ghost predicate ReplicatedInOrder(s: Server) {
    Names(s.users) == ViewOf(s.log).users
  }

  // ----- the two deletion rules

  lemma NamesOfRemaining(users: seq<User>, i: nat)
    requires i < |users|
    ensures Names(Without(users, i)) == Without(Names(users), i)
  {
  }

  lemma WithoutOne(ns: seq<string>, i: nat)
    requires i < |ns|
    ensures multiset(Without(ns, i)) == multiset(ns) - multiset{ns[i]}
    ensures ns[i] in multiset(ns)
  {
    assert ns == ns[..i] + [ns[i]] + ns[i + 1..];
  }

  /** Removal by name takes one copy of that name out, whichever entry was meant. */
  lemma {:induction false} RemoveUserTakesOne(users: seq<string>, name: string)
    ensures multiset(RemoveUser(users, name)) == multiset(users) - multiset{name}
  {
    if users != [] {
      assert users == [users[0]] + users[1..];
      if users[0] != name {
        RemoveUserTakesOne(users[1..], name);
      }
    }
  }

  // ----- one step

  lemma ViewAfterPost(log: seq<string>, e: Event)
    requires WellFormed(e)
    ensures ViewOf(log + [Notice(e)]) ==
            View(match e
                 case Joined(name, _) => AddUser(ViewOf(log).users, name)
                 case Said(_, _, _) => ViewOf(log).users
                 case Left(name, _) => RemoveUser(ViewOf(log).users, name),
                 AddLine(ViewOf(log).lines, Render(Fields(e))))
  {
    NoticeFields(e);
    assert (log + [Notice(e)])[..|log|] == log;
  }

  lemma JoinEffect(s: Server, name: string, pid: int)
    requires Valid(s) && |s.users| < USERS_MAX
    ensures Names(Join(s, name, pid).users) == Names(s.users) + [Truncate(name, NAME_SIZE)]
    ensures Join(s, name, pid).log == s.log + [Notice(Joined(name, pid))]
  {
    var u := Join(s, name, pid).users[|s.users|];
    assert Names(s.users + [u]) == Names(s.users) + [u.name];
  }

  lemma JoinReplicates(s: Server, name: string, pid: int)
    requires Valid(s) && Replicated(s) && WellFormed(Joined(name, pid))
    ensures Replicated(Join(s, name, pid))
    ensures ReplicatedInOrder(s) ==> ReplicatedInOrder(Join(s, name, pid))
  {
    if |s.users| < USERS_MAX {
      JoinEffect(s, name, pid);
      ViewAfterPost(s.log, Joined(name, pid));
      SameLength(Names(s.users), ViewOf(s.log).users);
    }
  }

  lemma SameLength(a: seq<string>, b: seq<string>)
    requires multiset(a) == multiset(b)
    ensures |a| == |b|
  {
    assert |multiset(a)| == |a|;
  }

  lemma LeaveEffect(s: Server, name: string, pid: int)
    requires Valid(s) && IsUser(s.users, pid) && WellFormed(Left(name, pid))
    ensures var i := FindUser(s.users, pid);
            && 0 <= i && Names(Leave(s, name, pid).users) == Without(Names(s.users), i)
            && ViewOf(Leave(s, name, pid).log).users == RemoveUser(ViewOf(s.log).users, name)
  {
    ViewAfterPost(s.log, Left(name, pid));
    NamesOfRemaining(s.users, FindUser(s.users, pid));
  }

  /** A leave keeps the lists together exactly when it carries the name of the entry it deletes. */
  lemma LeaveReplicatesIff(s: Server, name: string, pid: int)
    requires Valid(s) && Replicated(s) && WellFormed(Left(name, pid)) && IsUser(s.users, pid)
    ensures Replicated(Leave(s, name, pid)) <==> s.users[FindUser(s.users, pid)].name == name
  {
    LeaveEffect(s, name, pid);
    RemovalsAgreeIff(Names(s.users), ViewOf(s.log).users, FindUser(s.users, pid), name);
  }

  lemma RemovalsAgreeIff(names: seq<string>, shown: seq<string>, i: nat, name: string)
    requires multiset(names) == multiset(shown) && i < |names|
    ensures multiset(Without(names, i)) == multiset(RemoveUser(shown, name)) <==> names[i] == name
  {
    WithoutOne(names, i);
    RemoveUserTakesOne(shown, name);
    SameRemovalIff(multiset(shown), names[i], name);
  }

  lemma SameRemovalIff(m: multiset<string>, a: string, b: string)
    requires a in m
    ensures m - multiset{a} == m - multiset{b} <==> a == b
  {
    if a != b {
      assert (m - multiset{b})[a] == m[a];
      assert (m - multiset{a})[a] == m[a] - 1;
    }
  }

  /** With distinct names the order is kept too: the first match is the entry itself. */
  lemma LeaveKeepsOrder(s: Server, name: string, pid: int)
    requires Valid(s) && ReplicatedInOrder(s) && Honest(s, Left(name, pid))
    requires DistinctNames(s.users)
    ensures ReplicatedInOrder(Leave(s, name, pid))
  {
    if IsUser(s.users, pid) {
      LeaveEffect(s, name, pid);
      RemoveUserAt(Names(s.users), name, FindUser(s.users, pid));
    }
  }

  lemma StepReplicates(s: Server, e: Event)
    requires Consistent(s) && Replicated(s) && Honest(s, e)
    ensures var r := Handle(s, ClientMessage(e)); Consistent(r) && Replicated(r) && s.log <= r.log
  {
    DecodeInvertsPrinting(e);
    match e {
      case Joined(name, pid) =>
        JoinKeepsConsistent(s, name, pid);
        JoinReplicates(s, name, pid);
      case Said(name, pid, text) =>
        PostKeepsConsistent(s, Notice(e));
        ViewAfterPost(s.log, e);
      case Left(name, pid) =>
        LeaveKeepsConsistent(s, name, pid);
        if FindUser(s.users, pid) != -1 {
          LeaveReplicatesIff(s, name, pid);
        }
    }
  }

  // ----- whole runs

  /** In every state of every honest run, the streams are right and the whole log shows the server's users. */
  lemma {:induction false} RunReplicates(es: seq<Event>)
    requires HonestRun(es)
    ensures Consistent(Run(es)) && Replicated(Run(es))
  {
    if es != [] {
      RunReplicates(es[..|es| - 1]);
      StepReplicates(Run(es[..|es| - 1]), es[|es| - 1]);
    }
  }

  ghost predicate DistinctNames(users: seq<User>) {
    forall i, j :: 0 <= i < j < |users| ==> users[i].name != users[j].name
  }

  /** No two users ever shared a name. */
  ghost predicate AlwaysDistinct(es: seq<Event>) {
    forall k :: 0 <= k <= |es| ==> DistinctNames(Run(es[..k]).users)
  }

  /** While no two users share a name, the lists agree in order as well. */
  lemma {:induction false} RunReplicatesInOrder(es: seq<Event>)
    requires HonestRun(es)
    requires AlwaysDistinct(es)
    ensures ReplicatedInOrder(Run(es))
  {
    if es != [] {
      var before, e := es[..|es| - 1], es[|es| - 1];
      forall t | 0 <= t <= |before| ensures DistinctNames(Run(before[..t]).users) {
        assert before[..t] == es[..t];
      }
      RunReplicatesInOrder(before);
      assert before[..|before|] == before;
      DecodeInvertsPrinting(e);
      match e {
        case Joined(name, pid) => JoinReplicates(Run(before), name, pid);
        case Said(_, _, _) => ViewAfterPost(Run(before).log, e);
        case Left(name, pid) => LeaveKeepsOrder(Run(before), name, pid);
      }
    }
  }

  /** A leave under another name than the one the server has for the process. */
  ghost predicate Misnamed(s: Server, e: Event) {
    e.Left? && IsUser(s.users, e.pid) && s.users[FindUser(s.users, e.pid)].name != e.name
  }

  ghost predicate NobodyMisnamed(es: seq<Event>) {
    es == [] || (NobodyMisnamed(es[..|es| - 1]) && !Misnamed(Run(es[..|es| - 1]), es[|es| - 1]))
  }

  /** In every state of the run. */
  ghost predicate AlwaysReplicated(es: seq<Event>) {
    Replicated(Run(es)) && (es == [] || AlwaysReplicated(es[..|es| - 1]))
  }

  lemma StepReplicatesIff(s: Server, e: Event)
    requires Valid(s) && Replicated(s) && WellFormed(e)
    ensures Replicated(Handle(s, ClientMessage(e))) <==> !Misnamed(s, e)
  {
    DecodeInvertsPrinting(e);
    match e {
      case Joined(name, pid) => JoinReplicates(s, name, pid);
      case Said(_, _, _) => ViewAfterPost(s.log, e);
      case Left(name, pid) =>
        if IsUser(s.users, pid) {
          LeaveReplicatesIff(s, name, pid);
        }
    }
  }

  /** Over any run, second joins included, the whole log shows the server's users in every state
      exactly if nobody leaves under another name than the stored one. */
  lemma {:induction false} AlwaysReplicatedIff(es: seq<Event>)
    requires AllWellFormed(es)
    ensures AlwaysReplicated(es) <==> NobodyMisnamed(es)
  {
    if es != [] {
      var before, e := es[..|es| - 1], es[|es| - 1];
      AlwaysReplicatedIff(before);
      if AlwaysReplicated(before) {
        StepReplicatesIff(Run(before), e);
      }
    }
  }

  /** Such a run: a process joins, and leaves under another name. */
  lemma MisnamedHappens(a: string, b: string, pid: int)
    requires WellFormed(Joined(a, pid)) && WellFormed(Left(b, pid)) && a != b
    ensures Replicated(Run([Joined(a, pid)])) && !Replicated(Run([Joined(a, pid), Left(b, pid)]))
  {
    var es := [Joined(a, pid), Left(b, pid)];
    assert es[..1] == [es[0]] && [es[0]][..0] == [];
    StepReplicatesIff(START, es[0]);
    var s := Run([es[0]]);
    JoinedAlone(a, pid);
    StepReplicatesIff(s, es[1]);
  }

  lemma JoinedAlone(name: string, pid: int)
    requires WellFormed(Joined(name, pid))
    ensures var users := Run([Joined(name, pid)]).users; |users| == 1 && users[0].name == name && users[0].pid == pid
  {
    DecodeInvertsPrinting(Joined(name, pid));
    assert [Joined(name, pid)][..0] == [];
  }

  lemma {:induction false} LogGrows(es: seq<Event>, t: nat)
    requires HonestRun(es) && t <= |es|
    ensures HonestRun(es[..t]) && Run(es[..t]).log <= Run(es).log
    decreases |es|
  {
    if t == |es| {
      assert es[..t] == es;
    } else {
      var before := es[..|es| - 1];
      LogGrows(before, t);
      assert before[..t] == es[..t];
      RunReplicates(before);
      StepReplicates(Run(before), es[|es| - 1]);
    }
  }

  lemma StreamOfUser(s: Server, u: User)
    requires Consistent(s) && u in s.users
    ensures u.mq < |s.sent| == |s.since| && s.since[u.mq] <= |s.log|
    ensures s.sent[u.mq] == Stream(s.log, s.since[u.mq])
  {
    var i :| 0 <= i < |s.users| && s.users[i] == u;
    assert HasStream(s, s.users[i]);
  }

  /** The client of user `u` follows: when it has read as many messages of its stream as the server
      had broadcast in state `past`, it shows the users of that state, in the same order if `ordered`. */
  ghost predicate Follows(s: Server, u: User, past: Server, ordered: bool)
    requires u.mq < |s.sent|
  {
    && |past.log| <= |s.sent[u.mq]|
    && var shown := ViewOf(s.sent[u.mq][..|past.log|]).users;
       multiset(shown) == multiset(Names(past.users)) && (ordered ==> shown == Names(past.users))
  }

  /** Every client that joined before anything was dropped from the history shows, after any prefix
      of its stream, the users that the server had when its log was that long; and in the server's
      order, if no two users had shared a name by then. */
  lemma {:induction false} ClientFollowsServer(es: seq<Event>, t: nat)
    requires HonestRun(es) && t <= |es|
    ensures forall u :: u in Run(es).users ==>
              && u.mq < |Run(es).since| == |Run(es).sent|
              && (Run(es).since[u.mq] <= HISTORY_SIZE ==> Follows(Run(es), u, Run(es[..t]), AlwaysDistinct(es[..t])))
  {
    RunReplicates(es);
    LogGrows(es, t);
    RunReplicates(es[..t]);
    if AlwaysDistinct(es[..t]) {
      RunReplicatesInOrder(es[..t]);
    }
    var s, past := Run(es), Run(es[..t]);
    forall u | u in s.users
      ensures u.mq < |s.since| == |s.sent|
      ensures s.since[u.mq] <= HISTORY_SIZE ==> Follows(s, u, past, AlwaysDistinct(es[..t]))
    {
      StreamOfUser(s, u);
      StreamIsWholeLog(s.log, s.since[u.mq]);
      assert s.log[..|past.log|] == past.log;
    }
  }

  /** add_user never drops a join that the server admitted. */
  lemma JoinNeverDropped(s: Server, name: string, pid: int)
    requires Valid(s) && Replicated(s) && |s.users| < USERS_MAX
    ensures AddUser(ViewOf(s.log).users, name) == ViewOf(s.log).users + [Truncate(name, NAME_SIZE)]
  {
    SameLength(Names(s.users), ViewOf(s.log).users);
  }
}
