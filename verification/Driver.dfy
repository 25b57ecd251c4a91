/** One taxi driver process: a loop around poll() that is AVAILABLE, or BUSY until its task ends. */
module Driver {
  import opened Options

  datatype Status = Available | Busy

  datatype Command = SendTask(timer: int) | GetStatus | Exit

  datatype Response = Ok | IsBusy(timer: int) | IsAvailable

  /** The local variables of `driver_process`. */
  datatype State = State(status: Status, taskTimer: int, taskEnd: int)

  const START := State(Available, 0, 0)

  /** One turn of the loop: the clock at its top, what poll and read bring (nothing, after a
      timeout), the clock when that is handled, and the clock at the bottom. */
  datatype Turn = Turn(top: int, input: Option<Command>, handled: int, bottom: int)

  /** A task the driver accepted: it runs from `start` until `start + timer`. */
  datatype Task = Task(start: int, timer: int) {
    function End(): int { start + timer }
  }

  // ----- one turn

  /** The checks at the top and at the bottom of the loop. */
  function Expire(s: State, now: int): State {
    if s.status == Busy && now >= s.taskEnd then State(Available, 0, s.taskEnd) else s
  }

  /** Conversion of a 64-bit value to int. */
  function ToInt32(x: int): int {
    var w := x % 0x1_0000_0000;
    if w < 0x8000_0000 then w else w - 0x1_0000_0000
  }

  /** The timeout given to poll; a negative one means none. */
  function Timeout(s: State, now: int): int {
    var s' := Expire(s, now);
    if s'.status == Busy then ToInt32((s'.taskEnd - now) * 1000) else -1
  }

  function Handle(s: State, c: Command, now: int): (State, Option<Response>) {
    match c
    case SendTask(timer) =>
      if s.status == Available then (State(Busy, timer, now + timer), Some(Ok)) else (s, Some(IsBusy(s.taskTimer)))
    case GetStatus => (s, Some(if s.status == Available then IsAvailable else IsBusy(s.taskTimer)))
    case Exit => (s, None)
  }

  function AfterInput(s: State, t: Turn): State {
    if t.input.Some? then Handle(Expire(s, t.top), t.input.value, t.handled).0 else Expire(s, t.top)
  }

  /** What the driver writes in this turn. */
  function Answer(s: State, t: Turn): Option<Response> {
    if t.input.Some? then Handle(Expire(s, t.top), t.input.value, t.handled).1 else None
  }

  function Next(s: State, t: Turn): State {
    Expire(AfterInput(s, t), t.bottom)
  }

  // ----- whole runs

  function Run(turns: seq<Turn>): State {
    if turns == [] then START else Next(Run(turns[..|turns| - 1]), turns[|turns| - 1])
  }

  /** The task that is accepted in turn `t`, if any. */
  function Accepted(s: State, t: Turn): seq<Task> {
    if Answer(s, t) == Some(Ok) then [Task(t.handled, t.input.value.timer)] else []
  }

  /** The tasks that were accepted, in order. */
  function Tasks(turns: seq<Turn>): seq<Task> {
    if turns == [] then []
    else Tasks(turns[..|turns| - 1]) + Accepted(Run(turns[..|turns| - 1]), turns[|turns| - 1])
  }

  /** The clock never goes back, within a turn or between turns. */
  ghost predicate ClockOk(turns: seq<Turn>) {
    && (forall i :: 0 <= i < |turns| ==> turns[i].top <= turns[i].handled <= turns[i].bottom)
    && (forall i, j :: 0 <= i < j < |turns| ==> turns[i].bottom <= turns[j].top)
  }

  function Last(tasks: seq<Task>): Task
    requires tasks != []
  {
    tasks[|tasks| - 1]
  }

  /** BUSY is with the latest task; AVAILABLE is when it is over. */
  ghost predicate Tracks(s: State, tasks: seq<Task>, now: int) {
    if s.status == Busy
    then tasks != [] && s.taskTimer == Last(tasks).timer && s.taskEnd == Last(tasks).End()
    else tasks == [] || Last(tasks).End() <= now
  }

  /** Each task starts when the one before is over, or later. */
  ghost predicate OneAfterTheOther(tasks: seq<Task>) {
    forall i, j :: 0 <= i < j < |tasks| ==> tasks[i].End() <= tasks[j].start && tasks[i].start <= tasks[j].start
  }

  lemma ExpireTracks(s: State, tasks: seq<Task>, now: int, later: int)
    requires Tracks(s, tasks, now) && now <= later
    ensures Tracks(Expire(s, later), tasks, later)
  {
  }

  /** What the driver says in a turn, against the tasks it had accepted before. */
  ghost predicate Honest(tasks: seq<Task>, t: Turn, answer: Option<Response>) {
    match answer
    case None => true
    case Some(Ok) => tasks == [] || Last(tasks).End() <= t.handled
    case Some(IsAvailable) => tasks == [] || Last(tasks).End() <= t.handled
    case Some(IsBusy(timer)) => tasks != [] && timer == Last(tasks).timer && t.top < Last(tasks).End()
  }

  /** It answers AVAILABLE, or accepts a task, only when the latest one is over; BUSY carries the
      timer of the latest task, which was not over when the turn began. */
  lemma TurnIsHonest(s: State, tasks: seq<Task>, now: int, t: Turn)
    requires Tracks(s, tasks, now) && now <= t.top <= t.handled <= t.bottom
    ensures Honest(tasks, t, Answer(s, t))
    ensures Tracks(Next(s, t), tasks + Accepted(s, t), t.bottom)
  {
    ExpireTracks(s, tasks, now, t.top);
  }

  /** The latest reading of the clock. */
  function Now(turns: seq<Turn>, start: int): int {
    if turns == [] then start else turns[|turns| - 1].bottom
  }

  lemma {:induction false} RunTracks(turns: seq<Turn>, start: int)
    requires ClockOk(turns) && (turns != [] ==> start <= turns[0].top)
    ensures Tracks(Run(turns), Tasks(turns), Now(turns, start)) && OneAfterTheOther(Tasks(turns))
    ensures forall k :: 0 <= k < |Tasks(turns)| ==> Tasks(turns)[k].start <= Now(turns, start)
  {
    if turns != [] {
      var before, t := turns[..|turns| - 1], turns[|turns| - 1];
      RunTracks(before, start);
      assert before != [] ==> before[0] == turns[0];
      TurnIsHonest(Run(before), Tasks(before), Now(before, start), t);
      if Answer(Run(before), t) == Some(Ok) {
        OrderExtends(Tasks(before), Task(t.handled, t.input.value.timer));
      }
    }
  }

  lemma OrderExtends(tasks: seq<Task>, t: Task)
    requires OneAfterTheOther(tasks) && (forall k :: 0 <= k < |tasks| ==> tasks[k].start <= t.start)
    requires tasks == [] || Last(tasks).End() <= t.start
    ensures OneAfterTheOther(tasks + [t])
  {
    forall i | 0 <= i < |tasks| ensures tasks[i].End() <= t.start {
      if i < |tasks| - 1 {
        assert tasks[i].End() <= Last(tasks).start;
      }
    }
  }

  /** Accepted tasks never overlap: no moment lies in the intervals of two of them. */
  lemma TasksDisjoint(turns: seq<Turn>, i: nat, j: nat, moment: int)
    requires ClockOk(turns) && i < j < |Tasks(turns)|
    requires Tasks(turns)[i].start <= moment < Tasks(turns)[i].End()
    ensures moment < Tasks(turns)[j].start
  {
    if turns != [] {
      RunTracks(turns, turns[0].top);
    }
  }

  lemma ClockSplit(turns: seq<Turn>, t: Turn)
    requires ClockOk(turns + [t])
    ensures ClockOk(turns) && Now(turns, t.top) <= t.top <= t.handled <= t.bottom
    ensures turns != [] ==> turns[0].top <= t.top
  {
    var all := turns + [t];
    assert all[|turns|] == t;
    assert forall i :: 0 <= i < |turns| ==> turns[i] == all[i];
  }

  /** In every turn of every run the driver's answer is honest about the tasks accepted so far. */
  lemma AnswersHonest(turns: seq<Turn>, t: Turn)
    requires ClockOk(turns + [t])
    ensures Honest(Tasks(turns), t, Answer(Run(turns), t))
  {
    ClockSplit(turns, t);
    var start := if turns == [] then t.top else turns[0].top;
    RunTracks(turns, start);
    TurnIsHonest(Run(turns), Tasks(turns), Now(turns, start), t);
  }

  /** The latest task is not over at `now`. */
  predicate Running(tasks: seq<Task>, now: int) {
    tasks != [] && now < tasks[|tasks| - 1].start + tasks[|tasks| - 1].timer
  }

  /** The answer in a turn, and the tasks accepted after it. */
  ghost predicate Decided(tasks: seq<Task>, t: Turn, answer: Option<Response>, tasks': seq<Task>) {
    match t.input
    case Some(SendTask(timer)) =>
      if Running(tasks, t.top)
      then answer == Some(IsBusy(tasks[|tasks| - 1].timer)) && tasks' == tasks
      else answer == Some(Ok) && tasks' == tasks + [Task(t.handled, timer)]
    case Some(GetStatus) =>
      && answer == Some(if Running(tasks, t.top) then IsBusy(tasks[|tasks| - 1].timer) else IsAvailable)
      && tasks' == tasks
    case _ => answer == None && tasks' == tasks
  }

  /** Whatever happened before, the answer in a turn is decided by whether the latest task is over when
      the turn begins: a free driver accepts every task and starts it at once, a busy one names the timer. */
  lemma AnswerDecided(turns: seq<Turn>, t: Turn)
    requires ClockOk(turns + [t])
    ensures Decided(Tasks(turns), t, Answer(Run(turns), t), Tasks(turns + [t]))
  {
    ClockSplit(turns, t);
    RunTracks(turns, if turns == [] then t.top else turns[0].top);
    assert (turns + [t])[..|turns|] == turns;
    assert Tasks(turns + [t]) == Tasks(turns) + Accepted(Run(turns), t);
  }

  /** `r` is `x` cut down to a signed 32-bit number. */
  predicate IsCut(x: int, r: int) {
    && -0x8000_0000 <= r < 0x8000_0000 && (x - r) % 0x1_0000_0000 == 0
    && (-0x8000_0000 <= x < 0x8000_0000 ==> r == x)
  }

  lemma CutTo32Bits(x: int)
    ensures IsCut(x, ToInt32(x))
  {
    var q := x / 0x1_0000_0000;
    assert x == q * 0x1_0000_0000 + x % 0x1_0000_0000;
    var k := if x % 0x1_0000_0000 < 0x8000_0000 then q else q + 1;
    assert x - ToInt32(x) == k * 0x1_0000_0000;
  }

  /** The timeout is the time that is left of the latest task, in milliseconds, cut down to 32 bits; -1
      without a task. */
  lemma TimeoutDecided(turns: seq<Turn>, t: Turn)
    requires ClockOk(turns + [t])
    ensures var tasks, timeout := Tasks(turns), Timeout(Run(turns), t.top);
            if Running(tasks, t.top)
            then IsCut((tasks[|tasks| - 1].start + tasks[|tasks| - 1].timer - t.top) * 1000, timeout)
            else timeout == -1
  {
    StatusDecided(turns, t);
    if Running(Tasks(turns), t.top) {
      CutTo32Bits((Last(Tasks(turns)).End() - t.top) * 1000);
    }
  }

  /** Behind the check at its top, a turn is BUSY with the latest task, or the latest task is over. */
  lemma StatusDecided(turns: seq<Turn>, t: Turn)
    requires ClockOk(turns + [t])
    ensures var s, tasks := Expire(Run(turns), t.top), Tasks(turns);
            if Running(tasks, t.top)
            then s == State(Busy, Last(tasks).timer, Last(tasks).End())
            else s.status == Available
  {
    ClockSplit(turns, t);
    RunTracks(turns, if turns == [] then t.top else turns[0].top);
  }

  // ----- polling without a timeout

  /** The longest task, in seconds, whose remaining time in milliseconds always fits an int. */
  const MAX_TIMER := 2147483

  /** The driver polls without a timeout while BUSY exactly when the remaining milliseconds,
      cut down to 32 bits, come out negative. */
  lemma BusyPollIff(s: State, now: int)
    ensures Expire(s, now).status == Busy && Timeout(s, now) < 0 <==>
            s.status == Busy && now < s.taskEnd && ((s.taskEnd - now) * 1000) % 0x1_0000_0000 >= 0x8000_0000
    ensures Expire(s, now).status == Available ==> Timeout(s, now) == -1
  {
  }

  /** "Without a timeout only when AVAILABLE" holds at every moment of a task exactly when its
      timer is at most MAX_TIMER seconds; a longer task sends the driver to sleep until the next
      command, past its own end. */
  lemma PollBoundedIff(start: int, timer: int)
    ensures var s := State(Busy, timer, start + timer);
            (forall now :: start <= now < s.taskEnd ==> Timeout(s, now) > 0) <==> timer <= MAX_TIMER
  {
    var s := State(Busy, timer, start + timer);
    if timer > MAX_TIMER {
      var now := start + timer - (MAX_TIMER + 1);
      assert Timeout(s, now) < 0;
    } else {
      forall now | start <= now < start + timer ensures Timeout(s, now) > 0 {
        assert 0 < (s.taskEnd - now) * 1000 <= MAX_TIMER * 1000;
      }
    }
  }

  lemma PollDuringTask(s: State, task: Task, now: int)
    requires s.status == Busy && s.taskEnd == task.End() && task.start <= now && task.timer <= MAX_TIMER
    ensures Timeout(s, now) < 0 <==> Expire(s, now).status == Available
  {
    if now < s.taskEnd {
      assert 0 < (s.taskEnd - now) * 1000 <= MAX_TIMER * 1000;
    }
  }

  ghost predicate TimersUpTo(turns: seq<Turn>, timer: int) {
    forall k :: 0 <= k < |Tasks(turns)| ==> Tasks(turns)[k].timer <= timer
  }

  /** In turn `t` after `turns` the driver polls without a timeout exactly when it is AVAILABLE. */
  ghost predicate PollsBounded(turns: seq<Turn>, t: Turn) {
    Timeout(Run(turns), t.top) < 0 <==> Expire(Run(turns), t.top).status == Available
  }

  /** In a run whose accepted timers are all in range, every turn polls with a timeout unless AVAILABLE. */
  lemma RunPollsBounded(turns: seq<Turn>, t: Turn)
    requires ClockOk(turns + [t]) && TimersUpTo(turns, MAX_TIMER)
    ensures PollsBounded(turns, t)
  {
    ClockSplit(turns, t);
    RunTracks(turns, if turns == [] then t.top else turns[0].top);
    if Run(turns).status == Busy {
      var n := |Tasks(turns)| - 1;
      assert Tasks(turns)[n].start <= t.top;
      PollDuringTask(Run(turns), Tasks(turns)[n], t.top);
    }
  }

  /** A new driver that is given one longer task: a turn at this moment polls without a timeout while BUSY. */
  lemma LongTaskRun(timer: int) returns (turns: seq<Turn>, t: Turn)
    requires timer > MAX_TIMER
    ensures ClockOk(turns + [t]) && Tasks(turns) == [Task(0, timer)] && t.top < timer
    ensures Expire(Run(turns), t.top) == State(Busy, timer, timer) && Timeout(Run(turns), t.top) < 0
  {
    var first := Turn(0, Some(SendTask(timer)), 0, 0);
    var now := timer - (MAX_TIMER + 1);
    turns, t := [first], Turn(now, None, now, now);
    assert turns[..0] == [] && turns[0] == first;
    assert Run([]) == START && Tasks([]) == [];
    assert Answer(START, first) == Some(Ok) && Next(START, first) == State(Busy, timer, timer);
  }

  /** Timers up to `timer` are harmless, in every turn of every run, exactly if it is at most MAX_TIMER. */
  lemma RunsPollBoundedIff(timer: int)
    ensures (forall turns, t :: ClockOk(turns + [t]) && TimersUpTo(turns, timer) ==> PollsBounded(turns, t))
            <==> timer <= MAX_TIMER
  {
    if timer > MAX_TIMER {
      var turns, t := LongTaskRun(timer);
      assert TimersUpTo(turns, timer) && !PollsBounded(turns, t);
    } else {
      forall turns, t | ClockOk(turns + [t]) && TimersUpTo(turns, timer) ensures PollsBounded(turns, t) {
        RunPollsBounded(turns, t);
      }
    }
  }

  // ----- the loop

  /** One turn of the loop over the driver's variables; EXIT is handled by the loop. */
  method TakeTurn(s: State, t: Turn) returns (s': State, answer: Option<Response>, timeout: int)
    ensures s' == Next(s, t) && answer == Answer(s, t) && timeout == Timeout(s, t.top)
  {
    var status, taskTimer, taskEnd := s.status, s.taskTimer, s.taskEnd;
    timeout := -1;
    if status == Busy {
      if t.top >= taskEnd {
        status, taskTimer := Available, 0;
      } else {
        timeout := ToInt32((taskEnd - t.top) * 1000);
      }
    }
    answer := None;
    match t.input {
      case Some(SendTask(timer)) =>
        if status == Available {
          status, taskTimer, taskEnd := Busy, timer, t.handled + timer;
          answer := Some(Ok);
        } else {
          answer := Some(IsBusy(taskTimer));
        }
      case Some(GetStatus) =>
        if status == Available {
          answer := Some(IsAvailable);
        } else {
          answer := Some(IsBusy(taskTimer));
        }
      case _ =>
    }
    if status == Busy && t.bottom >= taskEnd {
      status, taskTimer := Available, 0;
    }
    s' := State(status, taskTimer, taskEnd);
  }

  /** What was answered and polled in each of the first turns. */
  ghost predicate Matches(turns: seq<Turn>, answers: seq<Option<Response>>, timeouts: seq<int>) {
    && |answers| == |timeouts| <= |turns|
    && forall i :: 0 <= i < |answers| ==> TurnMatches(turns, i, answers[i], timeouts[i])
  }

  ghost predicate TurnMatches(turns: seq<Turn>, i: nat, answer: Option<Response>, timeout: int)
    requires i < |turns|
  {
    var s := Run(turns[..i]);
    turns[i].input != Some(Exit) && answer == Answer(s, turns[i]) && timeout == Timeout(s, turns[i].top)
  }

  /** `driver_process` over the turns that its environment gives it, up to EXIT. */
  method DriverProcess(turns: seq<Turn>) returns (answers: seq<Option<Response>>, timeouts: seq<int>)
    ensures Matches(turns, answers, timeouts)
    ensures |answers| < |turns| ==> turns[|answers|].input == Some(Exit)
  {
    var s := START;
    answers, timeouts := [], [];
    for k := 0 to |turns|
      invariant |answers| == k && s == Run(turns[..k]) && Matches(turns, answers, timeouts)
    {
      if turns[k].input == Some(Exit) {
        return;
      }
      var s', answer, timeout := TakeTurn(s, turns[k]);
      assert turns[..k + 1][..k] == turns[..k];
      assert TurnMatches(turns, k, answer, timeout);
      s, answers, timeouts := s', answers + [answer], timeouts + [timeout];
    }
  }
}
