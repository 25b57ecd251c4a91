/** The two pipes between the taxi program and a driver process: byte streams that carry one
    textual command and one textual answer at a time. */
module DriverPipes {
  import opened CStrings
  import opened Driver
  import opened Options

  const MAX_BUFFER := 256

  // ----- commands and answers as text

  /** What the parent writes; `send_task` refuses timers that are not positive. */
  function CommandText(c: Command): string
    requires c.SendTask? ==> c.timer > 0
  {
    match c
    case SendTask(timer) => "SEND_TASK " + Decimal(timer) + "\n"
    case GetStatus => "GET_STATUS\n"
    case Exit => "EXIT\n"
  }

  /** strncmp(s, prefix, strlen(prefix)) == 0 */
  predicate HasPrefix(s: string, prefix: string) {
    |prefix| <= |s| && s[..|prefix|] == prefix
  }

  /** sscanf of "%d": a number, if digits follow the blanks and the sign. */
  function ScanInt(s: string): Option<int>
    decreases |s|
  {
    if s == "" then None
    else if s[0] == ' ' then ScanInt(s[1..])
    else if (s[0] == '-' || s[0] == '+') && |s| > 1 && IsDigit(s[1]) then Some(Atoi(s))
    else if IsDigit(s[0]) then Some(Atoi(s))
    else None
  }

  /** What the driver makes of its buffer; `None` gets no answer. */
  function ReadCommand(buffer: string): Option<Command> {
    if HasPrefix(buffer, "SEND_TASK") then
      match ScanInt(buffer[9..])
      case Some(timer) => Some(SendTask(timer))
      case None => None
    else if HasPrefix(buffer, "GET_STATUS") then Some(GetStatus)
    else if HasPrefix(buffer, "EXIT") then Some(Exit)
    else None
  }

  function ResponseText(r: Response): string {
    match r
    case Ok => "OK\n"
    case IsBusy(timer) => "BUSY " + SignedDecimal(timer) + "\n"
    case IsAvailable => "AVAILABLE\n"
  }

  lemma AtoiBefore(n: nat, rest: string)
    requires rest != "" && !IsDigit(rest[0])
    ensures ScanInt(Decimal(n) + rest) == Some(n)
  {
    var d := Decimal(n);
    assert IsDigit(d[0]) && (d + rest)[0] == d[0];
    ReadDigitsOfConcat(d, rest, 0);
    ReadDecimal(n);
  }

  /** The driver understands every command as the parent meant it. */
  lemma ReadInvertsWrite(c: Command)
    requires c.SendTask? ==> c.timer > 0
    ensures ReadCommand(CommandText(c)) == Some(c)
  {
    match c {
      case SendTask(timer) =>
        var text := CommandText(c);
        var rest := " " + (Decimal(timer) + "\n");
        assert "SEND_TASK " == "SEND_TASK" + " ";
        assert text == "SEND_TASK" + rest;
        assert text[..9] == "SEND_TASK" && text[9..] == rest;
        assert rest[1..] == Decimal(timer) + "\n";
        AtoiBefore(timer, "\n");
      case GetStatus =>
        assert CommandText(c)[0] == 'G' && "SEND_TASK"[0] == 'S';
        assert CommandText(c)[..10] == "GET_STATUS";
      case Exit =>
        assert CommandText(c)[0] == 'E' && "SEND_TASK"[0] == 'S' && "GET_STATUS"[0] == 'G';
        assert CommandText(c)[..4] == "EXIT";
    }
  }

  // ----- both ends of the pipes

  /** What the parent sends: timers are positive and fit an int; EXIT is only sent at the end. */
  ghost predicate Sendable(c: Command) {
    match c
    case SendTask(timer) => 0 < timer < 0x8000_0000
    case GetStatus => true
    case Exit => false
  }

  /** A character in a pipe, with the number of the command that it belongs to or answers.
      Commands are numbered in the order in which they are written. */
  datatype Mark = Mark(ch: char, of: nat)

  function Stamp(text: string, n: nat): (marks: seq<Mark>)
    ensures |marks| == |text|
    ensures forall i :: 0 <= i < |text| ==> marks[i] == Mark(text[i], n)
  {
    seq(|text|, i requires 0 <= i < |text| => Mark(text[i], n))
  }

  /** What the reader of the pipe sees. */
  function Plain(marks: seq<Mark>): (text: string)
    ensures |text| == |marks|
    ensures forall i :: 0 <= i < |marks| ==> text[i] == marks[i].ch
  {
    seq(|marks|, i requires 0 <= i < |marks| => marks[i].ch)
  }

  /** Command number `n` and a text that came back for it, or that the driver wrote to answer it. */
  datatype Exchange = Exchange(n: nat, c: Command, text: seq<Mark>)

  /** `send_command_to_driver` between its write and its read. */
  datatype Parent = Idle | Waiting(n: nat, c: Command)

  /** `sent` commands were written so far; `log` is what the parent got back, `answered` what the
      driver wrote, each with the command it was for. */
  datatype Channel = Channel(parent: Parent, sent: nat, toDriver: seq<Mark>, fromDriver: seq<Mark>, driver: State,
                             log: seq<Exchange>, answered: seq<Exchange>)

  /** The driver was just created. */
  const QUIET := Channel(Idle, 0, [], [], START, [], [])

  /** Write and Read are the two halves of `send_command_to_driver`, TimedOut is poll giving up
      between them, and Loop is one turn of the driver with its three clock readings. */
  datatype Move = Write(c: Command) | Read | TimedOut | Loop(top: int, handled: int, bottom: int)

  ghost predicate Allowed(ch: Channel, m: Move) {
    match m
    case Write(c) => ch.parent == Idle && Sendable(c)
    case Read => ch.parent.Waiting? && ch.fromDriver != []
    case TimedOut => ch.parent.Waiting?
    case Loop(_, _, _) => true
  }

  /** read() of at most MAX_BUFFER - 1 bytes: what it returns, and what stays in the pipe. */
  function Received(pipe: seq<Mark>): seq<Mark> { if |pipe| < MAX_BUFFER then pipe else pipe[..MAX_BUFFER - 1] }

  function Left(pipe: seq<Mark>): seq<Mark> { if |pipe| < MAX_BUFFER then [] else pipe[MAX_BUFFER - 1..] }

  /** The driver's turn: poll reports input exactly when the pipe holds some. */
  function DriverTurn(ch: Channel, m: Move): Turn
    requires m.Loop?
  {
    Turn(m.top, if ch.toDriver == [] then None else ReadCommand(Plain(Received(ch.toDriver))), m.handled, m.bottom)
  }

  /** What the driver writes in this turn: the answer to the command at the front of its pipe, if any. */
  function Replies(ch: Channel, m: Move): seq<Exchange>
    requires m.Loop?
  {
    var t := DriverTurn(ch, m);
    match Answer(ch.driver, t)
    case None => []
    case Some(r) => [Exchange(ch.toDriver[0].of, t.input.value, Stamp(ResponseText(r), ch.toDriver[0].of))]
  }

  function Apply(ch: Channel, m: Move): Channel
    requires Allowed(ch, m)
  {
    match m
    case Write(c) =>
      ch.(toDriver := ch.toDriver + Stamp(CommandText(c), ch.sent), parent := Waiting(ch.sent, c), sent := ch.sent + 1)
    case Read =>
      ch.(fromDriver := Left(ch.fromDriver), parent := Idle,
          log := ch.log + [Exchange(ch.parent.n, ch.parent.c, Received(ch.fromDriver))])
    case TimedOut => ch.(parent := Idle)
    case Loop(_, _, _) =>
      var replies := Replies(ch, m);
      ch.(driver := Next(ch.driver, DriverTurn(ch, m)), toDriver := Left(ch.toDriver),
          fromDriver := ch.fromDriver + (if replies == [] then [] else replies[0].text),
          answered := ch.answered + replies)
  }

  /** `ch'` is reached from `ch` by `moves`, all of them allowed. */
  ghost predicate Reaches(ch: Channel, moves: seq<Move>, ch': Channel)
    decreases |moves|
  {
    if moves == [] then ch == ch'
    else Allowed(ch, moves[0]) && Reaches(Apply(ch, moves[0]), moves[1..], ch')
  }

  // ----- without timeouts

  ghost predicate SmallTimer(s: State) {
    0 <= s.taskTimer < 0x8000_0000
  }

  /** The command is still on its way, or its answer is on its way back; nothing else is in the pipes. */
  ghost predicate InFlight(ch: Channel, n: nat, c: Command)
    requires Sendable(c)
  {
    || (ch.toDriver == Stamp(CommandText(c), n) && ch.fromDriver == [] && ch.answered == ch.log)
    || (ch.toDriver == [] && 0 < |ch.fromDriver| <= 20 && ch.answered == ch.log + [Exchange(n, c, ch.fromDriver)])
  }

  /** Between commands both pipes are empty, and every command was answered once, in order, by what
      came back for it. */
  ghost predicate Matched(ch: Channel) {
    && SmallTimer(ch.driver)
    && (forall k :: 0 <= k < |ch.answered| ==> ch.answered[k].n == k)
    && match ch.parent
       case Idle => ch.toDriver == [] && ch.fromDriver == [] && ch.log == ch.answered && |ch.log| == ch.sent
       case Waiting(n, c) => Sendable(c) && InFlight(ch, n, c) && n == |ch.log| == ch.sent - 1
  }

  lemma AnswerIsShort(s: State, t: Turn, c: Command)
    requires SmallTimer(s) && t.input == Some(c) && Sendable(c)
    ensures SmallTimer(Next(s, t)) && Answer(s, t).Some?
    ensures 0 < |ResponseText(Answer(s, t).value)| <= 20
  {
    ShortText(s.taskTimer);
    match Answer(s, t).value {
      case Ok =>
      case IsAvailable =>
      case IsBusy(timer) => ShortText(timer);
    }
  }

  lemma CommandIsShort(c: Command)
    requires Sendable(c)
    ensures 0 < |CommandText(c)| <= 21
  {
    if c.SendTask? {
      ShortText(c.timer);
    }
  }

  /** Whatever else is in the pipe, the driver answers the command at its front, and that one only. */
  lemma FrontIsAnswered(ch: Channel, m: Move, n: nat, c: Command)
    requires m.Loop? && Sendable(c) && SmallTimer(ch.driver) && Stamp(CommandText(c), n) <= ch.toDriver
    ensures DriverTurn(ch, m).input == Some(c) && Answer(ch.driver, DriverTurn(ch, m)).Some?
    ensures var text := Stamp(ResponseText(Answer(ch.driver, DriverTurn(ch, m)).value), n);
            Replies(ch, m) == [Exchange(n, c, text)] && 0 < |text| <= 20
    ensures SmallTimer(Apply(ch, m).driver)
  {
    CommandIsShort(c);
    var text, seen := CommandText(c), Plain(Received(ch.toDriver));
    assert ch.toDriver[..|text|] == Stamp(text, n);
    assert forall i :: 0 <= i < |text| ==> seen[i] == ch.toDriver[..|text|][i].ch;
    assert seen == text + seen[|text|..];
    ReadTakesFirst(c, seen[|text|..]);
    AnswerIsShort(ch.driver, DriverTurn(ch, m), c);
    assert ch.toDriver[0] == Stamp(text, n)[0];
  }

  lemma LoopKeepsMatched(ch: Channel, m: Move)
    requires Matched(ch) && m.Loop?
    ensures Matched(Apply(ch, m))
  {
    if ch.parent.Waiting? && ch.toDriver != [] {
      CommandIsShort(ch.parent.c);
      FrontIsAnswered(ch, m, ch.parent.n, ch.parent.c);
      var r := Replies(ch, m)[0];
      assert [] + r.text == r.text;
    } else {
      assert ch.fromDriver + [] == ch.fromDriver && ch.answered + [] == ch.answered;
    }
  }

  lemma MoveKeepsMatched(ch: Channel, m: Move)
    requires Matched(ch) && Allowed(ch, m) && m != TimedOut
    ensures Matched(Apply(ch, m))
  {
    match m {
      case Write(c) => assert [] + Stamp(CommandText(c), ch.sent) == Stamp(CommandText(c), ch.sent);
      case Read => CommandIsShort(ch.parent.c);
      case Loop(_, _, _) => LoopKeepsMatched(ch, m);
    }
  }

  lemma {:induction false} MovesKeepMatched(ch: Channel, moves: seq<Move>, ch': Channel)
    requires Matched(ch) && Reaches(ch, moves, ch') && TimedOut !in moves
    ensures Matched(ch')
    decreases |moves|
  {
    if moves != [] {
      MoveKeepsMatched(ch, moves[0]);
      MovesKeepMatched(Apply(ch, moves[0]), moves[1..], ch');
    }
  }

  /** If no poll times out, every response the parent returns is the driver's single answer to
      exactly that command, and both pipes are empty between commands. */
  lemma {:induction false} ResponsesMatch(moves: seq<Move>, ch: Channel)
    requires Reaches(QUIET, moves, ch) && TimedOut !in moves
    ensures ch.log <= ch.answered && forall k :: 0 <= k < |ch.answered| ==> ch.answered[k].n == k
    ensures ch.parent == Idle ==>
              ch.toDriver == [] && ch.fromDriver == [] && ch.log == ch.answered && |ch.log| == ch.sent
  {
    MovesKeepMatched(QUIET, moves, ch);
  }

  /** One undisturbed command: the driver's next turn answers it, from the state and the clock of
      that turn; the parent reads exactly that answer, and leaves both pipes empty. */
  lemma CommandAnswered(ch: Channel, c: Command, m: Move)
    requires Matched(ch) && ch.parent == Idle && Sendable(c) && m.Loop?
    ensures var t := Turn(m.top, Some(c), m.handled, m.bottom);
            var ch2 := Apply(Apply(ch, Write(c)), m);
            && Answer(ch.driver, t).Some? && Allowed(ch2, Read)
            && var e := Exchange(ch.sent, c, Stamp(ResponseText(Answer(ch.driver, t).value), ch.sent));
               Apply(ch2, Read) ==
               Channel(Idle, ch.sent + 1, [], [], Next(ch.driver, t), ch.log + [e], ch.answered + [e])
  {
    var ch1 := Apply(ch, Write(c));
    assert ch1.toDriver == Stamp(CommandText(c), ch.sent);
    AnswerAlone(ch1, m);
  }

  /** The driver answers the only command in its pipe, and nothing else is in either pipe then. */
  lemma AnswerAlone(ch: Channel, m: Move)
    requires m.Loop? && ch.parent.Waiting? && Sendable(ch.parent.c) && SmallTimer(ch.driver)
    requires ch.toDriver == Stamp(CommandText(ch.parent.c), ch.parent.n) && ch.fromDriver == []
    ensures var t := Turn(m.top, Some(ch.parent.c), m.handled, m.bottom);
            && Answer(ch.driver, t).Some?
            && var text := Stamp(ResponseText(Answer(ch.driver, t).value), ch.parent.n);
               && 0 < |text| <= 20
               && Apply(ch, m) == ch.(driver := Next(ch.driver, t), toDriver := [], fromDriver := text,
                                      answered := ch.answered + [Exchange(ch.parent.n, ch.parent.c, text)])
  {
    CommandIsShort(ch.parent.c);
    FrontIsAnswered(ch, m, ch.parent.n, ch.parent.c);
    var r := Replies(ch, m)[0];
    assert [] + r.text == r.text;
  }

  // ----- after a timeout

  /** Two commands in one read: the driver sees only the first. */
  lemma ReadTakesFirst(c: Command, rest: string)
    requires Sendable(c)
    ensures ReadCommand(CommandText(c) + rest) == Some(c)
  {
    match c {
      case SendTask(timer) => ReadTaskBefore(timer, rest);
      case GetStatus =>
        var text := CommandText(c) + rest;
        assert text[0] == 'G' && "SEND_TASK"[0] == 'S';
        assert text[..10] == "GET_STATUS";
    }
  }

  lemma ReadTaskBefore(timer: nat, rest: string)
    requires timer > 0
    ensures ReadCommand(CommandText(SendTask(timer)) + rest) == Some(SendTask(timer))
  {
    var number := Decimal(timer) + ("\n" + rest);
    var text := CommandText(SendTask(timer)) + rest;
    assert text == "SEND_TASK" + (" " + number);
    assert text[..9] == "SEND_TASK" && text[9..] == " " + number;
    assert (" " + number)[1..] == number;
    AtoiBefore(timer, "\n" + rest);
  }

  /** Every response is the driver's answer to the very command that it was returned for. */
  ghost predicate OwnAnswers(ch: Channel) {
    forall e :: e in ch.log ==> e in ch.answered
  }

  ghost predicate ReadAfterTimeout(moves: seq<Move>) {
    exists i, j :: 0 <= i < j < |moves| && moves[i] == TimedOut && moves[j] == Read
  }

  /** What the driver writes is marked with the command that it answers. */
  ghost predicate AnswersMarked(ch: Channel) {
    forall e :: e in ch.answered ==> e.text != [] && e.text[0].of == e.n
  }

  /** Some response begins with the answer to another command. */
  ghost predicate Mixed(ch: Channel) {
    exists e :: e in ch.log && e.text != [] && e.text[0].of != e.n
  }

  /** Command `n` timed out and nothing was read since: the first answer still to be read is its
      answer, and any command that the parent waits for is a later one. */
  ghost predicate Behind(ch: Channel, n: nat, c: Command) {
    && Sendable(c) && n < ch.sent && (ch.parent.Waiting? ==> n < ch.parent.n)
    && if ch.fromDriver == []
       then SmallTimer(ch.driver) && Stamp(CommandText(c), n) <= ch.toDriver && ch.answered == ch.log
       else && ch.fromDriver[0].of == n && ch.log < ch.answered
            && var first := ch.answered[|ch.log|];
               first.n == n && first.c == c && 0 < |first.text| <= 20 && first.text <= ch.fromDriver
  }

  lemma TimeoutFallsBehind(ch: Channel)
    requires Matched(ch) && ch.parent.Waiting? && AnswersMarked(ch)
    ensures Behind(Apply(ch, TimedOut), ch.parent.n, ch.parent.c)
  {
    if ch.toDriver == [] {
      assert ch.answered[|ch.log|] in ch.answered;
    }
  }

  lemma LoopStaysBehind(ch: Channel, m: Move, n: nat, c: Command)
    requires Behind(ch, n, c) && m.Loop?
    ensures Behind(Apply(ch, m), n, c)
  {
    if ch.fromDriver == [] {
      FrontIsAnswered(ch, m, n, c);
      var r := Replies(ch, m)[0];
      assert [] + r.text == r.text;
    }
  }

  /** However often the parent tries again, and however the driver's turns fall in between. */
  lemma MoveStaysBehind(ch: Channel, m: Move, n: nat, c: Command)
    requires Behind(ch, n, c) && Allowed(ch, m) && m != Read
    ensures Behind(Apply(ch, m), n, c) && Apply(ch, m).log == ch.log
  {
    if m.Loop? {
      LoopStaysBehind(ch, m, n, c);
    }
  }

  lemma {:induction false} StaysBehind(ch: Channel, moves: seq<Move>, ch': Channel, n: nat, c: Command)
    requires Behind(ch, n, c) && Reaches(ch, moves, ch') && Read !in moves
    ensures Behind(ch', n, c) && ch'.log == ch.log
    decreases |moves|
  {
    if moves != [] {
      MoveStaysBehind(ch, moves[0], n, c);
      StaysBehind(Apply(ch, moves[0]), moves[1..], ch', n, c);
    }
  }

  lemma ReadBehind(ch: Channel, n: nat, c: Command)
    requires Behind(ch, n, c) && Allowed(ch, Read)
    ensures var r := Apply(ch, Read).log[|ch.log|];
            r.n == ch.parent.n > n && r.text != [] && r.text[0].of == n && ch.answered[|ch.log|].text <= r.text
    ensures Mixed(Apply(ch, Read))
  {
    var r := Apply(ch, Read).log[|ch.log|];
    assert r in Apply(ch, Read).log;
  }

  /** The next response after a timeout begins with the whole answer to the command that timed out,
      however many commands were sent or timed out in between, the same command again or others. */
  lemma {:induction false} StaleAfterTimeout(moves: seq<Move>, ch: Channel, retries: seq<Move>, ch': Channel)
    requires Reaches(QUIET, moves, ch) && TimedOut !in moves && ch.parent.Waiting?
    requires Reaches(Apply(ch, TimedOut), retries, ch') && Read !in retries && Allowed(ch', Read)
    ensures var k, r := |ch.log|, Apply(ch', Read);
            && |r.log| == k + 1 && k < |r.answered|
            && r.answered[k].n == ch.parent.n < r.log[k].n && r.answered[k].c == ch.parent.c
            && r.answered[k].text <= r.log[k].text
  {
    MovesKeepMatched(QUIET, moves, ch);
    MovesKeepNumbers(QUIET, moves, ch);
    TimeoutFallsBehind(ch);
    StaysBehind(Apply(ch, TimedOut), retries, ch', ch.parent.n, ch.parent.c);
    ReadBehind(ch', ch.parent.n, ch.parent.c);
  }

  /** The parent waits for a command that was sent, and answers are marked. */
  ghost predicate Numbered(ch: Channel) {
    (ch.parent.Waiting? ==> ch.parent.n < ch.sent) && AnswersMarked(ch)
  }

  lemma MoveKeepsNumbers(ch: Channel, m: Move)
    requires Numbered(ch) && Allowed(ch, m)
    ensures Numbered(Apply(ch, m))
    ensures ch.log <= Apply(ch, m).log && ch.answered <= Apply(ch, m).answered
  {
  }

  lemma {:induction false} MovesKeepNumbers(ch: Channel, moves: seq<Move>, ch': Channel)
    requires Numbered(ch) && Reaches(ch, moves, ch')
    ensures Numbered(ch') && ch.log <= ch'.log && ch.answered <= ch'.answered
    decreases |moves|
  {
    if moves != [] {
      MoveKeepsNumbers(ch, moves[0]);
      MovesKeepNumbers(Apply(ch, moves[0]), moves[1..], ch');
    }
  }

  /** A response that was mixed up once stays in the log, and no answer will ever be equal to it. */
  lemma {:induction false} MixedIsNotOwn(ch: Channel, moves: seq<Move>, ch': Channel)
    requires Numbered(ch) && Mixed(ch) && Reaches(ch, moves, ch')
    ensures !OwnAnswers(ch')
  {
    MovesKeepNumbers(ch, moves, ch');
    var e :| e in ch.log && e.text != [] && e.text[0].of != e.n;
    assert e in ch'.log && e !in ch'.answered;
  }

  /** From the timeout of command `n` on: exactly a Read spoils the log. */
  lemma {:induction false} BehindIff(ch: Channel, moves: seq<Move>, ch': Channel, n: nat, c: Command)
    requires Numbered(ch) && Behind(ch, n, c) && ch.log <= ch.answered && Reaches(ch, moves, ch')
    ensures OwnAnswers(ch') <==> Read !in moves
    decreases |moves|
  {
    if moves != [] {
      var next := Apply(ch, moves[0]);
      MoveKeepsNumbers(ch, moves[0]);
      if moves[0] == Read {
        ReadBehind(ch, n, c);
        MixedIsNotOwn(next, moves[1..], ch');
      } else {
        MoveStaysBehind(ch, moves[0], n, c);
        BehindIff(next, moves[1..], ch', n, c);
      }
    } else {
      PrefixIsOwn(ch);
    }
  }

  lemma PrefixIsOwn(ch: Channel)
    requires ch.log <= ch.answered
    ensures OwnAnswers(ch)
  {
    forall e | e in ch.log ensures e in ch.answered {
      var i :| 0 <= i < |ch.log| && ch.log[i] == e;
      assert ch.answered[i] == e;
    }
  }

  lemma {:induction false} ReadAfterFirst(moves: seq<Move>)
    requires moves != []
    ensures ReadAfterTimeout(moves) <==>
            (moves[0] == TimedOut && Read in moves[1..]) || ReadAfterTimeout(moves[1..])
  {
    var rest := moves[1..];
    if ReadAfterTimeout(rest) {
      var i, j :| 0 <= i < j < |rest| && rest[i] == TimedOut && rest[j] == Read;
      assert moves[i + 1] == TimedOut && moves[j + 1] == Read;
    }
    if moves[0] == TimedOut && Read in rest {
      var j :| 0 <= j < |rest| && rest[j] == Read;
      assert moves[0] == TimedOut && moves[j + 1] == Read;
    }
    if ReadAfterTimeout(moves) {
      var i, j :| 0 <= i < j < |moves| && moves[i] == TimedOut && moves[j] == Read;
      assert rest[j - 1] == Read && (i > 0 ==> rest[i - 1] == TimedOut);
    }
  }

  lemma {:induction false} MatchedIff(ch: Channel, moves: seq<Move>, ch': Channel)
    requires Numbered(ch) && Matched(ch) && Reaches(ch, moves, ch')
    ensures OwnAnswers(ch') <==> !ReadAfterTimeout(moves)
    decreases |moves|
  {
    if moves == [] {
      PrefixIsOwn(ch);
    } else {
      var next, rest := Apply(ch, moves[0]), moves[1..];
      MoveKeepsNumbers(ch, moves[0]);
      ReadAfterFirst(moves);
      if moves[0] == TimedOut {
        TimeoutFallsBehind(ch);
        BehindIff(next, rest, ch', ch.parent.n, ch.parent.c);
        assert ReadAfterTimeout(rest) ==> Read in rest;
      } else {
        MoveKeepsMatched(ch, moves[0]);
        MatchedIff(next, rest, ch');
      }
    }
  }

  /** In every run of a new driver: each response is the driver's answer to its own command exactly
      if nothing is read after a poll that timed out. */
  lemma {:induction false} OwnAnswersIff(moves: seq<Move>, ch: Channel)
    requires Reaches(QUIET, moves, ch)
    ensures OwnAnswers(ch) <==> !ReadAfterTimeout(moves)
  {
    MatchedIff(QUIET, moves, ch);
  }

  lemma {:induction false} ReachesOn(ch: Channel, moves: seq<Move>, mid: Channel, m: Move)
    requires Reaches(ch, moves, mid) && Allowed(mid, m)
    ensures Reaches(ch, moves + [m], Apply(mid, m))
    decreases |moves|
  {
    if moves == [] {
      assert [m][1..] == [];
      assert moves + [m] == [m];
    } else {
      assert (moves + [m])[1..] == moves[1..] + [m];
      ReachesOn(Apply(ch, moves[0]), moves[1..], mid, m);
    }
  }

  /** The first command of a new driver times out before the driver looks, and another one is sent. */
  lemma SecondCommand(late: Command, c: Command) returns (ch: Channel)
    requires Sendable(late) && Sendable(c)
    ensures Reaches(QUIET, [Write(late), TimedOut, Write(c)], ch)
    ensures ch == Channel(Waiting(1, c), 2, Stamp(CommandText(late), 0) + Stamp(CommandText(c), 1), [], START, [], [])
  {
    ch := Apply(QUIET, Write(late));
    assert [] + Stamp(CommandText(late), 0) == Stamp(CommandText(late), 0);
    ReachesOn(QUIET, [], QUIET, Write(late));
    assert [] + [Write(late)] == [Write(late)];
    ReachesOn(QUIET, [Write(late)], ch, TimedOut);
    ch := Apply(ch, TimedOut);
    assert [Write(late)] + [TimedOut] == [Write(late), TimedOut];
    ReachesOn(QUIET, [Write(late), TimedOut], ch, Write(c));
    ch := Apply(ch, Write(c));
    assert [Write(late), TimedOut] + [Write(c)] == [Write(late), TimedOut, Write(c)];
  }

  /** The driver takes both out of its pipe, and answers the first. */
  lemma BothTaken(ch: Channel, m: Move, late: Command, c: Command)
    requires Sendable(late) && Sendable(c) && m.Loop?
    requires ch == Channel(Waiting(1, c), 2, Stamp(CommandText(late), 0) + Stamp(CommandText(c), 1), [], START, [], [])
    ensures Answer(START, Turn(m.top, Some(late), m.handled, m.bottom)).Some?
    ensures var text := Stamp(ResponseText(Answer(START, Turn(m.top, Some(late), m.handled, m.bottom)).value), 0);
            && Apply(ch, m).parent == ch.parent && Apply(ch, m).toDriver == [] && Apply(ch, m).log == []
            && Apply(ch, m).fromDriver == text && Apply(ch, m).answered == [Exchange(0, late, text)] && 0 < |text| <= 20
  {
    CommandIsShort(late);
    CommandIsShort(c);
    FrontIsAnswered(ch, m, 0, late);
    var replies := Replies(ch, m);
    assert [] + replies == replies && [] + replies[0].text == replies[0].text;
  }

  /** Such a run: a task times out, and "OK", its answer, is returned to the status request after it,
      which the driver never answers. */
  lemma StatusAnsweredOk() returns (moves: seq<Move>, ch: Channel)
    ensures moves == [Write(SendTask(5)), TimedOut, Write(GetStatus), Loop(0, 0, 0), Read]
    ensures Reaches(QUIET, moves, ch) && ch.toDriver == [] && ch.fromDriver == []
    ensures ch.log == [Exchange(1, GetStatus, Stamp("OK\n", 0))] && Plain(ch.log[0].text) == "OK\n"
    ensures ch.answered == [Exchange(0, SendTask(5), Stamp("OK\n", 0))]
  {
    ch := SecondCommand(SendTask(5), GetStatus);
    var loop := Loop(0, 0, 0);
    moves := [Write(SendTask(5)), TimedOut, Write(GetStatus)];
    BothTaken(ch, loop, SendTask(5), GetStatus);
    ReachesOn(QUIET, moves, ch, loop);
    moves, ch := moves + [loop], Apply(ch, loop);
    assert ResponseText(Ok) == "OK\n" && Plain(Stamp("OK\n", 0)) == "OK\n";
    ReachesOn(QUIET, moves, ch, Read);
    moves, ch := moves + [Read], Apply(ch, Read);
  }

  // ----- what the answers say

  /** `moves` lead from `ch` to `ch'`, and `turns` are the turns of the driver among them. */
  ghost predicate RunsWith(ch: Channel, moves: seq<Move>, turns: seq<Turn>, ch': Channel)
    decreases |moves|
  {
    if moves == [] then turns == [] && ch' == ch
    else
      && Allowed(ch, moves[0])
      && if moves[0].Loop?
         then turns != [] && turns[0] == DriverTurn(ch, moves[0]) &&
              RunsWith(Apply(ch, moves[0]), moves[1..], turns[1..], ch')
         else RunsWith(Apply(ch, moves[0]), moves[1..], turns, ch')
  }

  /** "BUSY", a blank and a number that reads as the timer. */
  ghost predicate SaysBusy(text: string, timer: int) {
    exists number: string ::
      Atoi(number) == timer && text == "BUSY " + number + "\n" && forall c :: c in number ==> IsDigit(c) || c == '-'
  }

  /** What a driver that had accepted `tasks` has to say to a command in a turn that begins at `top`. */
  ghost predicate SaysRight(text: string, c: Command, tasks: seq<Task>, top: int) {
    match c
    case SendTask(_) =>
      if Running(tasks, top) then SaysBusy(text, tasks[|tasks| - 1].timer) else text == "OK\n"
    case GetStatus =>
      if Running(tasks, top) then SaysBusy(text, tasks[|tasks| - 1].timer) else text == "AVAILABLE\n"
    case Exit => false
  }

  /** The text was written in some turn, and was right at that time. */
  ghost predicate Told(e: Exchange, turns: seq<Turn>) {
    exists j :: 0 <= j < |turns| && ToldIn(e, turns, j)
  }

  ghost predicate ToldIn(e: Exchange, turns: seq<Turn>, j: nat)
    requires j < |turns|
  {
    turns[j].input == Some(e.c) && SaysRight(Plain(e.text), e.c, Tasks(turns[..j]), turns[j].top)
  }

  ghost predicate AllTold(es: seq<Exchange>, turns: seq<Turn>) {
    forall e :: e in es ==> Told(e, turns)
  }

  lemma BusyText(timer: int)
    ensures SaysBusy(ResponseText(IsBusy(timer)), timer)
  {
    AtoiOfDecimal(timer);
    assert ResponseText(IsBusy(timer)) == "BUSY " + SignedDecimal(timer) + "\n";
  }

  /** The answer of one turn, in words. */
  lemma {:induction false} AnswerSaysRight(turns: seq<Turn>, t: Turn)
    requires ClockOk(turns + [t]) && Answer(Run(turns), t).Some?
    ensures t.input.Some?
    ensures SaysRight(ResponseText(Answer(Run(turns), t).value), t.input.value, Tasks(turns), t.top)
  {
    AnswerDecided(turns, t);
    if Running(Tasks(turns), t.top) {
      BusyText(Tasks(turns)[|Tasks(turns)| - 1].timer);
    }
  }

  lemma {:induction false} ToldLater(e: Exchange, turns: seq<Turn>, t: Turn)
    requires Told(e, turns)
    ensures Told(e, turns + [t])
  {
    var j :| 0 <= j < |turns| && ToldIn(e, turns, j);
    assert (turns + [t])[..j] == turns[..j] && (turns + [t])[j] == turns[j];
    assert ToldIn(e, turns + [t], j);
  }

  lemma {:induction false} ReplyTold(ch: Channel, m: Move, turns: seq<Turn>)
    requires m.Loop? && ch.driver == Run(turns) && ClockOk(turns + [DriverTurn(ch, m)]) && Replies(ch, m) != []
    ensures Told(Replies(ch, m)[0], turns + [DriverTurn(ch, m)])
  {
    var t, e := DriverTurn(ch, m), Replies(ch, m)[0];
    AnswerSaysRight(turns, t);
    var text := ResponseText(Answer(ch.driver, t).value);
    assert Plain(e.text) == text;
    assert (turns + [t])[..|turns|] == turns && (turns + [t])[|turns|] == t;
    assert ToldIn(e, turns + [t], |turns|);
  }

  lemma {:induction false} LoopTold(ch: Channel, m: Move, turns: seq<Turn>)
    requires m.Loop? && ch.driver == Run(turns) && ClockOk(turns + [DriverTurn(ch, m)]) && AllTold(ch.answered, turns)
    ensures Apply(ch, m).driver == Run(turns + [DriverTurn(ch, m)])
    ensures AllTold(Apply(ch, m).answered, turns + [DriverTurn(ch, m)])
  {
    var t := DriverTurn(ch, m);
    assert (turns + [t])[..|turns|] == turns;
    forall e | e in Apply(ch, m).answered ensures Told(e, turns + [t]) {
      if e in ch.answered {
        ToldLater(e, turns, t);
      } else {
        assert e in Replies(ch, m);
        ReplyTold(ch, m, turns);
      }
    }
  }

  lemma {:induction false} ClockPrefix(turns: seq<Turn>, rest: seq<Turn>)
    requires ClockOk(turns + rest) && rest != []
    ensures ClockOk(turns + [rest[0]]) && turns + [rest[0]] + rest[1..] == turns + rest
  {
    var all, some := turns + rest, turns + [rest[0]];
    assert forall i :: 0 <= i < |some| ==> some[i] == all[i];
  }

  lemma {:induction false} MovesTold(ch: Channel, moves: seq<Move>, turns: seq<Turn>, ch': Channel, before: seq<Turn>)
    requires RunsWith(ch, moves, turns, ch') && ClockOk(before + turns)
    requires ch.driver == Run(before) && AllTold(ch.answered, before)
    ensures ch'.driver == Run(before + turns) && AllTold(ch'.answered, before + turns)
    decreases |moves|
  {
    if moves == [] {
      assert before + turns == before;
    } else if moves[0].Loop? {
      ClockPrefix(before, turns);
      LoopTold(ch, moves[0], before);
      MovesTold(Apply(ch, moves[0]), moves[1..], turns[1..], ch', before + [turns[0]]);
    } else {
      MovesTold(Apply(ch, moves[0]), moves[1..], turns, ch', before);
    }
  }

  lemma {:induction false} RunsReach(ch: Channel, moves: seq<Move>, turns: seq<Turn>, ch': Channel)
    requires RunsWith(ch, moves, turns, ch')
    ensures Reaches(ch, moves, ch')
    decreases |moves|
  {
    if moves != [] {
      RunsReach(Apply(ch, moves[0]), moves[1..], if moves[0].Loop? then turns[1..] else turns, ch');
    }
  }

  /** In every run of a new driver under a clock that does not go back, whatever it wrote was right when
      it wrote it: "OK" or "AVAILABLE" when the latest task was over, and "BUSY" with its timer when not;
      and if nothing was read after a timeout, so is whatever the parent got back. */
  lemma {:induction false} AnswersSayRight(moves: seq<Move>, turns: seq<Turn>, ch: Channel)
    requires RunsWith(QUIET, moves, turns, ch) && ClockOk(turns)
    ensures ch.driver == Run(turns) && AllTold(ch.answered, turns)
    ensures !ReadAfterTimeout(moves) ==> AllTold(ch.log, turns)
  {
    assert [] + turns == turns;
    MovesTold(QUIET, moves, turns, ch, []);
    RunsReach(QUIET, moves, turns, ch);
    OwnAnswersIff(moves, ch);
  }

  /** A command sent to a driver that is waiting for one: the next turn decides what comes back. */
  lemma {:induction false} CommandToldRight(moves: seq<Move>, turns: seq<Turn>, ch: Channel, c: Command, m: Move)
    requires RunsWith(QUIET, moves, turns, ch) && TimedOut !in moves && ch.parent == Idle && Sendable(c) && m.Loop?
    requires ClockOk(turns + [Turn(m.top, Some(c), m.handled, m.bottom)])
    ensures var ch2 := Apply(Apply(ch, Write(c)), m);
            && Allowed(ch2, Read) && |Apply(ch2, Read).log| == |ch.log| + 1
            && SaysRight(Plain(Apply(ch2, Read).log[|ch.log|].text), c, Tasks(turns), m.top)
  {
    var t := Turn(m.top, Some(c), m.handled, m.bottom);
    ClockSplit(turns, t);
    AnswersSayRight(moves, turns, ch);
    RunsReach(QUIET, moves, turns, ch);
    MovesKeepMatched(QUIET, moves, ch);
    CommandAnswered(ch, c, m);
    AnswerSaysRight(turns, t);
    var text := ResponseText(Answer(ch.driver, t).value);
    assert Plain(Stamp(text, ch.sent)) == text;
  }

  // ----- nothing is lost in the pipes

  function Texts(es: seq<Exchange>): seq<Mark> {
    if es == [] then [] else Texts(es[..|es| - 1]) + es[|es| - 1].text
  }

  lemma {:induction false} TextsGrow(es: seq<Exchange>, e: Exchange)
    ensures Texts(es + [e]) == Texts(es) + e.text
  {
    assert (es + [e])[..|es|] == es;
  }

  /** One read takes at most 255 characters off the front of a pipe, and all if there are no more. */
  lemma ReadTakesFront(pipe: seq<Mark>)
    ensures Received(pipe) + Left(pipe) == pipe && |Received(pipe)| == if |pipe| <= 255 then |pipe| else 255
  {
  }

  /** What the driver wrote is what the parent got back, in the same order, and what is still in the pipe. */
  ghost predicate Conserved(ch: Channel) {
    Texts(ch.log) + ch.fromDriver == Texts(ch.answered)
  }

  lemma MoveConserves(ch: Channel, m: Move)
    requires Conserved(ch) && Allowed(ch, m)
    ensures Conserved(Apply(ch, m))
  {
    if m == Read {
      ReadTakesFront(ch.fromDriver);
      TextsGrow(ch.log, Exchange(ch.parent.n, ch.parent.c, Received(ch.fromDriver)));
      assert Texts(ch.log) + Received(ch.fromDriver) + Left(ch.fromDriver) == Texts(ch.log) + ch.fromDriver;
    } else if m.Loop? {
      LoopConserves(ch, m);
    }
  }

  lemma LoopConserves(ch: Channel, m: Move)
    requires Conserved(ch) && m.Loop?
    ensures Conserved(Apply(ch, m))
  {
    var ch' := Apply(ch, m);
    if Replies(ch, m) == [] {
      assert ch'.fromDriver == ch.fromDriver && ch'.answered == ch.answered;
    } else {
      var e := OnlyReply(ch, m);
      assert ch'.fromDriver == ch.fromDriver + e.text && ch'.answered == ch.answered + [e];
      WriteConserves(ch.log, ch.fromDriver, ch.answered, e);
    }
  }

  lemma OnlyReply(ch: Channel, m: Move) returns (e: Exchange)
    requires m.Loop? && Replies(ch, m) != []
    ensures Replies(ch, m) == [e]
  {
    e := Replies(ch, m)[0];
  }

  lemma {:induction false} WriteConserves(log: seq<Exchange>, pipe: seq<Mark>, answered: seq<Exchange>, e: Exchange)
    requires Texts(log) + pipe == Texts(answered)
    ensures Texts(log) + (pipe + e.text) == Texts(answered + [e])
  {
    TextsGrow(answered, e);
    assert Texts(log) + (pipe + e.text) == Texts(log) + pipe + e.text;
  }

  /** In every run, timeouts included: no character of an answer is lost, repeated or overtaken. */
  lemma {:induction false} AnswersConserved(ch: Channel, moves: seq<Move>, ch': Channel)
    requires Conserved(ch) && Reaches(ch, moves, ch')
    ensures Conserved(ch')
    decreases |moves|
  {
    if moves != [] {
      MoveConserves(ch, moves[0]);
      AnswersConserved(Apply(ch, moves[0]), moves[1..], ch');
    }
  }
}
