/** The text messages of the message-queue chat: fields separated by newlines. */
module MqWire {
  import opened CStrings
  import opened Options

  const MAX_SIZE := 256

  datatype Event =
    | Joined(name: string, pid: int)
    | Said(name: string, pid: int, text: string)
    | Left(name: string, pid: int)

  // ----- what both programs print

  function Kind(e: Event): string {
    match e
    case Joined(_, _) => "0"
    case Said(_, _, _) => "1"
    case Left(_, _) => "2"
  }

  /** What the client sends: only its NEW_USER message lacks the final newline. */
  function ClientMessage(e: Event): string {
    match e
    case Joined(name, pid) => "0" + "\n" + name + "\n" + SignedDecimal(pid)
    case Said(name, pid, text) => "1" + "\n" + name + "\n" + SignedDecimal(pid) + "\n" + text
    case Left(name, pid) => "2" + "\n" + name + "\n" + SignedDecimal(pid) + "\n"
  }

  /** What the server records and sends to its users. */
  function Notice(e: Event): string {
    match e
    case Joined(name, pid) => "0" + "\n" + name + "\n" + SignedDecimal(pid) + "\n"
    case Said(name, pid, text) => "1" + "\n" + name + "\n" + SignedDecimal(pid) + "\n" + text
    case Left(name, pid) => "2" + "\n" + name + "\n" + SignedDecimal(pid) + "\n"
  }

  function Fields(e: Event): seq<string> {
    [Kind(e), e.name, SignedDecimal(e.pid)] + if e.Said? then [e.text] else []
  }

  // ----- what both programs read, with strtok_r and atoi

  /** The event a server is told of; `None`: a message of unknown type, or without all of its fields. */
  function Decode(message: string): Option<Event> {
    var fields := Tokens(message, '\n');
    if |fields| < 3 then None
    else if Atoi(fields[0]) == 0 then Some(Joined(fields[1], Atoi(fields[2])))
    else if Atoi(fields[0]) == 1 && |fields| > 3 then Some(Said(fields[1], Atoi(fields[2]), fields[3]))
    else if Atoi(fields[0]) == 2 then Some(Left(fields[1], Atoi(fields[2])))
    else None
  }

  /** A field that survives strtok_r. */
  ghost predicate IsField(s: string) {
    s != "" && '\n' !in s
  }

  /** The events a client's input fields admit: names from scanf("%9s"), lines of at most 223
      characters, and process ids of at most ten digits. */
  ghost predicate WellFormed(e: Event) {
    && IsField(e.name) && |e.name| <= 9
    && |SignedDecimal(e.pid)| <= 10
    && (e.Said? ==> IsField(e.text) && |e.text| <= 223)
  }

  // ----- reading inverts printing

  lemma TokensOfLine(word: string, rest: string)
    requires IsField(word)
    ensures Tokens(word + ("\n" + rest), '\n') == [word] + Tokens(rest, '\n')
  {
    TokensSplit(word, rest, '\n');
    TokensOfWord(word, '\n');
    assert word + ("\n" + rest) == word + ['\n'] + rest;
  }

  lemma TokensOfFields(kind: string, name: string, pid: int, rest: string)
    requires IsField(kind) && IsField(name)
    ensures Tokens(kind + "\n" + name + "\n" + SignedDecimal(pid) + "\n" + rest, '\n') ==
            [kind, name, SignedDecimal(pid)] + Tokens(rest, '\n')
  {
    var d := SignedDecimal(pid);
    assert IsField(d);
    TokensOfLine(d, rest);
    TokensOfLine(name, d + ("\n" + rest));
    TokensOfLine(kind, name + ("\n" + (d + ("\n" + rest))));
    Regroup(kind, name, d, rest);
  }

  lemma Regroup(a: string, b: string, c: string, rest: string)
    ensures a + "\n" + b + "\n" + c + "\n" + rest == a + ("\n" + (b + ("\n" + (c + ("\n" + rest)))))
  {
  }

  lemma AtoiOfKinds()
    ensures Atoi("0") == 0 && Atoi("1") == 1 && Atoi("2") == 2
    ensures IsField("0") && IsField("1") && IsField("2")
  {
    AtoiOfDecimal(0);
    AtoiOfDecimal(1);
    AtoiOfDecimal(2);
  }

  /** A text without final newline has the same fields as the text with it. */
  lemma FinalNewline(s: string)
    ensures Tokens(s + "\n", '\n') == Tokens(s, '\n')
  {
    TokensSplit(s, "", '\n');
    assert s + "\n" == s + ['\n'] + "";
  }

  /** The fields of a notice are those of its event. */
  lemma NoticeFields(e: Event)
    requires WellFormed(e)
    ensures Tokens(Notice(e), '\n') == Fields(e)
    ensures Atoi(Kind(e)) == match e case Joined(_, _) => 0 case Said(_, _, _) => 1 case Left(_, _) => 2
  {
    AtoiOfKinds();
    match e {
      case Joined(name, pid) =>
        TokensOfFields("0", name, pid, "");
        assert Notice(e) + "" == Notice(e);
      case Said(name, pid, text) =>
        TokensOfFields("1", name, pid, text);
        TokensOfWord(text, '\n');
      case Left(name, pid) =>
        TokensOfFields("2", name, pid, "");
        assert Notice(e) + "" == Notice(e);
    }
  }

  lemma DecodeNotice(e: Event)
    requires WellFormed(e)
    ensures Decode(Notice(e)) == Some(e)
  {
    NoticeFields(e);
    AtoiOfDecimal(e.pid);
  }

  /** What a client printed is read back as the event it meant, and so is the server's notice of it. */
  lemma DecodeInvertsPrinting(e: Event)
    requires WellFormed(e)
    ensures Decode(ClientMessage(e)) == Some(e) && Decode(Notice(e)) == Some(e)
  {
    DecodeNotice(e);
    if e.Joined? {
      FinalNewline(ClientMessage(e));
    }
  }

  /** No well-formed message is cut off by snprintf or by the copy into the history. */
  lemma MessagesFit(e: Event)
    requires WellFormed(e)
    ensures |ClientMessage(e)| < MAX_SIZE && |Notice(e)| < MAX_SIZE
  {
  }
}
