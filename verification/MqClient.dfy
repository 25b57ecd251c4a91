/** The receiving side of a message-queue chat client: the user list and the chat lines
    that it rebuilds from the messages in its queue. */
module MqClient {
  import opened Arrays
  import opened CStrings
  import opened MqWire
  import opened MqServer

  const CHAT_LINES := 100

  /** The names shown, and the lines chat_history[..chat_lines]. */
  datatype View = View(users: seq<string>, lines: seq<string>)

  const EMPTY := View([], [])

  function AddUser(users: seq<string>, name: string): seq<string> {
    if |users| < USERS_MAX then users + [Truncate(name, NAME_SIZE)] else users
  }

  /** Removes the first entry that reads `name`. */
  function RemoveUser(users: seq<string>, name: string): (r: seq<string>)
    ensures |r| <= |users|
  {
    if users == [] then []
    else if users[0] == name then users[1..]
    else [users[0]] + RemoveUser(users[1..], name)
  }

  /** snprintf into one line of the chat history. */
  function Line(text: string): string {
    if |text| < MAX_SIZE - 1 then text else text[..MAX_SIZE - 2]
  }

  /** The line printed for the fields of a message; nothing is printed for an unknown type, or
      for a NEW_MESSAGE without text. */
  function Render(fields: seq<string>): string
    requires |fields| >= 2
  {
    var kind, name := Atoi(fields[0]), fields[1];
    if kind == 0 then Line("User " + name + " joined the chat!")
    else if kind == 1 && |fields| > 3 then Line(name + ": " + fields[3])
    else if kind == 2 then Line("User " + name + " left the chat!")
    else ""
  }

  /** The last slot of the history is written over and over, and never shown. */
  function AddLine(lines: seq<string>, line: string): seq<string> {
    if |lines| < CHAT_LINES - 1 then lines + [line] else lines
  }

  /** What one message does to the view. The lines go on by one for every message with a name. */
  function Receive(v: View, message: string): View {
    var fields := Tokens(message, '\n');
    if |fields| < 2 then v
    else
      var kind, name := Atoi(fields[0]), fields[1];
      View(if kind == 0 then AddUser(v.users, name) else if kind == 2 then RemoveUser(v.users, name) else v.users,
           AddLine(v.lines, Render(fields)))
  }

  /** The view after all of `messages`. */
  function ViewOf(messages: seq<string>): View {
    if messages == [] then EMPTY
    else Receive(ViewOf(messages[..|messages| - 1]), messages[|messages| - 1])
  }

  // ----- the receiver on the client's arrays

  lemma {:induction false} RemoveUserAt(users: seq<string>, name: string, i: nat)
    requires i < |users| && users[i] == name && forall k :: 0 <= k < i ==> users[k] != name
    ensures RemoveUser(users, name) == Without(users, i)
  {
    if i > 0 {
      RemoveUserAt(users[1..], name, i - 1);
      assert users[1..][..i - 1] == users[1..i];
      assert users[..i] == [users[0]] + users[1..i];
      assert users[1..][i..] == users[i + 1..];
    }
  }

  lemma {:induction false} RemoveUserAbsent(users: seq<string>, name: string)
    requires forall k :: 0 <= k < |users| ==> users[k] != name
    ensures RemoveUser(users, name) == users
  {
    if users != [] {
      RemoveUserAbsent(users[1..], name);
    }
  }

  class Receiver {
    var users: array<string>
    var usersCount: nat
    var chatHistory: array<string>
    var chatLines: nat

    /** Lines not reached yet are still blank; the last one may be written already. */
    ghost predicate Ok()
      reads this, chatHistory
    {
      && users.Length == USERS_MAX && chatHistory.Length == CHAT_LINES && users != chatHistory
      && usersCount <= USERS_MAX && chatLines < CHAT_LINES
      && forall i :: chatLines <= i < CHAT_LINES - 1 ==> chatHistory[i] == ""
    }

    ghost function Shown(): View
      reads this, users, chatHistory
      requires Ok()
    {
      View(users[..usersCount], chatHistory[..chatLines])
    }

    constructor ()
      ensures Ok() && Shown() == EMPTY && fresh(users) && fresh(chatHistory)
    {
      users := new string[USERS_MAX](_ => "");
      chatHistory := new string[CHAT_LINES](_ => "");
      usersCount, chatLines := 0, 0;
    }

    method Add(name: string)
      requires Ok()
      modifies users, this`usersCount
      ensures Ok() && users[..usersCount] == AddUser(old(users[..usersCount]), name)
    {
      if usersCount < USERS_MAX {
        users[usersCount] := Truncate(name, NAME_SIZE);
        usersCount := usersCount + 1;
      }
    }

    method Remove(name: string)
      requires Ok()
      modifies users, this`usersCount
      ensures Ok() && users[..usersCount] == RemoveUser(old(users[..usersCount]), name)
    {
      ghost var all := users[..usersCount];
      var i := 0;
      while i < usersCount
        invariant i <= usersCount
        invariant forall k :: 0 <= k < i ==> all[k] != name
      {
        if users[i] == name {
          RemoveUserAt(all, name, i);
          ShiftOver(users, i, usersCount);
          usersCount := usersCount - 1;
          return;
        }
        i := i + 1;
      }
      RemoveUserAbsent(all, name);
    }

    /** The body of `receiver_thread`'s loop. */
    method HandleMessage(message: string)
      requires Ok()
      modifies this`usersCount, this`chatLines, users, chatHistory
      ensures Ok() && Shown() == Receive(old(Shown()), message)
    {
      var fields := Tokens(message, '\n');
      if |fields| < 2 {
        return;
      }
      var kind, name := Atoi(fields[0]), fields[1];
      ghost var lines := chatHistory[..chatLines];
      if kind == 0 {
        Add(name);
        chatHistory[chatLines] := Line("User " + name + " joined the chat!");
      } else if kind == 2 {
        Remove(name);
        chatHistory[chatLines] := Line("User " + name + " left the chat!");
      } else if kind == 1 && |fields| > 3 {
        chatHistory[chatLines] := Line(name + ": " + fields[3]);
      }
      chatLines := chatLines + 1;
      if chatLines >= CHAT_LINES {
        chatLines := CHAT_LINES - 1;
      }
      assert chatHistory[..chatLines] == AddLine(lines, Render(fields));
    }
  }
}
