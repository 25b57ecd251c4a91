/** The shared-memory chat's history ring: one writer, any number of readers, no lock.
    The steps are the single loads, stores and copies of both programs, in program order. */
module ShmRing {

  datatype Kind = NewUser | NewMessage | UserLeft

  /** `message_t` */
  datatype Message = Message(kind: Kind, username: string, text: string, pid: int)

  /** A slot of the shared array; `Torn` while the writer's memcpy into it runs. */
  datatype Slot = Blank | Torn | Whole(m: Message)

  /** `add_to_history`: before and after the copy, and after current_pos was advanced. */
  datatype WriterPc = Idle | Copying(m: Message) | Copied | Advanced

  /** The reader's loop: comparing positions, copying a slot, and the three updates that follow. */
  datatype ReaderPc = Checking | Reading | Fetched(m: Message) | Stored | Counted

  /** `delivered` is every message put into chat_history, in order. */
  datatype Reader = Reader(pc: ReaderPc, lastReadPos: nat, chatLines: nat, chatHistory: seq<Slot>,
                           delivered: seq<Message>)

  /** `accepted` are the messages the writer did not drop, in order. */
  datatype State = State(slots: seq<Slot>, currentPos: nat, historyCount: nat, writer: WriterPc,
                         readers: map<int, Reader>, accepted: seq<Message>)

  function Size(s: State): nat { |s.slots| }

  ghost predicate Initial(s: State) {
    && Size(s) > 0 && s.currentPos == 0 && s.historyCount == 0 && s.writer == Idle && s.accepted == []
    && (forall i :: 0 <= i < Size(s) ==> s.slots[i] == Blank)
    && forall r :: r in s.readers ==>
         && s.readers[r].pc == Checking && s.readers[r].lastReadPos == 0 && s.readers[r].chatLines == 0
         && |s.readers[r].chatHistory| == Size(s) && s.readers[r].delivered == []
  }

  // ----- the steps

  /** The writer's next step; an idle writer takes up message `m`, or drops it when the history is full. */
  function WriterStep(s: State, m: Message): State
    requires s.currentPos < Size(s)
  {
    match s.writer
    case Idle =>
      if s.historyCount >= Size(s) then s
      else s.(slots := s.slots[s.currentPos := Torn], writer := Copying(m), accepted := s.accepted + [m])
    case Copying(msg) => s.(slots := s.slots[s.currentPos := Whole(msg)], writer := Copied)
    case Copied => s.(currentPos := (s.currentPos + 1) % Size(s), writer := Advanced)
    case Advanced =>
      s.(historyCount := if s.historyCount < Size(s) then s.historyCount + 1 else s.historyCount, writer := Idle)
  }

  /** What the reader's copy yields: only a whole slot gives a message. */
  predicate CanFetch(s: State, r: Reader) {
    r.lastReadPos < Size(s) && s.slots[r.lastReadPos].Whole?
  }

  /** The next step of one reader. */
  function ReaderStep(s: State, r: Reader): Reader
    requires Size(s) > 0 && (r.pc.Reading? ==> CanFetch(s, r))
    requires r.pc.Fetched? ==> r.chatLines < |r.chatHistory|
  {
    match r.pc
    case Checking => if r.lastReadPos != s.currentPos then r.(pc := Reading) else r
    case Reading => r.(pc := Fetched(s.slots[r.lastReadPos].m))
    case Fetched(m) =>
      r.(pc := Stored, chatHistory := r.chatHistory[r.chatLines := Whole(m)], delivered := r.delivered + [m])
    case Stored => r.(pc := Counted, chatLines := if r.chatLines + 1 >= Size(s) then 0 else r.chatLines + 1)
    case Counted => r.(pc := Checking, lastReadPos := (r.lastReadPos + 1) % Size(s))
  }

  // ----- the invariant

  /** How many messages readers may look at. */
  function Published(s: State): nat {
    s.historyCount + if s.writer.Advanced? then 1 else 0
  }

  /** How many messages a reader is completely done with. */
  function Done(r: Reader): nat {
    if (r.pc.Stored? || r.pc.Counted?) && |r.delivered| > 0 then |r.delivered| - 1 else |r.delivered|
  }

  /** Where a position that started at 0 and moved `d` times stands, at most once around. */
  function Position(d: nat, size: nat): nat
    requires d <= size
  {
    if d == size then 0 else d
  }

  lemma NextPosition(d: nat, size: nat)
    requires d < size
    ensures (d + 1) % size == Position(d + 1, size)
  {
  }

  /** The ring is written once, front to back; only the slot after the published ones is ever in flux. */
  ghost predicate WriterInv(s: State) {
    && Size(s) > 0 && Published(s) <= Size(s)
    && s.currentPos == Position(Published(s), Size(s))
    && |s.accepted| == s.historyCount + (if s.writer.Idle? then 0 else 1) && |s.accepted| <= Size(s)
    && (forall i :: 0 <= i < Published(s) ==> s.slots[i] == Whole(s.accepted[i]))
    && (s.writer.Copying? ==> s.writer.m == s.accepted[s.historyCount] && s.slots[s.historyCount] == Torn)
    && (s.writer.Copied? ==> s.slots[s.historyCount] == Whole(s.accepted[s.historyCount]))
  }

  /** A reader has delivered a prefix of the accepted messages, and stands right behind it. */
  ghost predicate ReaderInv(s: State, r: Reader) {
    && 0 < Size(s) == |r.chatHistory|
    && |r.delivered| <= Published(s) <= |s.accepted| <= Size(s)
    && r.delivered == s.accepted[..|r.delivered|]
    && ((r.pc.Stored? || r.pc.Counted?) ==> |r.delivered| > 0)
    && ((r.pc.Reading? || r.pc.Fetched?) ==> Done(r) < Published(s))
    && (r.pc.Fetched? ==> r.pc.m == s.accepted[Done(r)])
    && r.lastReadPos == Position(Done(r), Size(s))
    && r.chatLines == Position(if r.pc.Counted? then |r.delivered| else Done(r), Size(s))
    && (forall i :: 0 <= i < |r.delivered| ==> r.chatHistory[i] == Whole(r.delivered[i]))
  }

  ghost predicate Inv(s: State) {
    WriterInv(s) && forall r :: r in s.readers ==> ReaderInv(s, s.readers[r])
  }

  lemma InitialInv(s: State)
    requires Initial(s)
    ensures Inv(s)
  {
  }

  /** A reader that copies a slot always finds it whole. */
  lemma ReadsWholeSlot(s: State, r: Reader)
    requires WriterInv(s) && ReaderInv(s, r) && r.pc.Reading?
    ensures CanFetch(s, r) && s.slots[r.lastReadPos] == Whole(s.accepted[|r.delivered|])
  {
  }

  lemma WriterKeepsWriterInv(s: State, m: Message)
    requires WriterInv(s)
    ensures WriterInv(WriterStep(s, m))
    ensures Published(s) <= Published(WriterStep(s, m)) && s.accepted <= WriterStep(s, m).accepted
  {
    if s.writer.Copied? {
      NextPosition(s.historyCount, Size(s));
    }
  }

  lemma WriterKeepsReader(s: State, m: Message, r: Reader)
    requires WriterInv(s) && ReaderInv(s, r)
    ensures ReaderInv(WriterStep(s, m), r)
  {
    WriterKeepsWriterInv(s, m);
    var s' := WriterStep(s, m);
    assert s'.accepted[..|r.delivered|] == s.accepted[..|r.delivered|];
  }

  lemma ReaderKeepsInv(s: State, r: Reader)
    requires WriterInv(s) && ReaderInv(s, r)
    ensures (r.pc.Reading? ==> CanFetch(s, r)) && (r.pc.Fetched? ==> r.chatLines < |r.chatHistory|)
    ensures ReaderInv(s, ReaderStep(s, r))
  {
    if r.pc.Reading? {
      ReadsWholeSlot(s, r);
    } else if r.pc.Counted? {
      NextPosition(Done(r), Size(s));
    }
  }

  // ----- every interleaving

  ghost predicate WriterMoves(s: State, s': State) {
    s.currentPos < Size(s) && exists m :: s' == WriterStep(s, m)
  }

  ghost predicate ReaderMoves(s: State, s': State, id: int) {
    && id in s.readers && Size(s) > 0
    && var r := s.readers[id];
       && (r.pc.Reading? ==> CanFetch(s, r)) && (r.pc.Fetched? ==> r.chatLines < |r.chatHistory|)
       && s' == s.(readers := s.readers[id := ReaderStep(s, r)])
  }

  ghost predicate Moves(s: State, s': State) {
    WriterMoves(s, s') || exists id :: ReaderMoves(s, s', id)
  }

  ghost predicate IsRun(run: seq<State>) {
    && run != [] && Initial(run[0])
    && forall i :: 0 <= i < |run| - 1 ==> Moves(run[i], run[i + 1])
  }

  lemma WriterMoveKeepsInv(s: State, s': State)
    requires Inv(s) && WriterMoves(s, s')
    ensures Inv(s') && Size(s') == Size(s) && s'.readers == s.readers
    ensures Published(s) <= Published(s') && s.accepted <= s'.accepted
  {
    var m :| s' == WriterStep(s, m);
    WriterKeepsWriterInv(s, m);
    forall r | r in s.readers ensures ReaderInv(s', s.readers[r]) {
      WriterKeepsReader(s, m, s.readers[r]);
    }
  }

  lemma ReaderMoveKeepsInv(s: State, s': State, id: int)
    requires Inv(s) && ReaderMoves(s, s', id)
    ensures Inv(s') && s'.slots == s.slots && s'.accepted == s.accepted && s'.readers.Keys == s.readers.Keys
    ensures Published(s) == Published(s')
  {
    ReaderKeepsInv(s, s.readers[id]);
    forall r | r in s'.readers ensures ReaderInv(s', s'.readers[r]) {
      assert ReaderInv(s, s'.readers[r]);
    }
  }

  lemma MoveKeepsInv(s: State, s': State)
    requires Inv(s) && Moves(s, s')
    ensures Inv(s') && Size(s') == Size(s) && s'.readers.Keys == s.readers.Keys
    ensures Published(s) <= Published(s') && s.accepted <= s'.accepted
  {
    if WriterMoves(s, s') {
      WriterMoveKeepsInv(s, s');
    } else {
      var id :| ReaderMoves(s, s', id);
      ReaderMoveKeepsInv(s, s', id);
    }
  }

  lemma {:induction false} RunKeepsInv(run: seq<State>, i: nat)
    requires IsRun(run) && i < |run|
    ensures Inv(run[i]) && Size(run[i]) == Size(run[0]) && run[i].readers.Keys == run[0].readers.Keys
  {
    if i > 0 {
      RunKeepsInv(run, i - 1);
      assert Moves(run[i - 1], run[i - 1 + 1]);
      MoveKeepsInv(run[i - 1], run[i]);
    } else {
      InitialInv(run[0]);
    }
  }

  /** In every interleaving: a reader delivers a prefix of the accepted messages, of which there are
      at most as many as slots; its two positions agree between messages; and no step ever gets
      stuck on a slot that is blank or half written. */
  lemma ReadersDeliverPrefix(run: seq<State>, i: nat, id: int)
    requires IsRun(run) && i < |run| && id in run[i].readers
    ensures var s, r := run[i], run[i].readers[id];
            && r.delivered <= s.accepted && |s.accepted| <= Size(run[0])
            && (r.pc.Checking? ==> r.chatLines == r.lastReadPos)
            && (r.pc.Reading? ==> CanFetch(s, r) && r.delivered + [s.slots[r.lastReadPos].m] <= s.accepted)
            && exists s' :: ReaderMoves(s, s', id)
  {
    RunKeepsInv(run, i);
    var s, r := run[i], run[i].readers[id];
    ReaderKeepsInv(s, r);
    if r.pc.Reading? {
      ReadsWholeSlot(s, r);
    }
    assert ReaderMoves(s, s.(readers := s.readers[id := ReaderStep(s, r)]), id);
  }

  lemma {:induction false} AcceptedGrows(run: seq<State>, i: nat, j: nat)
    requires IsRun(run) && i <= j < |run|
    ensures Published(run[i]) <= Published(run[j]) && run[i].accepted <= run[j].accepted
  {
    if i < j {
      var k := j - 1;
      AcceptedGrows(run, i, k);
      RunKeepsInv(run, k);
      assert Moves(run[k], run[k + 1]);
      MoveKeepsInv(run[k], run[k + 1]);
    }
  }

  /** A slot that readers may look at is never written again. */
  lemma NeverOverwritten(run: seq<State>, i: nat, j: nat, p: nat)
    requires IsRun(run) && i <= j < |run| && p < Published(run[i])
    ensures p < |run[i].slots| && p < |run[j].slots| && run[j].slots[p] == run[i].slots[p] && run[i].slots[p].Whole?
  {
    RunKeepsInv(run, i);
    RunKeepsInv(run, j);
    AcceptedGrows(run, i, j);
    assert run[j].accepted[p] == run[i].accepted[p];
  }

  // ----- draining

  /** A reader that has read nothing while the whole ring is published: both positions are 0. */
  predicate LockedOut(s: State, r: Reader) {
    r.pc.Checking? && r.delivered == [] && Published(s) == Size(s)
  }

  /** The test in the reader's loop fails exactly when it has read everything, or is locked out. */
  lemma CheckFailsIff(s: State, r: Reader)
    requires WriterInv(s) && ReaderInv(s, r) && r.pc.Checking?
    ensures ReaderStep(s, r) == r <==> |r.delivered| == Published(s) || LockedOut(s, r)
  {
  }

  /** The steps a reader still has to take for everything that is published. */
  function Remaining(s: State, r: Reader): int {
    var taken :=
      match r.pc case Checking => 0 case Reading => 1 case Fetched(_) => 2 case Stored => 3 case Counted => 4;
    5 * (Published(s) - Done(r)) - taken
  }

  /** The reader, left alone with what is published. */
  function Drain(s: State, r: Reader): (d: Reader)
    requires WriterInv(s) && ReaderInv(s, r)
    ensures ReaderInv(s, d) && d.pc.Checking?
    ensures |d.delivered| == if LockedOut(s, r) then 0 else Published(s)
    decreases Remaining(s, r)
  {
    ReaderKeepsInv(s, r);
    if r.pc.Checking? && r.lastReadPos == s.currentPos then
      CheckFailsIff(s, r);
      r
    else
      assert r.pc.Checking? ==> !LockedOut(s, r) && |r.delivered| < Published(s) by {
        if r.pc.Checking? {
          CheckFailsIff(s, r);
        }
      }
      Drain(s, ReaderStep(s, r))
  }

  /** A reader can drain everything exactly when it is not locked out; once it has read one
      message, or while the history is not full, it never is. */
  lemma DrainsUnlessLockedOut(s: State, r: Reader)
    requires WriterInv(s) && ReaderInv(s, r)
    ensures Drain(s, r).delivered == s.accepted[..Published(s)] <==> !LockedOut(s, r)
    ensures r.delivered != [] || Published(s) < Size(s) ==> !LockedOut(s, r)
  {
  }

  lemma LockedOutStep(s: State, s': State, id: int)
    requires Inv(s) && Moves(s, s') && id in s.readers && LockedOut(s, s.readers[id])
    ensures id in s'.readers && LockedOut(s', s'.readers[id])
  {
    MoveKeepsInv(s, s');
    CheckFailsIff(s, s.readers[id]);
  }

  /** A reader that is locked out stays so: whatever happens afterwards, it delivers nothing. */
  lemma {:induction false} LockedOutForever(run: seq<State>, i: nat, j: nat, id: int)
    requires IsRun(run) && i <= j < |run| && id in run[i].readers && LockedOut(run[i], run[i].readers[id])
    ensures id in run[j].readers && LockedOut(run[j], run[j].readers[id])
  {
    if i < j {
      var k := j - 1;
      LockedOutForever(run, i, k, id);
      RunKeepsInv(run, k);
      assert Moves(run[k], run[k + 1]);
      LockedOutStep(run[k], run[k + 1], id);
    }
  }

  // ----- a run that locks a reader out

  function Last(run: seq<State>): State
    requires run != []
  {
    run[|run| - 1]
  }

  lemma WriterGoesOn(run: seq<State>, m: Message)
    requires IsRun(run)
    ensures Last(run).currentPos < Size(Last(run)) && IsRun(run + [WriterStep(Last(run), m)])
    ensures Inv(Last(run)) && Size(Last(run)) == Size(run[0])
  {
    RunKeepsInv(run, |run| - 1);
    var longer := run + [WriterStep(Last(run), m)];
    forall i | 0 <= i < |longer| - 1 ensures Moves(longer[i], longer[i + 1]) {
      assert i < |run| - 1 ==> Moves(run[i], run[i + 1]);
      assert i == |run| - 1 ==> WriterMoves(longer[i], longer[i + 1]);
    }
  }

  /** One whole `add_to_history` at the end of a run. */
  lemma WriterRecords(run: seq<State>, m: Message) returns (longer: seq<State>)
    requires IsRun(run) && Last(run).writer == Idle && Last(run).historyCount < Size(run[0])
    ensures IsRun(longer) && longer[0] == run[0] && Last(longer).readers == Last(run).readers
    ensures Last(longer).writer == Idle && Last(longer).historyCount == Last(run).historyCount + 1
  {
    longer := run;
    for i := 0 to 4
      invariant IsRun(longer) && longer[0] == run[0] && Last(longer).readers == Last(run).readers
      invariant Last(longer).historyCount == Last(run).historyCount + if i == 4 then 1 else 0
      invariant match i case 0 => Last(longer).writer.Idle? case 1 => Last(longer).writer.Copying?
                        case 2 => Last(longer).writer.Copied? case 3 => Last(longer).writer.Advanced?
                        case _ => Last(longer).writer.Idle?
    {
      WriterGoesOn(longer, m);
      longer := longer + [WriterStep(Last(longer), m)];
    }
  }

  /** In a ring of any size: as many messages as it has slots, before reader 0 takes its first step. */
  lemma {:induction false} WriterFirst(size: nat, k: nat, m: Message) returns (run: seq<State>)
    requires k <= size && size > 0
    ensures IsRun(run) && Size(run[0]) == size
    ensures Last(run).writer == Idle && Last(run).historyCount == k
    ensures 0 in Last(run).readers && Last(run).readers[0].pc == Checking && Last(run).readers[0].delivered == []
  {
    if k == 0 {
      var idle := Reader(Checking, 0, 0, seq(size, _ => Blank), []);
      run := [State(seq(size, _ => Blank), 0, 0, Idle, map[0 := idle], [])];
    } else {
      run := WriterFirst(size, k - 1, m);
      run := WriterRecords(run, m);
    }
  }

  /** In a ring of any size a reader can come to be locked out, before it has read anything. */
  lemma LockedOutHappens(size: nat, m: Message) returns (run: seq<State>)
    requires size > 0
    ensures IsRun(run) && Size(run[0]) == size
    ensures 0 in Last(run).readers && LockedOut(Last(run), Last(run).readers[0])
    ensures |Last(run).accepted| == size
  {
    run := WriterFirst(size, size, m);
    RunKeepsInv(run, |run| - 1);
  }
}
