/** The server's table of clients: ten slots, some in use, with a message counter each. */
module UdpClients {
  const MAX_CLIENTS := 10

  datatype Key = Key(ip: int, port: int)

  datatype Slot = Slot(key: Key, counter: nat, used: bool)

  const FREE := Slot(Key(0, 0), 0, false)

  /** One accepted datagram: who sent it, and whether its payload is "quit". */
  datatype Message = Message(key: Key, quit: bool)

  datatype Reply = Silence | Counter(n: nat)

  // ----- the table as a bounded map

  type Table = map<Key, nat>

  /** Known clients are always admitted, new ones while there is room. */
  predicate Admitted(t: Table, key: Key) {
    key in t || |t| < MAX_CLIENTS
  }

  /** The table in which `key` has a slot, new or old. */
  function WithClient(t: Table, key: Key): Table {
    if key in t then t else t[key := 0]
  }

  function Handle(t: Table, m: Message): (Table, Reply) {
    if !Admitted(t, m.key) then (t, Silence)
    else if m.quit then (t - {m.key}, Silence)
    else
      var n := (if m.key in t then t[m.key] else 0) + 1;
      (t[m.key := n], Counter(n))
  }

  function Run(ms: seq<Message>): Table {
    if ms == [] then map[] else Handle(Run(ms[..|ms| - 1]), ms[|ms| - 1]).0
  }

  // ----- what a counter counts

  /** The `i`-th message found its sender in the table, or room for it. */
  predicate AdmittedAt(ms: seq<Message>, i: nat)
    requires i < |ms|
  {
    Admitted(Run(ms[..i]), ms[i].key)
  }

  /** Just behind the last admitted "quit" of `key`, or 0. */
  function AfterQuit(ms: seq<Message>, key: Key): (t: nat)
    ensures t <= |ms|
  {
    if ms == [] then 0
    else if ms[|ms| - 1] == Message(key, true) && AdmittedAt(ms, |ms| - 1) then |ms|
    else AfterQuit(ms[..|ms| - 1], key)
  }

  lemma {:induction false} AfterQuitIsLast(ms: seq<Message>, key: Key, i: nat)
    requires i < |ms| && ms[i] == Message(key, true) && AdmittedAt(ms, i)
    ensures i < AfterQuit(ms, key)
  {
    var before := ms[..|ms| - 1];
    if i < |before| {
      assert before[..i] == ms[..i] && before[i] == ms[i];
      AfterQuitIsLast(before, key, i);
    }
  }

  lemma {:induction false} AfterQuitIsQuit(ms: seq<Message>, key: Key)
    ensures var t := AfterQuit(ms, key); t > 0 ==> ms[t - 1] == Message(key, true) && AdmittedAt(ms, t - 1)
  {
    var t := AfterQuit(ms, key);
    if 0 < t < |ms| {
      AfterQuitIsQuit(ms[..|ms| - 1], key);
      assert ms[..|ms| - 1][..t - 1] == ms[..t - 1];
    }
  }

  /** How many of the messages from position `t` on are admitted messages of `key` other than "quit". */
  function CountFrom(ms: seq<Message>, t: nat, key: Key): nat {
    if |ms| <= t then 0
    else
      var n := |ms| - 1;
      CountFrom(ms[..n], t, key) + if ms[n] == Message(key, false) && AdmittedAt(ms, n) then 1 else 0
  }

  /** A counter is the number of messages its client had admitted since it was let in or last quit;
      a client is in the table exactly when that number is positive; and at most ten are. */
  lemma {:induction false} CountersCount(ms: seq<Message>, key: Key)
    ensures (if key in Run(ms) then Run(ms)[key] else 0) == CountFrom(ms, AfterQuit(ms, key), key)
    ensures key in Run(ms) <==> CountFrom(ms, AfterQuit(ms, key), key) > 0
  {
    if ms != [] {
      var n := |ms| - 1;
      var m := ms[n];
      CountersCount(ms[..n], key);
      if m == Message(key, true) && AdmittedAt(ms, n) {
        assert AfterQuit(ms, key) == |ms|;
      } else {
        assert AfterQuit(ms, key) == AfterQuit(ms[..n], key);
      }
    }
  }

  lemma {:induction false} TableBounded(ms: seq<Message>)
    ensures |Run(ms)| <= MAX_CLIENTS
  {
    if ms != [] {
      TableBounded(ms[..|ms| - 1]);
      var t, m := Run(ms[..|ms| - 1]), ms[|ms| - 1];
      assert m.key in t ==> t[m.key := 0].Keys == t.Keys;
      assert (t - {m.key}).Keys <= t.Keys;
      KeysBound(t - {m.key}, t);
    }
  }

  lemma KeysBound(a: Table, b: Table)
    requires a.Keys <= b.Keys
    ensures |a| <= |b|
  {
    SubsetSize(a.Keys, b.Keys);
    assert |a| == |a.Keys| && |b| == |b.Keys|;
  }

  lemma {:induction false} SubsetSize(a: set<Key>, b: set<Key>)
    requires a <= b
    ensures |a| <= |b| && (|a| == |b| ==> a == b)
  {
    if x :| x in a {
      SubsetSize(a - {x}, b - {x});
    } else {
      assert a == {};
    }
  }

  /** The counter in a reply is the number of that client's messages, this one included. */
  lemma ReplyCounts(ms: seq<Message>, m: Message, n: nat)
    requires Handle(Run(ms), m).1 == Counter(n)
    ensures n == CountFrom(ms + [m], AfterQuit(ms + [m], m.key), m.key)
  {
    assert (ms + [m])[..|ms|] == ms;
    CountersCount(ms + [m], m.key);
  }

  /** Who is refused: exactly a client that has no counter while ten others have one. It gets no
      answer, and no counter changes. */
  lemma RefusedIff(ms: seq<Message>, m: Message)
    ensures !Admitted(Run(ms), m.key) <==>
            CountFrom(ms, AfterQuit(ms, m.key), m.key) == 0 && |Run(ms)| == 10
    ensures !Admitted(Run(ms), m.key) ==> Run(ms + [m]) == Run(ms) && Handle(Run(ms), m).1 == Silence
    ensures Admitted(Run(ms), m.key) && m.quit ==> Handle(Run(ms), m).1 == Silence && m.key !in Run(ms + [m])
    ensures Admitted(Run(ms), m.key) && !m.quit ==> Handle(Run(ms), m).1.Counter?
    ensures forall key :: key != m.key ==>
              (key in Run(ms + [m]) <==> key in Run(ms)) && (key in Run(ms) ==> Run(ms + [m])[key] == Run(ms)[key])
  {
    CountersCount(ms, m.key);
    TableBounded(ms);
    assert (ms + [m])[..|ms|] == ms;
  }

  // ----- the slots

  /** No two slots in use have the same key. */
  ghost predicate Distinct(slots: seq<Slot>) {
    forall i, j :: 0 <= i < j < |slots| && slots[i].used && slots[j].used ==> slots[i].key != slots[j].key
  }

  ghost predicate Holds(slots: seq<Slot>, i: int, key: Key) {
    0 <= i < |slots| && slots[i].used && slots[i].key == key
  }

  /** The table that the slots represent, holes and all. */
  ghost predicate Represents(slots: seq<Slot>, t: Table) {
    && Distinct(slots)
    && (forall i :: 0 <= i < |slots| && slots[i].used ==> slots[i].key in t && t[slots[i].key] == slots[i].counter)
    && (forall key :: key in t ==> exists i :: Holds(slots, i, key))
  }

  function UsedKeys(slots: seq<Slot>): set<Key> {
    if slots == [] then {}
    else UsedKeys(slots[..|slots| - 1]) + if slots[|slots| - 1].used then {slots[|slots| - 1].key} else {}
  }

  lemma {:induction false} UsedKeysAre(slots: seq<Slot>, key: Key)
    ensures key in UsedKeys(slots) <==> exists i :: Holds(slots, i, key)
  {
    if slots != [] {
      var n := |slots| - 1;
      UsedKeysAre(slots[..n], key);
      if i :| Holds(slots[..n], i, key) {
        assert Holds(slots, i, key);
      }
      if Holds(slots, n, key) {
      } else if i :| Holds(slots, i, key) {
        assert Holds(slots[..n], i, key);
      }
    }
  }

  lemma {:induction false} UsedKeysCount(slots: seq<Slot>)
    requires Distinct(slots)
    ensures |UsedKeys(slots)| <= |slots|
    ensures |UsedKeys(slots)| == |slots| <==> forall i :: 0 <= i < |slots| ==> slots[i].used
  {
    if slots != [] {
      var n := |slots| - 1;
      UsedKeysCount(slots[..n]);
      UsedKeysAre(slots[..n], slots[n].key);
      assert forall i :: 0 <= i < n ==> slots[..n][i] == slots[i];
    }
  }

  /** The table is full exactly when every slot is in use. */
  lemma UsedCount(slots: seq<Slot>, t: Table)
    requires Represents(slots, t)
    ensures |t| <= |slots|
    ensures |t| == |slots| <==> forall i :: 0 <= i < |slots| ==> slots[i].used
  {
    assert t.Keys == UsedKeys(slots) by {
      forall key ensures key in t <==> key in UsedKeys(slots) {
        UsedKeysAre(slots, key);
        if i :| Holds(slots, i, key) {
          assert key in t;
        }
      }
    }
    UsedKeysCount(slots);
    assert |t| == |t.Keys|;
  }

  class Clients {
    var slots: array<Slot>

    ghost predicate Ok(t: Table)
      reads this, slots
    {
      slots.Length == MAX_CLIENTS && Represents(slots[..], t)
    }

    constructor ()
      ensures Ok(map[]) && fresh(slots)
    {
      slots := new Slot[MAX_CLIENTS](_ => FREE);
    }

    /** `get_client_index`: the slot of `key`, a free slot taken for it, or -1. */
    method GetClientIndex(key: Key, ghost t: Table) returns (idx: int)
      requires Ok(t)
      modifies slots
      ensures |t| <= MAX_CLIENTS && (idx == -1 <==> key !in t && |t| == MAX_CLIENTS)
      ensures idx == -1 ==> Ok(t)
      ensures idx != -1 ==>
                && Holds(slots[..], idx, key)
                && Ok(WithClient(t, key))
    {
      UsedCount(slots[..], t);
      for i := 0 to MAX_CLIENTS
        invariant forall k :: 0 <= k < i ==> !Holds(slots[..], k, key)
      {
        if slots[i].used && slots[i].key == key {
          return i;
        }
      }
      assert key !in t;
      for i := 0 to MAX_CLIENTS
        invariant forall k :: 0 <= k < i ==> slots[k].used
        invariant slots[..] == old(slots[..])
      {
        if !slots[i].used {
          SlotTaken(slots[..], t, i, key);
          slots[i] := Slot(key, 0, true);
          return i;
        }
      }
      idx := -1;
    }

    /** `reset_client` */
    method ResetClient(idx: nat, ghost t: Table, key: Key)
      requires Ok(t) && Holds(slots[..], idx, key)
      modifies slots
      ensures Ok(t - {key})
    {
      SlotFreed(slots[..], t, idx, key);
      slots[idx] := FREE;
    }

    /** What `main` does with the datagrams that pass its filter. */
    method HandleMessage(m: Message, ghost t: Table) returns (r: Reply)
      requires Ok(t)
      modifies slots
      ensures Ok(Handle(t, m).0) && r == Handle(t, m).1
    {
      var idx := GetClientIndex(m.key, t);
      if idx == -1 {
        return Silence;
      }
      KnownClient(t, m);
      if m.quit {
        ResetClient(idx, WithClient(t, m.key), m.key);
        return Silence;
      }
      var n := CountMessage(idx, WithClient(t, m.key), m.key);
      r := Counter(n);
    }

    /** `clients[idx].counter++` */
    method CountMessage(idx: nat, ghost t: Table, key: Key) returns (n: nat)
      requires Ok(t) && Holds(slots[..], idx, key)
      modifies slots
      ensures n == t[key] + 1 && Ok(t[key := n])
    {
      SlotCounted(slots[..], t, idx, key);
      slots[idx] := slots[idx].(counter := slots[idx].counter + 1);
      n := slots[idx].counter;
    }
  }

  /** Taking a slot first and deciding then is the same as deciding at once. */
  lemma KnownClient(t: Table, m: Message)
    requires Admitted(t, m.key)
    ensures var known := WithClient(t, m.key);
            && m.key in known
            && Handle(t, m) == if m.quit then (known - {m.key}, Silence)
                               else (known[m.key := known[m.key] + 1], Counter(known[m.key] + 1))
  {
    var known := WithClient(t, m.key);
    assert known - {m.key} == t - {m.key};
    assert known[m.key := known[m.key] + 1] == t[m.key := known[m.key] + 1];
  }

  lemma SlotTaken(slots: seq<Slot>, t: Table, i: nat, key: Key)
    requires Represents(slots, t) && i < |slots| && !slots[i].used && key !in t
    ensures Represents(slots[i := Slot(key, 0, true)], t[key := 0])
  {
    var after := slots[i := Slot(key, 0, true)];
    var t' := t[key := 0];
    forall k | k in t' ensures exists j :: Holds(after, j, k) {
      if k == key {
        assert Holds(after, i, k);
      } else {
        var j :| Holds(slots, j, k);
        assert Holds(after, j, k);
      }
    }
  }

  lemma SlotFreed(slots: seq<Slot>, t: Table, i: nat, key: Key)
    requires Represents(slots, t) && Holds(slots, i, key)
    ensures Represents(slots[i := FREE], t - {key})
  {
    var after := slots[i := FREE];
    forall k | k in t - {key} ensures exists j :: Holds(after, j, k) {
      var j :| Holds(slots, j, k);
      assert Holds(after, j, k);
    }
  }

  lemma SlotCounted(slots: seq<Slot>, t: Table, i: nat, key: Key)
    requires Represents(slots, t) && Holds(slots, i, key)
    ensures Represents(slots[i := slots[i].(counter := slots[i].counter + 1)], t[key := t[key] + 1])
    ensures t[key] == slots[i].counter
  {
    var after := slots[i := slots[i].(counter := slots[i].counter + 1)];
    forall k | k in t ensures exists j :: Holds(after, j, k) {
      var j :| Holds(slots, j, k);
      assert Holds(after, j, k);
    }
  }
}
