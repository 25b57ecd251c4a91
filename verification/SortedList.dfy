/** The phone book: a doubly linked list of records, kept sorted by name. */
module SortedList {
  import opened Dictionary

  datatype Abonent = Abonent(name: string, secondName: string, tel: string)

  // ----- the list as a sequence

  ghost predicate Sorted(s: seq<Abonent>) {
    forall i, j :: 0 <= i < j < |s| ==> Strcmp(s[i].name, s[j].name) <= 0
  }

  /** The first position whose name is not smaller than `name`. */
  function Position(s: seq<Abonent>, name: string): (k: nat)
    ensures k <= |s|
    ensures forall i :: 0 <= i < k ==> Strcmp(name, s[i].name) > 0
    ensures k < |s| ==> Strcmp(name, s[k].name) <= 0
  {
    if s == [] || Strcmp(name, s[0].name) <= 0 then 0 else 1 + Position(s[1..], name)
  }

  function InsertedAt(s: seq<Abonent>, k: nat, d: Abonent): seq<Abonent>
    requires k <= |s|
  {
    s[..k] + [d] + s[k..]
  }

  function Inserted(s: seq<Abonent>, d: Abonent): seq<Abonent> {
    InsertedAt(s, Position(s, d.name), d)
  }

  /** The first position with that name, or |s|. */
  function IndexOf(s: seq<Abonent>, name: string): (k: nat)
    ensures k <= |s|
    ensures forall i :: 0 <= i < k ==> s[i].name != name
    ensures k < |s| ==> s[k].name == name
  {
    if s == [] || s[0].name == name then 0 else 1 + IndexOf(s[1..], name)
  }

  function Deleted(s: seq<Abonent>, name: string): seq<Abonent> {
    var k := IndexOf(s, name);
    if k == |s| then s else s[..k] + s[k + 1..]
  }

  datatype Op = Insert(data: Abonent) | Delete(name: string)

  function Apply(s: seq<Abonent>, op: Op): seq<Abonent> {
    match op
    case Insert(d) => Inserted(s, d)
    case Delete(name) => Deleted(s, name)
  }

  function Run(ops: seq<Op>): seq<Abonent> {
    if ops == [] then [] else Apply(Run(ops[..|ops| - 1]), ops[|ops| - 1])
  }

  lemma InsertKeepsSorted(s: seq<Abonent>, d: Abonent)
    requires Sorted(s)
    ensures Sorted(Inserted(s, d))
  {
    var k := Position(s, d.name);
    forall i | 0 <= i < |s| ensures if i < k then Strcmp(s[i].name, d.name) <= 0 else Strcmp(d.name, s[i].name) <= 0 {
      StrcmpEqual(d.name, s[i].name);
      if k < i {
        StrcmpTransitive(d.name, s[k].name, s[i].name);
      }
    }
  }

  lemma {:induction false} RunSorted(ops: seq<Op>)
    ensures Sorted(Run(ops))
  {
    if ops != [] {
      RunSorted(ops[..|ops| - 1]);
      match ops[|ops| - 1] {
        case Insert(d) => InsertKeepsSorted(Run(ops[..|ops| - 1]), d);
        case Delete(_) =>
      }
    }
  }

  /** After any run no record stands before one whose name precedes its own in the dictionary. */
  lemma RunInDictionaryOrder(ops: seq<Op>)
    ensures forall i, j :: 0 <= i < j < |Run(ops)| ==> !Precedes(Run(ops)[j].name, Run(ops)[i].name)
  {
    var s := Run(ops);
    RunSorted(ops);
    forall i, j | 0 <= i < j < |s| ensures !Precedes(s[j].name, s[i].name) {
      StrcmpEqual(s[i].name, s[j].name);
      StrcmpIsDictionary(s[j].name, s[i].name);
    }
  }

  /** Looking a name up straight after inserting it finds the new record, before all equal names. */
  lemma FindAfterInsert(s: seq<Abonent>, d: Abonent)
    ensures IndexOf(Inserted(s, d), d.name) == Position(s, d.name)
    ensures Inserted(s, d)[Position(s, d.name)] == d
  {
    var k := Position(s, d.name);
    assert Inserted(s, d)[k] == d;
    forall i | 0 <= i < k ensures Inserted(s, d)[i].name != d.name {
      StrcmpEqual(d.name, s[i].name);
      assert Inserted(s, d)[i] == s[i];
    }
  }

  /** Deleting a name straight after inserting it restores the list. */
  lemma DeleteUndoesInsert(s: seq<Abonent>, d: Abonent)
    ensures Deleted(Inserted(s, d), d.name) == s
  {
    FindAfterInsert(s, d);
  }

  // ----- for each name, the list is a stack

  function WithName(s: seq<Abonent>, name: string): seq<Abonent> {
    if s == [] then []
    else if s[0].name == name then [s[0]] + WithName(s[1..], name)
    else WithName(s[1..], name)
  }

  lemma {:induction false} WithNameOfConcat(a: seq<Abonent>, b: seq<Abonent>, name: string)
    ensures WithName(a + b, name) == WithName(a, name) + WithName(b, name)
  {
    if a == [] {
      assert a + b == b;
    } else {
      assert (a + b)[1..] == a[1..] + b;
      WithNameOfConcat(a[1..], b, name);
    }
  }

  lemma {:induction false} WithNameAbsent(s: seq<Abonent>, name: string)
    requires forall i :: 0 <= i < |s| ==> s[i].name != name
    ensures WithName(s, name) == []
  {
    if s != [] {
      WithNameAbsent(s[1..], name);
    }
  }

  lemma InsertPushes(s: seq<Abonent>, d: Abonent, name: string)
    ensures WithName(Inserted(s, d), name) == (if d.name == name then [d] else []) + WithName(s, name)
  {
    var k := Position(s, d.name);
    WithNameOfConcat(s[..k] + [d], s[k..], name);
    WithNameOfConcat(s[..k], [d], name);
    WithNameOfConcat(s[..k], s[k..], name);
    assert s[..k] + s[k..] == s;
    if d.name == name {
      forall i | 0 <= i < k ensures s[..k][i].name != name {
        StrcmpEqual(d.name, s[i].name);
      }
      WithNameAbsent(s[..k], name);
    }
  }

  lemma DeletePops(s: seq<Abonent>, gone: string, name: string)
    ensures WithName(Deleted(s, gone), name) ==
            if gone == name && WithName(s, name) != [] then WithName(s, name)[1..] else WithName(s, name)
  {
    var k := IndexOf(s, gone);
    if k < |s| {
      var a, x, b := s[..k], s[k], s[k + 1..];
      assert s == a + [x] + b;
      WithNameOfConcat(a + [x], b, name);
      WithNameOfConcat(a, [x], name);
      WithNameOfConcat(a, b, name);
      if gone == name {
        WithNameAbsent(a, name);
      }
    } else if gone == name {
      WithNameAbsent(s, name);
    }
  }

  /** What a separate stack per name would hold after `ops`. */
  function Stack(ops: seq<Op>, name: string): seq<Abonent> {
    if ops == [] then []
    else
      var st := Stack(ops[..|ops| - 1], name);
      match ops[|ops| - 1]
      case Insert(d) => if d.name == name then [d] + st else st
      case Delete(n) => if n == name && st != [] then st[1..] else st
  }

  /** After any run of inserts and deletes the records of each name are a stack, newest first. */
  lemma {:induction false} RunIsStackPerName(ops: seq<Op>, name: string)
    ensures WithName(Run(ops), name) == Stack(ops, name)
  {
    if ops != [] {
      var s := Run(ops[..|ops| - 1]);
      RunIsStackPerName(ops[..|ops| - 1], name);
      match ops[|ops| - 1] {
        case Insert(d) => InsertPushes(s, d, name);
        case Delete(gone) => DeletePops(s, gone, name);
      }
    }
  }

  /** A lookup finds the newest record of that name that was not deleted. */
  lemma FindsTopOfStack(ops: seq<Op>, name: string)
    ensures var s, k, st := Run(ops), IndexOf(Run(ops), name), Stack(ops, name);
            (k == |s| <==> st == []) && (k < |s| ==> s[k] == st[0])
  {
    RunIsStackPerName(ops, name);
    FirstOfName(Run(ops), name);
  }

  lemma {:induction false} FirstOfName(s: seq<Abonent>, name: string)
    ensures var k, named := IndexOf(s, name), WithName(s, name);
            (k == |s| <==> named == []) && (k < |s| ==> named != [] && s[k] == named[0])
  {
    if s != [] && s[0].name != name {
      FirstOfName(s[1..], name);
    }
  }

  // ----- the list in the heap

  class Node {
    var data: Abonent
    var prev: Node?
    var next: Node?

    /** `create_node` */
    constructor (d: Abonent)
      ensures data == d && prev == null && next == null
    {
      data, prev, next := d, null, null;
    }
  }

  lemma DifferentWith(nodes: seq<Node>, k: nat, node: Node, more: seq<Node>)
    requires (forall i, j :: 0 <= i < j < |nodes| ==> nodes[i] != nodes[j]) && node !in nodes && k <= |nodes|
    requires more == nodes[..k] + [node] + nodes[k..]
    ensures forall i, j :: 0 <= i < j < |more| ==> more[i] != more[j]
  {
    forall i, j | 0 <= i < j < |more| ensures more[i] != more[j] {
      assert i != k ==> more[i] == nodes[if i < k then i else i - 1];
      assert j != k ==> more[j] == nodes[if j < k then j else j - 1];
    }
  }

  class List {
    var head: Node?
    ghost var nodes: seq<Node>
    ghost var freed: set<Node>

    /** The list has no cycle, every `prev` mirrors a `next`, and no node in use was freed. */
    ghost predicate Valid()
      reads this, nodes
    {
      && head == (if nodes == [] then null else nodes[0])
      && (forall i {:trigger nodes[i].next} :: 0 <= i < |nodes| ==>
            nodes[i].next == if i + 1 < |nodes| then nodes[i + 1] else null)
      && (forall i {:trigger nodes[i].prev} :: 0 <= i < |nodes| ==>
            nodes[i].prev == if i > 0 then nodes[i - 1] else null)
      && (forall i, j :: 0 <= i < j < |nodes| ==> nodes[i] != nodes[j])
      && (forall i :: 0 <= i < |nodes| ==> nodes[i] !in freed)
    }

    ghost function Contents(): (c: seq<Abonent>)
      reads this, nodes
      ensures |c| == |nodes|
    {
      seq(|nodes|, i requires 0 <= i < |nodes| reads this, nodes => nodes[i].data)
    }

    constructor ()
      ensures Valid() && Contents() == [] && freed == {}
    {
      head, nodes, freed := null, [], {};
    }

    ghost method Free(node: Node)
      requires node !in freed
      modifies this`freed
      ensures freed == old(freed) + {node}
    {
      freed := freed + {node};
    }

    /** The search loop of `insert`: stops at the first name not smaller, or at the last node. */
    method Seek(name: string) returns (curr: Node, ghost k: nat)
      requires Valid() && head != null
      ensures k < |nodes| && curr == nodes[k]
      ensures if Strcmp(name, curr.data.name) <= 0 then Position(Contents(), name) == k
              else k == |nodes| - 1 && Position(Contents(), name) == |nodes|
    {
      curr, k := head, 0;
      while Strcmp(name, curr.data.name) > 0
        invariant 0 <= k < |nodes| && curr == nodes[k]
        invariant forall i :: 0 <= i < k ==> Strcmp(name, Contents()[i].name) > 0
        decreases |nodes| - k
      {
        if curr.next == null {
          break;
        }
        curr, k := curr.next, k + 1;
      }
      assert curr.data == Contents()[k];
    }

    method LinkFirst(node: Node)
      requires Valid() && head != null && node !in nodes && node !in freed && node.prev == null
      modifies this`head, this`nodes, node`next, nodes`prev
      ensures Valid() && nodes == [node] + old(nodes) && Contents() == InsertedAt(old(Contents()), 0, node.data)
    {
      node.next := head;
      head.prev := node;
      head := node;
      nodes := [node] + nodes;
    }

    method LinkLast(node: Node, curr: Node)
      requires Valid() && nodes != [] && curr == nodes[|nodes| - 1]
      requires node !in nodes && node !in freed && node.next == null
      modifies this`nodes, node`prev, nodes`next
      ensures Valid() && nodes == old(nodes) + [node]
      ensures Contents() == InsertedAt(old(Contents()), |old(nodes)|, node.data)
    {
      curr.next := node;
      node.prev := curr;
      nodes := nodes + [node];
    }

    method LinkBefore(node: Node, curr: Node, ghost k: nat)
      requires Valid() && k < |nodes| && curr == nodes[k] && node !in nodes && node !in freed
      modifies this`head, this`nodes, node`prev, node`next, nodes`prev, nodes`next
      ensures Valid() && nodes == old(nodes)[..k] + [node] + old(nodes)[k..]
    {
      node.prev := curr.prev;
      node.next := curr;
      if curr.prev != null {
        curr.prev.next := node;
      }
      curr.prev := node;
      if curr == head {
        head := node;
      }
      ghost var all := nodes;
      nodes := nodes[..k] + [node] + nodes[k..];
      DifferentWith(all, k, node, nodes);
    }

    method LinkInside(node: Node, curr: Node, ghost k: nat)
      requires Valid() && k < |nodes| && curr == nodes[k] && node !in nodes && node !in freed
      modifies this`head, this`nodes, node`prev, node`next, nodes`prev, nodes`next
      ensures Valid() && Contents() == InsertedAt(old(Contents()), k, node.data)
      ensures forall n :: n in nodes ==> n == node || n in old(nodes)
    {
      LinkBefore(node, curr, k);
    }

    /** `insert` into a list that is not empty. */
    method Place(node: Node)
      requires Valid() && head != null && node !in nodes && node !in freed && node.prev == null && node.next == null
      modifies this`head, this`nodes, node`prev, node`next, nodes`prev, nodes`next
      ensures Valid() && Contents() == Inserted(old(Contents()), node.data)
      ensures forall n :: n in nodes ==> n == node || n in old(nodes)
    {
      var curr;
      ghost var k;
      curr, k := Seek(node.data.name);
      if curr == head && Strcmp(node.data.name, curr.data.name) < 0 {
        assert k == 0;
        LinkFirst(node);
      } else if curr.next == null && Strcmp(node.data.name, curr.data.name) > 0 {
        LinkLast(node, curr);
      } else {
        LinkInside(node, curr, k);
      }
    }

    /** `insert` */
    method Add(d: Abonent)
      requires Valid()
      modifies this`head, this`nodes, nodes`prev, nodes`next
      ensures Valid() && Contents() == Inserted(old(Contents()), d)
      ensures forall n :: n in nodes && n !in old(nodes) ==> fresh(n)
    {
      ghost var s := Contents();
      var node := new Node(d);
      if head == null {
        head, nodes := node, [node];
      } else {
        assert Contents() == s;
        Place(node);
      }
    }

    method Unlink(curr: Node, ghost k: nat)
      requires Valid() && k < |nodes| && curr == nodes[k]
      modifies this`head, this`nodes, nodes`prev, nodes`next
      ensures Valid() && nodes == old(nodes)[..k] + old(nodes)[k + 1..] && curr !in nodes
    {
      if curr.prev != null {
        curr.prev.next := curr.next;
      } else {
        head := curr.next;
      }
      if curr.next != null {
        curr.next.prev := curr.prev;
      }
      nodes := nodes[..k] + nodes[k + 1..];
    }

    /** `delete_node`: 0 if a node was deleted, 1 if there is none of that name. */
    method Remove(name: string) returns (status: int)
      requires Valid()
      modifies this`head, this`nodes, this`freed, nodes`prev, nodes`next
      ensures Valid() && Contents() == Deleted(old(Contents()), name)
      ensures status == if IndexOf(old(Contents()), name) < |old(Contents())| then 0 else 1
      ensures status == 0 ==> freed == old(freed) + {old(nodes)[IndexOf(old(Contents()), name)]}
      ensures status == 1 ==> freed == old(freed)
    {
      var curr;
      ghost var k;
      curr, k := Find(name);
      if curr == null {
        return 1;
      }
      Take(curr, k);
      Free(curr);
      status := 0;
    }

    method Take(curr: Node, ghost k: nat)
      requires Valid() && k < |nodes| && curr == nodes[k]
      modifies this`head, this`nodes, nodes`prev, nodes`next
      ensures Valid() && Contents() == old(Contents())[..k] + old(Contents())[k + 1..]
      ensures curr !in nodes && curr !in freed
    {
      Unlink(curr, k);
    }

    /** `find_by_name`, and the search loop of `delete_node`. */
    method Find(name: string) returns (curr: Node?, ghost k: nat)
      requires Valid()
      ensures var i := IndexOf(Contents(), name); curr == if i < |nodes| then nodes[i] else null
      ensures k == IndexOf(Contents(), name)
    {
      curr, k := head, 0;
      while curr != null && curr.data.name != name
        invariant 0 <= k <= |nodes| && curr == if k < |nodes| then nodes[k] else null
        invariant forall i :: 0 <= i < k ==> Contents()[i].name != name
        decreases |nodes| - k
      {
        curr, k := curr.next, k + 1;
      }
      assert k < |nodes| ==> Contents()[k] == curr.data;
    }

    /** `free_list`: frees every node, each one after its successor was read. */
    method FreeAll()
      requires Valid()
      modifies this`freed
      ensures freed == old(freed) + (set n | n in nodes)
    {
      var curr := head;
      ghost var k := 0;
      while curr != null
        invariant 0 <= k <= |nodes| && curr == if k < |nodes| then nodes[k] else null
        invariant freed == old(freed) + (set n | n in nodes[..k])
        decreases |nodes| - k
      {
        var tmp := curr;
        curr := curr.next;
        Free(tmp);
        assert nodes[..k + 1] == nodes[..k] + [tmp];
        k := k + 1;
      }
      assert nodes[..k] == nodes;
    }
  }
}
