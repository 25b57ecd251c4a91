/** The linked queue of the consumer/producer server, as its mutex protects it:
    the code between lock and unlock of each operation, on its nodes. */
module WorkQueue {

  /** A queue that refuses when it is full, or when no node can be allocated. */
  predicate Admits(queued: nat, capacity: int, nodeAllocated: bool) {
    queued < capacity && nodeAllocated
  }

  class Node {
    var clientFd: int
    var next: Node?

    constructor (fd: int)
      ensures clientFd == fd && next == null
    {
      clientFd, next := fd, null;
    }
  }

  class ThreadQueue {
    var front: Node?
    var rear: Node?
    var size: int
    var capacity: int
    ghost var nodes: seq<Node>   // the nodes from front to rear
    ghost var freed: set<Node>   // the nodes given to free()

    /** The links run from `front` through `nodes`, none of which was freed. */
    ghost predicate Chain()
      reads this, nodes
    {
      && front == (if nodes == [] then null else nodes[0])
      && (forall i {:trigger nodes[i].next} :: 0 <= i < |nodes| ==>
            nodes[i].next == if i + 1 < |nodes| then nodes[i + 1] else null)
      && (forall i, j :: 0 <= i < j < |nodes| ==> nodes[i] != nodes[j])
      && (forall i :: 0 <= i < |nodes| ==> nodes[i] !in freed)
    }

    ghost predicate Valid()
      reads this, nodes
    {
      && Chain() && size == |nodes|
      && rear == if nodes == [] then null else nodes[|nodes| - 1]
    }

    /** The descriptors in the queue, oldest first. */
    ghost function Contents(): (c: seq<int>)
      reads this, nodes
      ensures |c| == |nodes|
    {
      seq(|nodes|, i requires 0 <= i < |nodes| reads this, nodes => nodes[i].clientFd)
    }

    /** `init_queue` */
    constructor (capacity: int)
      ensures Valid() && Contents() == [] && this.capacity == capacity && freed == {}
    {
      front, rear, size, this.capacity := null, null, 0, capacity;
      nodes, freed := [], {};
    }

    ghost method Free(node: Node)
      requires node !in freed
      modifies this`freed
      ensures freed == old(freed) + {node}
    {
      freed := freed + {node};
    }

    /** The locked part of `enqueue`; `mallocOk` is whether malloc returns a node. */
    method Enqueue(fd: int, mallocOk: bool) returns (status: int)
      requires Valid()
      modifies this`front, this`rear, this`size, this`nodes, nodes
      ensures Valid() && forall n :: n in nodes && n !in old(nodes) ==> fresh(n)
      ensures status == if |old(Contents())| < capacity && mallocOk then 0 else -1
      ensures Contents() == if status == 0 then old(Contents()) + [fd] else old(Contents())
    {
      if size >= capacity {
        return -1;
      }
      if !mallocOk {
        return -1;
      }
      var node := new Node(fd);
      if rear == null {
        front, rear := node, node;
      } else {
        rear.next := node;
        rear := node;
      }
      size := size + 1;
      nodes := nodes + [node];
      status := 0;
    }

    /** The locked part of `dequeue`, and the free that follows it. */
    method Dequeue() returns (status: int, fd: int)
      requires Valid()
      modifies this`front, this`rear, this`size, this`nodes, this`freed
      ensures Valid()
      ensures status == if old(Contents()) == [] then -1 else 0
      ensures status == 0 ==> fd == old(Contents())[0] && Contents() == old(Contents())[1..]
      ensures status == 0 ==> freed == old(freed) + {old(front)} && old(front) !in old(freed)
      ensures status == -1 ==> Contents() == old(Contents()) && freed == old(freed)
    {
      if front == null {
        return -1, -1;
      }
      var temp := front;
      fd := temp.clientFd;
      front := front.next;
      if front == null {
        rear := null;
      }
      size := size - 1;
      nodes := nodes[1..];
      Free(temp);
      status := 0;
    }

    /** One round of the loop of `cleanup_queue`: close and free the front node. */
    method CloseFront() returns (fd: int)
      requires Chain() && front != null
      modifies this`front, this`nodes, this`freed
      ensures Chain() && [fd] + Contents() == old(Contents()) && nodes == old(nodes)[1..]
      ensures freed == old(freed) + {old(nodes)[0]}
    {
      var temp := front;
      front := front.next;
      fd := temp.clientFd;
      nodes := nodes[1..];
      Free(temp);
    }

    /** `cleanup_queue`: returns the descriptors in the order in which it closes them. */
    method Cleanup() returns (closed: seq<int>)
      requires Valid()
      modifies this`front, this`rear, this`size, this`nodes, this`freed
      ensures Valid() && Contents() == [] && closed == old(Contents())
      ensures freed == old(freed) + NodeSet(old(nodes))
    {
      closed := [];
      while front != null
        invariant Chain()
        invariant closed + Contents() == old(Contents())
        invariant freed + NodeSet(nodes) == old(freed) + NodeSet(old(nodes))
        decreases |nodes|
      {
        FrontAndRest(nodes);
        var fd := CloseFront();
        closed := closed + [fd];
      }
      rear := null;
      size := 0;
    }
  }

  ghost function NodeSet(nodes: seq<Node>): set<Node> {
    set n | n in nodes
  }

  lemma FrontAndRest(nodes: seq<Node>)
    requires nodes != []
    ensures NodeSet(nodes) == {nodes[0]} + NodeSet(nodes[1..])
  {
    assert nodes == [nodes[0]] + nodes[1..];
  }
}
