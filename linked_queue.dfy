/** The singly linked FIFO of request timestamps that backs one tenant.

    A queue that has never been allocated is a null `Queue?`; an allocated
    queue may also hold no node at all once every entry has been dequeued.
    The ghost fields give the public view: `Contents` lists the timestamps
    from head to tail, `Nodes` the nodes in the same order, and `Repr` is
    the set of objects the queue owns. */
module LinkedQueue {
  import opened SlidingWindow

  /** A list node holding one timestamp; `new Node(data)` is allocate_node. */
  class Node {
    var data: int
    var next: Node?

    constructor (data: int)
      ensures this.data == data && next == null
    {
      this.data := data;
      next := null;
    }
  }

  class Queue {
    var head: Node?
    var tail: Node?
    var size: nat

    ghost var Contents: seq<int>
    ghost var Nodes: seq<Node>
    ghost var Repr: set<object>

    /** The object invariant: `size` counts the nodes, the nodes are linked
        from `head` to `tail` in order and are pairwise distinct, and an
        allocated queue with no node has both ends null. */
    ghost predicate Valid()
      reads this, Repr
      ensures Valid() ==> this in Repr
    {
      this in Repr &&
      |Nodes| == |Contents| == size &&
      (forall i :: 0 <= i < |Nodes| ==> Nodes[i] in Repr && Nodes[i].data == Contents[i]) &&
      (forall i :: 0 <= i < |Nodes| - 1 ==> Nodes[i].next == Nodes[i + 1]) &&
      (forall i, j :: 0 <= i < j < |Nodes| ==> Nodes[i] != Nodes[j]) &&
      (size == 0 ==> head == null && tail == null) &&
      (size > 0 ==> head == Nodes[0] && tail == Nodes[size - 1] && tail.next == null)
    }

    /** initialize_queue: a fresh queue whose only node holds `data`. */
    constructor Initialize(data: int)
      ensures Valid() && fresh(Repr)
      ensures Contents == [data] && size == 1
      ensures head == tail && head != null && head.data == data
    {
      var n := new Node(data);
      head, tail := n, n;
      size := 1;
      Contents, Nodes := [data], [n];
      Repr := {this, n};
    }
  }

  /** The abstract slot of a possibly unallocated queue. */
  ghost function Model(q: Queue?): (slot: Option<seq<int>>)
    reads q
  {
    if q == null then None else Some(q.Contents)
  }

  /** enqueue: append `data` at the tail, allocating the queue when it is
      absent. A queue drained to no node takes the new node as its head. */
  method Enqueue(q: Queue?, data: int) returns (r: Queue)
    requires q != null ==> q.Valid()
    modifies if q != null then q.Repr else {}
    ensures r.Valid() && r.tail != null && r.tail.data == data
    ensures q == null ==> fresh(r.Repr) && r.Contents == [data] && r.size == 1
    ensures q != null ==>
      r == q && r.Contents == old(q.Contents) + [data] && r.size == old(q.size) + 1 &&
      old(q.Repr) <= r.Repr && fresh(r.Repr - old(q.Repr))
    ensures q != null && old(q.size) == 0 ==> r.head == r.tail
  {
    if q == null {
      r := new Queue.Initialize(data);
      return;
    }
    var temp := new Node(data);
    if q.size != 0 {
      q.tail.next := temp;
    } else {
      q.head := temp;
    }
    q.tail := temp;
    q.size := q.size + 1;
    q.Contents := q.Contents + [data];
    q.Nodes := q.Nodes + [temp];
    q.Repr := q.Repr + {temp};
    r := q;
  }

  /** dequeue: remove and return the head timestamp; -1 for an absent or
      empty queue, which is then left as it was. */
  method Dequeue(q: Queue?) returns (data: int)
    requires q != null ==> q.Valid()
    modifies if q != null then {q} else {}
    ensures q != null ==> q.Valid() && q.Repr <= old(q.Repr)
    ensures q == null ==> data == -1
    ensures q != null && old(q.Contents) == [] ==> data == -1 && unchanged(q)
    ensures q != null && old(q.Contents) != [] ==>
      data == old(q.Contents)[0] && q.Contents == old(q.Contents)[1..] &&
      q.size == old(q.size) - 1 && (q.tail == null <==> q.Contents == [])
  {
    if q == null || q.head == null {
      return -1;
    }
    var p := q.head;
    q.head := q.head.next;
    if q.head == null {
      q.tail := null;
    }
    q.size := q.size - 1;
    data := p.data;
    q.Contents := q.Contents[1..];
    q.Nodes := q.Nodes[1..];
    q.Repr := q.Repr - {p};
  }

  /** destroy_queue: walk the list from the head and release every node,
      then clear both ends; nothing happens to an absent queue. The ghost
      result lists the nodes released, in the order they were visited. */
  method DestroyQueue(q: Queue?) returns (ghost freed: seq<Node>)
    requires q != null ==> q.Valid()
    modifies if q != null then {q} else {}
    ensures q == null ==> freed == []
    ensures q != null ==> freed == old(q.Nodes) && q.head == null && q.tail == null
  {
    freed := [];
    if q == null {
      return;
    }
    var temp := q.head;
    ghost var i := 0;
    while temp != null
      invariant 0 <= i <= |q.Nodes|
      invariant freed == q.Nodes[..i]
      invariant temp == if i < |q.Nodes| then q.Nodes[i] else null
      decreases |q.Nodes| - i
    {
      var next := temp.next;
      freed := freed + [temp];
      temp := next;
      i := i + 1;
    }
    q.head, q.tail := null, null;
  }
}
