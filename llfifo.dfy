/** The linked-list FIFO of llfifo.c: a singly linked chain of nodes from
    `front` to `rear`, a count of stored nodes and a capacity fixed at
    creation. Elements are opaque references; `None` stands for a NULL one. */
module LlFifo {

  datatype Option<T> = None | Some(value: T)

  /** `node`, built by `newNode`. */
  class Node<T> {
    var key: T
    var next: Node?<T>

    /** `newNode`: a node holding `ele` and linked to nothing. */
    constructor (ele: T)
      ensures key == ele && next == null
    {
      key := ele;
      next := null;
    }
  }

  class Fifo<T> {
    var front: Node?<T>
    var rear: Node?<T>
    var allocatedNodes: nat
    var storedNodes: nat

    /** The elements on the FIFO, oldest first. */
    ghost var Contents: seq<T>
    /** The nodes of the chain, from `front` to `rear`. */
    ghost var Nodes: seq<Node<T>>

    /** The object invariant: `Nodes` are distinct, each linked to the next,
        the last to nothing; they hold `Contents` in order, `front` and `rear`
        are the first and last of them, and `storedNodes` counts them. */
    ghost predicate Valid()
      reads this, Nodes
    {
      |Nodes| == |Contents| == storedNodes &&
      (forall i :: 0 <= i < |Nodes| ==> Nodes[i].key == Contents[i]) &&
      (forall i :: 0 <= i < |Nodes| - 1 ==> Nodes[i].next == Nodes[i + 1]) &&
      (|Nodes| > 0 ==> Nodes[|Nodes| - 1].next == null) &&
      (forall i, j :: 0 <= i < j < |Nodes| ==> Nodes[i] != Nodes[j]) &&
      front == (if |Nodes| == 0 then null else Nodes[0]) &&
      rear == (if |Nodes| == 0 then null else Nodes[|Nodes| - 1])
    }

    /** The non-NULL branch of `llfifo_create`. */
    constructor (capacity: nat)
      ensures Valid()
      ensures Contents == [] && Nodes == [] && storedNodes == 0
      ensures front == null && rear == null && allocatedNodes == capacity
    {
      storedNodes := 0;
      allocatedNodes := capacity;
      front, rear := null, null;
      Contents, Nodes := [], [];
    }

    /** `llfifo_length`. */
    function Length(): (n: nat)
      reads this, Nodes
      requires Valid()
      ensures n == |Contents| && n == |Nodes|
      ensures n == 0 <==> front == null
      ensures n == 0 <==> rear == null
    {
      storedNodes
    }

    /** `llfifo_capacity`: the capacity given at creation. */
    function Capacity(): (c: nat)
      reads this
    {
      allocatedNodes
    }

    /** The node reached from `n` by following `next` `k` times. */
    ghost function Follow(n: Node?<T>, k: nat): (m: Node?<T>)
      reads this, Nodes
      decreases k
    {
      if k == 0 || n == null || n !in Nodes then n else Follow(n.next, k - 1)
    }

    /** From the `i`-th node, `k` steps along `next` reach the `(i+k)`-th
        node, or NULL just past the last one. */
    lemma {:induction false} FollowFrom(i: nat, k: nat)
      requires Valid() && i < |Nodes| && i + k <= |Nodes|
      ensures Follow(Nodes[i], k) == if i + k < |Nodes| then Nodes[i + k] else null
      decreases k
    {
      if k > 0 {
        if i + 1 < |Nodes| {
          FollowFrom(i + 1, k - 1);
        }
      }
    }

    /** The chain that starts at `front` has exactly `storedNodes` nodes, the
        last of them `rear`, and holds `Contents` in order. */
    lemma {:induction false} ChainMatchesLength()
      requires Valid()
      ensures Follow(front, storedNodes) == null
      ensures forall k :: 0 <= k < storedNodes ==> Follow(front, k) == Nodes[k] && Nodes[k].key == Contents[k]
      ensures storedNodes > 0 ==> Follow(front, storedNodes - 1) == rear
    {
      if storedNodes > 0 {
        FollowFrom(0, storedNodes);
        forall k | 0 <= k < storedNodes
          ensures Follow(front, k) == Nodes[k]
        {
          FollowFrom(0, k);
        }
      }
    }

    /** `llfifo_enqueue`, with the intended `else`: a NULL element is refused
        with -1 and nothing changes; otherwise a fresh node holding it is
        linked after `rear` and the new length is returned. */
    method Enqueue(element: Option<T>) returns (r: int)
      requires Valid()
      modifies this, Nodes
      ensures Valid() && allocatedNodes == old(allocatedNodes)
      ensures element.None? ==> r == -1 && unchanged(this) && unchanged(Nodes)
      ensures element.Some? ==> Contents == old(Contents) + [element.value] && r == |Contents|
      ensures element.Some? ==> Nodes[..|Nodes| - 1] == old(Nodes) && fresh(Nodes[|Nodes| - 1])
    {
      if element.Some? {
        var temp := new Node(element.value);
        if rear == null {
          front, rear := temp, temp;
        } else {
          rear.next := temp;
          rear := temp;
        }
        storedNodes := storedNodes + 1;
        Contents := Contents + [element.value];
        Nodes := Nodes + [temp];
        r := Length();
      } else {
        r := -1;
      }
    }

    /** `llfifo_dequeue`: unlink `front` and return its element, or `None`
        when the FIFO is empty (clearing `front` and `rear`). */
    method Dequeue() returns (e: Option<T>)
      requires Valid()
      modifies this
      ensures Valid() && allocatedNodes == old(allocatedNodes)
      ensures old(Contents) == [] ==> e == None && Contents == [] && Nodes == []
      ensures old(Contents) == [] ==> front == null && rear == null && storedNodes == 0
      ensures old(Contents) != [] ==> e == Some(old(Contents)[0]) && Contents == old(Contents)[1..]
      ensures old(Contents) != [] ==> Nodes == old(Nodes)[1..]
    {
      if storedNodes <= 0 {
        front := null;
        rear := null;
        return None;
      }
      var temp := front;
      assert |Nodes| > 1 ==> Nodes[0].next == Nodes[1];
      front := front.next;
      storedNodes := storedNodes - 1;
      if front == null {
        rear := null;
        storedNodes := 0;
      }
      e := Some(temp.key);
      Contents := Contents[1..];
      Nodes := Nodes[1..];
    }
  }

  /** `llfifo_create`: NULL for a negative capacity, otherwise an empty FIFO
      with that capacity. */
  method Create<T>(capacity: int) returns (fifo: Fifo?<T>)
    ensures fifo == null <==> capacity < 0
    ensures fifo != null ==> fresh(fifo) && fifo.Valid() && fifo.Contents == [] && fifo.Nodes == []
    ensures fifo != null ==> fifo.front == null && fifo.rear == null && fifo.storedNodes == 0
    ensures fifo != null ==> fifo.allocatedNodes == capacity
  {
    if capacity >= 0 {
      fifo := new Fifo(capacity);
    } else {
      fifo := null;
    }
  }

  /** `llfifo_destroy`: dequeue until the FIFO is empty; nothing for a NULL
      handle. Releasing the record itself is dropping the object. */
  method Destroy<T>(fifo: Fifo?<T>)
    requires fifo != null ==> fifo.Valid()
    modifies fifo
    ensures fifo != null ==> fifo.Valid() && fifo.Contents == [] && fifo.storedNodes == 0
    ensures fifo != null ==> fifo.front == null && fifo.rear == null
    ensures fifo != null ==> fifo.allocatedNodes == old(fifo.allocatedNodes)
  {
    if fifo != null {
      while fifo.storedNodes != 0
        invariant fifo.Valid() && fifo.allocatedNodes == old(fifo.allocatedNodes)
        decreases fifo.storedNodes
      {
        var _ := fifo.Dequeue();
      }
    }
  }
}
