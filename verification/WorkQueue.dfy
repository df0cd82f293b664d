/** The outbound queue: a linked list with head and tail, shared by the reader
    thread and the network thread. Each method is one mutex section. */
module WorkQueue {
  import opened Frames
  import opened LinkedLists

  class Queue {
    var head: Node?<Frame>
    var tail: Node?<Frame>
    ghost var nodes: seq<Node<Frame>>
    /** The nodes, as the footprint of the list. */
    ghost var Repr: set<Node<Frame>>

    ghost predicate Valid()
      reads this, Repr
    {
      IsQueue(head, tail, nodes, Repr)
    }

    ghost function Contents(): seq<Frame>
      reads this
    {
      Items(nodes)
    }

    constructor ()
      ensures Valid() && nodes == [] && Repr == {}
    {
      head, tail, nodes, Repr := null, null, [], {};
    }

    /** Appends a node that is not in the list; a null node is ignored. */
    method Push(f: Node?<Frame>)
      requires Valid() && (f != null ==> f !in nodes)
      modifies this, tail, f
      ensures Valid() && Repr == old(Repr) + (if f == null then {} else {f})
      ensures f == null ==> nodes == old(nodes)
      ensures f != null ==> nodes == old(nodes) + [f] && Contents() == old(Contents()) + [f.item]
    {
      if f == null { return; }
      f.next := null;
      if tail != null {
        tail.next := f;
      } else {
        head := f;
      }
      tail := f;
      ghost var k := |nodes|;
      FollowerSnoc(nodes, f);
      nodes := nodes + [f];
      Repr := Repr + {f};
      assert forall i :: 0 <= i < k ==> nodes[i].next == Follower(nodes, i);
    }

    /** Detaches the whole list. */
    method Drain() returns (h: Node?<Frame>, ghost detached: seq<Node<Frame>>)
      requires Valid()
      modifies this
      ensures Valid() && nodes == [] && Repr == {}
      ensures detached == old(nodes) && Linked(h, detached)
    {
      h := head;
      detached := nodes;
      head, tail := null, null;
      nodes, Repr := [], {};
    }

    /** Empties the list; the result is the nodes freed, in order, each once. */
    method Destroy() returns (freed: seq<Node<Frame>>)
      requires Valid()
      modifies this
      ensures Valid() && nodes == [] && freed == old(nodes)
    {
      var cur, detached := Drain();
      freed := [];
      ghost var first := cur;
      while cur != null
        invariant Valid() && nodes == [] && Linked(first, detached)
        invariant |freed| <= |detached| && freed == detached[..|freed|]
        invariant cur == if |freed| < |detached| then detached[|freed|] else null
        decreases |detached| - |freed|
      {
        var next := cur.next;
        assert next == Follower(detached, |freed|);
        freed := freed + [cur];
        cur := next;
      }
    }
  }
}
