/** Singly linked lists: the shape of the outbound frame queue and of the
    datagram queue. */
module LinkedLists {

  class Node<T> {
    var next: Node?<T>
    const item: T

    constructor (item: T)
      ensures this.item == item && next == null
    {
      this.item := item;
      next := null;
    }
  }

  /** The items of a list of nodes, in order. */
  ghost function Items<T>(nodes: seq<Node<T>>): seq<T> {
    seq(|nodes|, i requires 0 <= i < |nodes| => nodes[i].item)
  }

  ghost function Follower<T>(nodes: seq<Node<T>>, i: nat): Node?<T>
    requires i < |nodes|
  {
    if i + 1 < |nodes| then nodes[i + 1] else null
  }

  /** The nodes are distinct and linked in this order, and the list ends with
      the last of them. */
  ghost predicate Linked<T>(first: Node?<T>, nodes: seq<Node<T>>)
    reads nodes
  {
    && (if |nodes| == 0 then first == null else first == nodes[0])
    && (forall i :: 0 <= i < |nodes| ==> nodes[i].next == Follower(nodes, i))
    && (forall i, j :: 0 <= i < j < |nodes| ==> nodes[i] != nodes[j])
  }

  lemma FollowerSnoc<T>(nodes: seq<Node<T>>, f: Node<T>)
    ensures forall i :: 0 <= i < |nodes| ==>
              Follower(nodes + [f], i) == if i + 1 < |nodes| then Follower(nodes, i) else f
    ensures Follower(nodes + [f], |nodes|) == null
  {
  }

  lemma FollowerTail<T>(nodes: seq<Node<T>>)
    requires |nodes| > 0
    ensures forall i :: 0 <= i < |nodes| - 1 ==> Follower(nodes[1..], i) == Follower(nodes, i + 1)
  {
  }

  /** Head and tail hold the list of these nodes, which lie in repr. */
  ghost predicate IsQueue<T>(head: Node?<T>, tail: Node?<T>, nodes: seq<Node<T>>, repr: set<Node<T>>)
    reads repr
  {
    && (forall i :: 0 <= i < |nodes| ==> nodes[i] in repr)
    && Linked(head, nodes)
    && (if |nodes| == 0 then tail == null else tail == nodes[|nodes| - 1])
  }
}
