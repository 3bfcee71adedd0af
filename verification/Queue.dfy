/** kernel/queue.c: a linked queue with pointers to its first and last node, refining a sequence. */
module Queues {
  class Node<T> {
    const item: T
    var next: Node?<T>

    constructor (data: T)
      ensures item == data && next == null
    {
      item, next := data, null;
    }
  }

  ghost function Items<T>(nodes: seq<Node<T>>): (s: seq<T>) {
    seq(|nodes|, i requires 0 <= i < |nodes| => nodes[i].item)
  }

  class Queue<T> {
    var head: Node?<T>
    var tail: Node?<T>
    ghost var nodes: seq<Node<T>>
    ghost var Repr: set<object>

    ghost predicate Linked(i: nat)
      reads this, nodes
    {
      i + 1 < |nodes| ==> nodes[i].next == nodes[i + 1]
    }

    ghost predicate TwoNodes(i: nat, j: nat)
      reads this
    {
      i < j < |nodes| ==> nodes[i] != nodes[j]
    }

    ghost predicate Valid()
      reads this, Repr
      ensures Valid() ==> this in Repr
    {
      && this in Repr && (forall i :: 0 <= i < |nodes| ==> nodes[i] in Repr)
      && (if nodes == [] then head == null && tail == null else head == nodes[0] && tail == nodes[|nodes| - 1])
      && (forall i: nat {:trigger Linked(i)} :: Linked(i))
      && (forall i: nat, j: nat {:trigger TwoNodes(i, j)} :: TwoNodes(i, j))
    }

    /** The items in the queue, first to last. */
    ghost function Contents(): (s: seq<T>)
      reads this, Repr
      requires Valid()
    {
      Items(nodes)
    }

    constructor ()
      ensures Valid() && Contents() == [] && fresh(Repr)
    {
      head, tail, nodes, Repr := null, null, [], {this};
    }

    method PushBack(data: T)
      requires Valid()
      modifies Repr
      ensures Valid() && fresh(Repr - old(Repr))
      ensures Contents() == old(Contents()) + [data]
    {
      var n := new Node<T>(data);
      ghost var before, size := nodes, |nodes|;
      assert forall i :: 0 <= i < size ==> nodes[i] != n;
      if head == tail && head == null {
        head, tail := n, n;
      } else {
        tail.next := n;
        tail := n;
      }
      nodes, Repr := nodes + [n], Repr + {n};
      forall i: nat
        ensures Linked(i)
      {
        assert old(Linked(i));
        if i + 1 < size { assert old(TwoNodes(i, size - 1)); }
      }
      assert Items(nodes) == Items(before) + [data];
      forall i: nat, j: nat
        ensures TwoNodes(i, j)
      {
        assert old(TwoNodes(i, j));
      }
    }

    /** The queue must hold something; callers ask IsEmpty first. */
    method PopFront() returns (ret: T)
      requires Valid() && Contents() != []
      modifies this
      ensures Valid() && Repr == old(Repr)
      ensures [ret] + Contents() == old(Contents())
    {
      ret := head.item;
      assert Linked(0) && TwoNodes(0, |nodes| - 1);
      if head == tail {
        head, tail := null, null;
      } else {
        head := head.next;
      }
      ghost var before := nodes;
      nodes := nodes[1..];
      forall i: nat
        ensures Linked(i)
      {
        assert old(Linked(i + 1));
      }
      forall i: nat, j: nat
        ensures TwoNodes(i, j)
      {
        assert old(TwoNodes(i + 1, j + 1));
      }
      assert Items(before) == [ret] + Items(nodes);
    }

    method IsEmpty() returns (empty: bool)
      requires Valid()
      ensures empty <==> Contents() == []
    {
      empty := head == tail && head == null;
    }
  }
}
