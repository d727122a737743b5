/**
 * An append-only singly linked list with a head pointer, a tail pointer and a
 * size counter. The ghost sequence `nodes` names the chain reached from
 * `head`, and `Contents` the values stored along it.
 */
module Lists {

  class Node<T> {
    const value: T
    var next: Node?<T>

    constructor (value: T)
      ensures this.value == value && next == null
    {
      this.value := value;
      next := null;
    }
  }

  class List<T> {
    var size: nat
    var head: Node?<T>
    var tail: Node?<T>

    ghost var nodes: seq<Node<T>>
    ghost var Contents: seq<T>
    ghost var Repr: set<object>

    /**
     * `head` is null exactly when the list is empty, every node's `next` is
     * its successor in the chain, and `tail` is the last node of the chain.
     */
    ghost predicate Valid()
      reads this, Repr
    {
      && this in Repr
      && (forall i :: 0 <= i < |nodes| ==> nodes[i] in Repr)
      && size == |nodes| == |Contents|
      && (forall i :: 0 <= i < |nodes| ==> nodes[i].value == Contents[i])
      && (forall i :: 0 <= i < |nodes| ==>
            nodes[i].next == if i + 1 < |nodes| then nodes[i + 1] else null)
      && (forall i, j :: 0 <= i < j < |nodes| ==> nodes[i] != nodes[j])
      && head == (if nodes == [] then null else nodes[0])
      && tail == (if nodes == [] then null else nodes[|nodes| - 1])
    }

    /** Go's zero value `List{}`: an empty list. */
    constructor ()
      ensures Valid() && fresh(Repr)
      ensures Contents == [] && head == null && tail == null
    {
      size := 0;
      head, tail := null, null;
      nodes, Contents := [], [];
      Repr := {this};
    }

    method Size() returns (n: nat)
      requires Valid()
      ensures n == |Contents|
    {
      n := size;
    }

    /** Adds a value at the end of the list. */
    method Add(value: T)
      requires Valid()
      modifies Repr
      ensures Valid() && fresh(Repr - old(Repr))
      ensures Contents == old(Contents) + [value]
      ensures size == old(size) + 1
    {
      var node := new Node(value);
      if head == null {
        head := node;
      }
      if tail != null {
        tail.next := node;
      }
      tail := node;
      size := size + 1;
      nodes := nodes + [node];
      Contents := Contents + [value];
      Repr := Repr + {node};
    }

    /** Walks `size` nodes from `head`, collecting their values. */
    method ToSlice() returns (slice: seq<T>)
      requires Valid()
      ensures slice == Contents
    {
      slice := [];
      var node := head;
      var i := 0;
      while i < size
        invariant 0 <= i <= size
        invariant slice == Contents[..i]
        invariant node == if i < |nodes| then nodes[i] else null
      {
        slice := slice + [node.value];
        node := node.next;
        i := i + 1;
      }
    }
  }

  /** A fresh list holding the values of `slice`, in order. */
  method ListFromSlice<T>(slice: seq<T>) returns (list: List<T>)
    ensures list.Valid() && fresh(list.Repr)
    ensures list.Contents == slice
  {
    list := new List();
    for i := 0 to |slice|
      invariant list.Valid() && fresh(list.Repr)
      invariant list.Contents == slice[..i]
    {
      list.Add(slice[i]);
    }
  }

  /** Building a list from a slice and reading it back gives the slice. */
  method SliceRoundTrip<T>(slice: seq<T>) returns (back: seq<T>)
    ensures back == slice
  {
    var list := ListFromSlice(slice);
    back := list.ToSlice();
  }
}
