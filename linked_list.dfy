/**
 * The full singly linked list class. The repository carries it three times
 * (linkedList.py, myLinkedList.py, simple_linked_list.py) with the same
 * algorithms; they differ only in how `display` shows its result and in
 * whether a rejected positional insert prints a message. fccLinkedList.py
 * has a fourth copy of `append` and adds `print_list`.
 */
module LinkedLists {
  import opened ListSpec
  import opened Chain

  class LinkedList<T(==)> {
    var head: Node?<T>

    // public view: the values head to tail, and the nodes holding them
    ghost var Contents: seq<T>
    ghost var Nodes: seq<Node<T>>

    ghost predicate Valid()
      reads this, Nodes
    {
      IsChain(head, Nodes) && Contents == Values(Nodes)
    }

    /** An empty list: no head. */
    constructor ()
      ensures Valid() && Contents == [] && Nodes == [] && head == null
    {
      head := null;
      Contents, Nodes := [], [];
    }

    /** Add a new node holding `data` after the last node (or as head of an empty list). */
    method Append(data: T)
      requires Valid()
      modifies this, Nodes
      ensures Valid()
      ensures Contents == old(Contents) + [data]
      ensures |Nodes| == |old(Nodes)| + 1 && fresh(Nodes[|old(Nodes)|])
      ensures Nodes == old(Nodes) + [Nodes[|old(Nodes)|]]
      ensures old(head) != null ==> head == old(head)
    {
      var newNode := new Node(data);
      if head == null {
        head := newNode;
        Nodes, Contents := [newNode], [data];
        return;
      }
      var current := head;
      ghost var i := 0;
      while current.next != null
        invariant 0 <= i < |Nodes| && current == Nodes[i]
        invariant Valid() && Nodes == old(Nodes) && Contents == old(Contents)
        decreases |Nodes| - i
      {
        current := current.next;
        i := i + 1;
      }
      current.next := newNode;
      Nodes, Contents := Nodes + [newNode], Contents + [data];
    }

    /** Make a new node holding `data` the head, without walking the list. */
    method Prepend(data: T)
      requires Valid()
      modifies this
      ensures Valid()
      ensures Contents == [data] + old(Contents)
      ensures |Nodes| > 0 && fresh(Nodes[0]) && Nodes == [Nodes[0]] + old(Nodes)
    {
      var newNode := new Node(data);
      newNode.next := head;
      head := newNode;
      Nodes, Contents := [newNode] + Nodes, [data] + Contents;
    }

    /**
     * Remove the first node whose value equals `data`; an empty list or a
     * value that is absent leaves the list as it was.
     */
    method Delete(data: T) returns (ghost k: nat)
      requires Valid()
      modifies this, Nodes
      ensures Valid()
      ensures data !in old(Contents) ==> Contents == old(Contents) && Nodes == old(Nodes)
      ensures data in old(Contents) ==>
                IsFirst(old(Contents), data, k) && Contents == Without(old(Contents), k) && Nodes == Without(old(Nodes), k)
      ensures data in old(Contents) ==> old(Nodes)[k].next == old(Nodes[k].next)
    {
      if head == null {
        return 0;
      }
      if head.data == data {
        head := head.next;
        Nodes, Contents := Nodes[1..], Contents[1..];
        return 0;
      }
      // The walk stops at the node before the first match, or at the tail.
      var current := head;
      ghost var i := 0;
      while current.next != null && current.next.data != data
        invariant 0 <= i < |Nodes| && current == Nodes[i]
        invariant forall j :: 0 <= j <= i ==> Nodes[j].data != data
        decreases |Nodes| - i
      {
        current := current.next;
        i := i + 1;
      }
      if current.next == null {
        return 0;
      }
      k := i + 1;
      current.next := current.next.next;
      Unlinked(Nodes, k);
      Nodes, Contents := Without(Nodes, k), Without(Contents, k);
    }

    /** Whether some node holds `data`; false on an empty list. */
    method Find(data: T) returns (found: bool)
      requires Valid()
      ensures found <==> data in Contents
    {
      var current := head;
      ghost var i := 0;
      while current != null
        invariant 0 <= i <= |Nodes|
        invariant current == At(Nodes, i)
        invariant data !in Contents[..i]
        decreases |Nodes| - i
      {
        if current.data == data {
          return true;
        }
        current := current.next;
        i := i + 1;
        assert Contents[..i] == Contents[..i - 1] + [Contents[i - 1]];
      }
      assert Contents[..i] == Contents;
      return false;
    }

    /** The number of nodes, counted by a full traversal. */
    method GetSize() returns (count: nat)
      requires Valid()
      ensures count == |Contents|
    {
      count := 0;
      var current := head;
      while current != null
        invariant count <= |Nodes|
        invariant current == At(Nodes, count)
        decreases |Nodes| - count
      {
        count := count + 1;
        current := current.next;
      }
    }

    /** The values head to tail, as the list `display` returns (empty for an empty list). */
    method Display() returns (elements: seq<T>)
      requires Valid()
      ensures elements == Contents
    {
      if head == null {
        return [];
      }
      elements := Traverse(head, Nodes);
    }

    /**
     * The ordered listing `print_list` writes: one line "* " followed by the
     * rendering of the value, per node, head to tail. `render` stands for the
     * conversion of a value to text.
     */
    method PrintList(render: T -> string) returns (lines: seq<string>)
      requires Valid()
      ensures |lines| == |Contents|
      ensures forall i :: 0 <= i < |lines| ==> lines[i] == "* " + render(Contents[i])
    {
      lines := [];
      var current := head;
      while current != null
        invariant |lines| <= |Nodes|
        invariant current == At(Nodes, |lines|)
        invariant forall i :: 0 <= i < |lines| ==> lines[i] == "* " + render(Contents[i])
        decreases |Nodes| - |lines|
      {
        lines := lines + ["* " + render(current.data)];
        current := current.next;
      }
    }

    /**
     * Insert `data` at `position`. Position 0 is a prepend; otherwise the
     * walk to the preceding node must not reach null, and when it would the
     * insert is rejected (`ok` false) before any link changes.
     */
    method InsertAtPosition(position: int, data: T) returns (ok: bool)
      requires Valid()
      modifies this, Nodes
      ensures Valid()
      ensures ok <==> InsertAt(old(Contents), position, data).Some?
      ensures ok ==> Contents == InsertAt(old(Contents), position, data).value
      ensures ok ==> Slot(position) < |Nodes| && fresh(Nodes[Slot(position)])
                     && Nodes == Splice(old(Nodes), Slot(position), Nodes[Slot(position)])
      ensures !ok ==> Contents == old(Contents) && Nodes == old(Nodes) && head == old(head)
    {
      if position == 0 {
        Prepend(data);
        assert Contents == Splice(old(Contents), 0, data);
        assert Nodes == Splice(old(Nodes), 0, Nodes[0]);
        return true;
      }
      var newNode := new Node(data);
      var current := head;
      var i := 0;
      while i < position - 1
        invariant 0 <= i <= |Nodes|
        invariant if position >= 1 then i <= position - 1 else i == 0
        invariant current == At(Nodes, i)
        decreases position - 1 - i
      {
        if current == null {
          return false;
        }
        current := current.next;
        i := i + 1;
      }
      if current == null {
        return false;
      }
      assert i + 1 == Slot(position);
      ghost var spliced := Splice(Nodes, i + 1, newNode);
      assert At(spliced, 0) == head;
      LinkAfter(Nodes, i + 1, current, newNode);
      ValuesSpliced(Nodes, i + 1, newNode);
      Nodes, Contents := spliced, Splice(Contents, i + 1, data);
      return true;
    }

    /**
     * Reverse every link in place with the previous/current/next walk; the
     * former tail becomes the head.
     */
    method Reverse()
      requires Valid()
      modifies this, Nodes
      ensures Valid()
      ensures Contents == Reversed(old(Contents))
      ensures Nodes == Reversed(old(Nodes))
      ensures multiset(Nodes) == multiset(old(Nodes))
    {
      var previous: Node?<T> := null;
      var current := head;
      ghost var n := |Nodes|;
      ghost var i := 0;
      while current != null
        invariant Nodes == old(Nodes) && Contents == old(Contents) && n == |Nodes|
        invariant 0 <= i <= n
        invariant current == At(Nodes, i)
        invariant previous == if i == 0 then null else Nodes[i - 1]
        invariant forall k {:trigger Nodes[k].next} :: 0 <= k < i ==> Nodes[k].next == if k == 0 then null else Nodes[k - 1]
        invariant forall k {:trigger Nodes[k].next} :: i <= k < n ==> Nodes[k].next == if k + 1 < n then Nodes[k + 1] else null
        decreases n - i
      {
        var nextNode := current.next;
        current.next := previous;
        previous := current;
        current := nextNode;
        i := i + 1;
      }
      head := previous;
      ghost var walked := Nodes;
      Nodes, Contents := Reversed(Nodes), Reversed(Contents);
      LinkedBackwards(walked, head);
      ValuesReversed(walked);
      ReverseMultiset(walked);
    }
  }
}
