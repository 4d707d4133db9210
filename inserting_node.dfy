/**
 * insertingNodeSLL.py: a positional insert on a bare chain, given by its
 * head. Positions are 1-based: position 1 makes the new node the head, and
 * position p >= 2 puts it after the node at 1-based position p-1.
 */
module InsertingNode {
  import opened ListSpec
  import opened Chain

  /**
   * The 0-based index the new node gets. The walk before the splice runs
   * `position - 2` steps, which is no step at all for a position below 2,
   * so every position other than 1 that is at most 1 splices right after
   * the head.
   */
  function OneBasedSlot(position: int): nat
  {
    if position == 1 then 0 else if position >= 2 then position - 1 else 1
  }

  /**
   * The values after the insert, for the positions the function accepts:
   * position 1 always, any other position only on a non-empty chain and at
   * most one past its end.
   */
  function InsertNode<A>(s: seq<A>, position: int, x: A): (r: seq<A>)
    requires position == 1 || (s != [] && position <= |s| + 1)
    ensures |r| == |s| + 1 && r[OneBasedSlot(position)] == x
  {
    Splice(s, OneBasedSlot(position), x)
  }

  /** Position 1 is a prepend. */
  lemma InsertNodeFront<A>(s: seq<A>, x: A)
    ensures InsertNode(s, 1, x) == [x] + s
  {
    assert s[..0] == [] && s[0..] == s;
  }

  /**
   * For 2 <= p <= |s|+1 the new value is at 1-based position p, the p-1
   * values before it and the rest after it keep their order; p = |s|+1 appends.
   */
  lemma InsertNodeMiddle<A>(s: seq<A>, p: int, x: A)
    requires 2 <= p <= |s| + 1
    ensures InsertNode(s, p, x) == s[..p - 1] + [x] + s[p - 1..]
    ensures p == |s| + 1 ==> InsertNode(s, p, x) == s + [x]
  {
    if p == |s| + 1 {
      assert s[..p - 1] == s && s[p - 1..] == [];
    }
  }

  /** A position below 1 puts the new value second, after the head's. */
  lemma InsertNodeBelowOne<A>(s: seq<A>, p: int, x: A)
    requires p < 1 && s != []
    ensures InsertNode(s, p, x) == [s[0], x] + s[1..]
  {
    assert s[..1] == [s[0]];
  }

  /**
   * `insertNodePosition`: splice `newNode` in at 1-based `position` and
   * return the head of the result. Precondition: at position 1 nothing is
   * needed; otherwise the head is non-null and the position at most one past
   * the end, as the walk would run off the chain beyond that and read the
   * successor of nothing.
   */
  method InsertNodePosition<T>(head: Node?<T>, newNode: Node<T>, position: int, ghost nodes: seq<Node<T>>)
    returns (r: Node<T>)
    requires IsChain(head, nodes) && newNode !in nodes
    requires position == 1 || (head != null && position <= |nodes| + 1)
    modifies nodes, newNode
    ensures IsChain(r, Splice(nodes, OneBasedSlot(position), newNode))
    ensures Values(Splice(nodes, OneBasedSlot(position), newNode)) == InsertNode(Values(nodes), position, newNode.data)
    ensures r == if position == 1 then newNode else head
  {
    ValuesSpliced(nodes, OneBasedSlot(position), newNode);
    if position == 1 {
      newNode.next := head;
      assert Splice(nodes, 0, newNode) == [newNode] + nodes;
      return newNode;
    }
    var current := head;
    var i := 0;
    while i < position - 2
      invariant 0 <= i < |nodes|
      invariant if position >= 2 then i <= position - 2 else i == 0
      invariant current == nodes[i]
      decreases position - 2 - i
    {
      if current == null {
        break;
      }
      current := current.next;
      i := i + 1;
    }
    ghost var spliced := Splice(nodes, i + 1, newNode);
    assert At(spliced, 0) == head;
    LinkAfter(nodes, i + 1, current, newNode);
    return head;
  }
}
