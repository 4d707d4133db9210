/**
 * lowestValueSLL.py: the smallest value of a non-empty chain of integers,
 * found by one read-only walk.
 */
module LowestValue {
  import opened Chain

  /** Reference definition: the minimum of a non-empty sequence, built front to back. */
  function Minimum(s: seq<int>): int
    requires s != []
  {
    if |s| == 1 then s[0]
    else if s[|s| - 1] < Minimum(s[..|s| - 1]) then s[|s| - 1]
    else Minimum(s[..|s| - 1])
  }

  /** The minimum is one of the values and no value is below it. */
  lemma {:induction false} MinimumIsLeast(s: seq<int>)
    requires s != []
    ensures Minimum(s) in s
    ensures forall v :: v in s ==> Minimum(s) <= v
  {
    if |s| > 1 {
      var front := s[..|s| - 1];
      MinimumIsLeast(front);
      assert s == front + [s[|s| - 1]];
    }
  }

  /** A single value is its own minimum. */
  lemma MinimumSingle(v: int)
    ensures Minimum([v]) == v
  {
  }

  /**
   * `fildLowestValue`: start from the head's value and lower it at every
   * later node holding less. The head is read unconditionally, so it must be
   * non-null; the chain is never changed.
   */
  method FindLowestValue(head: Node<int>, ghost nodes: seq<Node<int>>) returns (minValue: int)
    requires IsChain(head, nodes)
    ensures minValue == Minimum(Values(nodes))
    ensures minValue in Values(nodes)
    ensures forall i :: 0 <= i < |nodes| ==> minValue <= nodes[i].data
  {
    minValue := head.data;
    var current := head.next;
    ghost var i := 1;
    assert Values(nodes)[..1] == [head.data];
    while current != null
      invariant 1 <= i <= |nodes|
      invariant current == At(nodes, i)
      invariant minValue == Minimum(Values(nodes)[..i])
      decreases |nodes| - i
    {
      assert Values(nodes)[..i + 1][..i] == Values(nodes)[..i];
      if current.data < minValue {
        minValue := current.data;
      }
      current := current.next;
      i := i + 1;
    }
    assert Values(nodes)[..i] == Values(nodes);
    MinimumIsLeast(Values(nodes));
    forall j | 0 <= j < |nodes|
      ensures minValue <= nodes[j].data
    {
      assert Values(nodes)[j] in Values(nodes);
    }
  }
}
