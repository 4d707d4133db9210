/**
 * deletingFromSSL.py: unlink a given node from a bare chain. Nodes are
 * compared by identity (the node class defines no equality of its own), so
 * the target is a reference into the chain, not a value.
 */
module DeletingNode {
  import opened ListSpec
  import opened Chain

  /**
   * `deleteSpecificNode`: remove `target` from the chain starting at `head`
   * and return the head of the result. The head is read unconditionally and
   * the walk follows `next` until it meets the target, so the head must be
   * non-null and the target either in the chain or null; a null target walks
   * to the tail and changes nothing. `k` is the index of the removed node
   * (|nodes| for a null target). The removed node keeps its own link.
   */
  method DeleteSpecificNode<T>(head: Node<T>, target: Node?<T>, ghost nodes: seq<Node<T>>)
    returns (r: Node?<T>, ghost k: nat)
    requires IsChain(head, nodes)
    requires target == null || target in nodes
    modifies nodes
    ensures target == null ==> r == head && k == |nodes| && IsChain(head, nodes)
    ensures target != null ==> k < |nodes| && nodes[k] == target && IsChain(r, Without(nodes, k))
    ensures target != null ==> target.next == old(target.next)
    ensures r == if target == head then old(head.next) else head
  {
    if head == target {
      k := 0;
      assert Without(nodes, 0) == nodes[1..];
      return head.next, k;
    }
    var current := head;
    ghost var i := 0;
    ghost var stop := if target == null then |nodes| else IndexOf(nodes, target);
    while current.next != target
      invariant 0 <= i < stop <= |nodes| && current == nodes[i]
      decreases stop - i
    {
      current := current.next;
      i := i + 1;
    }
    if current.next == null {
      return head, |nodes|;
    }
    k := i + 1;
    current.next := current.next.next;
    Unlinked(nodes, k);
    assert At(Without(nodes, k), 0) == head;
    return head, k;
  }
}
