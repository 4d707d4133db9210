/**
 * Nodes and the chains they form. Every script of the repository declares
 * the same two-field node; a chain is described by the ghost sequence of
 * its nodes in head-to-tail order.
 */
module Chain {
  import opened ListSpec

  /**
   * One element of a singly linked list. `data` is set when the node is
   * created and never reassigned by any operation, so it is a constant
   * here; only `next` is relinked.
   */
  class Node<T> {
    const data: T
    var next: Node?<T>

    constructor (data: T)
      ensures this.data == data && next == null
    {
      this.data := data;
      next := null;
    }
  }

  /** No node occurs twice in `nodes`. */
  predicate Distinct<T>(nodes: seq<Node<T>>)
  {
    forall i, j :: 0 <= i < j < |nodes| ==> nodes[i] != nodes[j]
  }

  /** Each node of `nodes` links to the one after it, and the last to null. */
  ghost predicate Linked<T>(nodes: seq<Node<T>>)
    reads nodes
  {
    forall i {:trigger nodes[i].next} :: 0 <= i < |nodes| ==> nodes[i].next == At(nodes, i + 1)
  }

  /**
   * `nodes` is exactly the chain that starts at `head`: each node links to
   * the one after it, the last links to null (so the chain terminates), and
   * no node occurs twice (so it is acyclic).
   */
  ghost predicate IsChain<T>(head: Node?<T>, nodes: seq<Node<T>>)
    reads nodes
  {
    head == At(nodes, 0) && Linked(nodes) && Distinct(nodes)
  }

  /** The node at index `i` of a chain, or null past its end. */
  function At<T>(nodes: seq<Node<T>>, i: nat): Node?<T>
  {
    if i < |nodes| then nodes[i] else null
  }

  /** The values a chain holds, head to tail. */
  function Values<T>(nodes: seq<Node<T>>): (r: seq<T>)
    ensures |r| == |nodes| && forall i :: 0 <= i < |nodes| ==> r[i] == nodes[i].data
  {
    seq(|nodes|, i requires 0 <= i < |nodes| => nodes[i].data)
  }

  /** The values of a chain with a node spliced in at index k. */
  lemma ValuesSpliced<T>(nodes: seq<Node<T>>, k: nat, node: Node<T>)
    requires k <= |nodes|
    ensures Values(Splice(nodes, k, node)) == Splice(Values(nodes), k, node.data)
  {
  }

  /**
   * The traversal that the scripts use to show a chain: visit every node
   * from `head` until null and collect its value.
   */
  method Traverse<T>(head: Node?<T>, ghost nodes: seq<Node<T>>) returns (values: seq<T>)
    requires IsChain(head, nodes)
    ensures values == Values(nodes)
  {
    values := [];
    var current := head;
    ghost var i := 0;
    while current != null
      invariant 0 <= i <= |nodes|
      invariant current == At(nodes, i)
      invariant values == Values(nodes[..i])
      decreases |nodes| - i
    {
      values := values + [current.data];
      current := current.next;
      i := i + 1;
    }
    assert nodes[..i] == nodes;
  }

  /**
   * Unlinking node k by pointing its predecessor past it, with every other
   * link as in the chain, leaves a chain of the remaining nodes in their order.
   */
  lemma Unlinked<T>(nodes: seq<Node<T>>, k: nat)
    requires 0 < k < |nodes| && Distinct(nodes)
    requires nodes[k - 1].next == At(nodes, k + 1)
    requires forall j :: 0 <= j < |nodes| && j != k - 1 ==> nodes[j].next == At(nodes, j + 1)
    ensures Linked(Without(nodes, k)) && Distinct(Without(nodes, k))
  {
    var rest := Without(nodes, k);
    forall j | 0 <= j < |rest|
      ensures rest[j].next == At(rest, j + 1)
    {
      if j < k - 1 {
        assert rest[j] == nodes[j] && rest[j + 1] == nodes[j + 1];
      } else if j >= k {
        assert rest[j] == nodes[j + 1];
        assert At(rest, j + 1) == At(nodes, j + 2);
      }
    }
  }

  /**
   * Splicing a node that is not in the chain in after node k-1, with every
   * other link as in the chain, gives a chain with that node at index k.
   */
  lemma SplicedIn<T>(nodes: seq<Node<T>>, k: nat, node: Node<T>)
    requires 0 < k <= |nodes| && Distinct(nodes) && node !in nodes
    requires nodes[k - 1].next == node && node.next == At(nodes, k)
    requires forall j :: 0 <= j < |nodes| && j != k - 1 ==> nodes[j].next == At(nodes, j + 1)
    ensures Linked(Splice(nodes, k, node)) && Distinct(Splice(nodes, k, node))
  {
    var spliced := Splice(nodes, k, node);
    forall j | 0 <= j < |spliced|
      ensures spliced[j].next == At(spliced, j + 1)
    {
      if j < k - 1 {
        assert spliced[j] == nodes[j] && spliced[j + 1] == nodes[j + 1];
      } else if j > k {
        assert spliced[j] == nodes[j - 1];
        assert At(spliced, j + 1) == At(nodes, j);
      }
    }
  }

  /**
   * The two link updates every positional insert ends with: the new node
   * takes over the successor of node k-1, and node k-1 then points to it.
   */
  method LinkAfter<T>(ghost nodes: seq<Node<T>>, ghost k: nat, previous: Node<T>, node: Node<T>)
    requires 0 < k <= |nodes| && previous == nodes[k - 1]
    requires Linked(nodes) && Distinct(nodes) && node !in nodes
    modifies previous, node
    ensures Linked(Splice(nodes, k, node)) && Distinct(Splice(nodes, k, node))
  {
    node.next := previous.next;
    previous.next := node;
    SplicedIn(nodes, k, node);
  }

  /** The values of the reversed chain are the reversed values. */
  lemma ValuesReversed<T>(nodes: seq<Node<T>>)
    ensures Values(Reversed(nodes)) == Reversed(Values(nodes))
  {
    ReverseLength(nodes);
    ReverseLength(Values(nodes));
    forall k | 0 <= k < |nodes|
      ensures Values(Reversed(nodes))[k] == Reversed(Values(nodes))[k]
    {
      ReverseAt(nodes, k);
      ReverseAt(Values(nodes), k);
    }
  }

  /**
   * When every node links to its predecessor (the first to null), the
   * nodes read backwards form a chain from the former tail.
   */
  lemma LinkedBackwards<T>(nodes: seq<Node<T>>, head: Node?<T>)
    requires Distinct(nodes)
    requires head == if nodes == [] then null else nodes[|nodes| - 1]
    requires forall k {:trigger nodes[k].next} :: 0 <= k < |nodes| ==> nodes[k].next == if k == 0 then null else nodes[k - 1]
    ensures IsChain(head, Reversed(nodes))
  {
    var n := |nodes|;
    var r := Reversed(nodes);
    ReverseLength(nodes);
    forall j | 0 <= j < n
      ensures r[j] == nodes[n - 1 - j]
    {
      ReverseAt(nodes, j);
    }
    forall j | 0 <= j < n
      ensures r[j].next == At(r, j + 1)
    {
      assert r[j] == nodes[n - 1 - j];
      if j + 1 < n {
        assert r[j + 1] == nodes[n - 2 - j];
      }
    }
    forall a, b | 0 <= a < b < n
      ensures r[a] != r[b]
    {
      assert r[a] == nodes[n - 1 - a] && r[b] == nodes[n - 1 - b];
    }
  }
}
