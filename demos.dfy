/**
 * The demonstration drivers at the end of each script, replayed on the
 * model: each driver performs its calls in order and the postconditions
 * state what it shows at every step. A driver is split where its list is
 * handed from one part to the next.
 */
module Demos {
  import opened ListSpec
  import opened Chain
  import opened LinkedLists
  import opened InsertingNode
  import opened DeletingNode
  import opened LowestValue

  /** The sequence facts the simple_linked_list.py driver relies on. */
  lemma SimpleListSteps()
    ensures [0] + [1, 2, 3] == [0, 1, 2, 3]
    ensures IsFirst([0, 1, 2, 3], 2, 2) && Without([0, 1, 2, 3], 2) == [0, 1, 3]
    ensures Reversed([0, 1, 3]) == [3, 1, 0]
  {
    ReverseCharacterised([0, 1, 3], [3, 1, 0]);
  }

  /** The first part of simple_linked_list.py's driver: append 1, 2, 3. */
  method SimpleListBuild() returns (ll: LinkedList<int>, appended: seq<int>)
    ensures fresh(ll) && ll.Valid() && forall i :: 0 <= i < |ll.Nodes| ==> fresh(ll.Nodes[i])
    ensures ll.Contents == appended == [1, 2, 3]
  {
    ll := new LinkedList<int>();
    ll.Append(1);
    ll.Append(2);
    ll.Append(3);
    appended := ll.Display();
  }

  /**
   * simple_linked_list.py's driver: append 1, 2, 3; prepend 0; delete 2;
   * reverse, showing the list after each phase.
   */
  method SimpleListDemo() returns (appended: seq<int>, prepended: seq<int>, deleted: seq<int>, reversed: seq<int>)
    ensures appended == [1, 2, 3]
    ensures prepended == [0, 1, 2, 3]
    ensures deleted == [0, 1, 3]
    ensures reversed == [3, 1, 0]
  {
    var ll;
    ll, appended := SimpleListBuild();
    SimpleListSteps();
    ll.Prepend(0);
    prepended := ll.Display();
    assert forall i :: 0 <= i < |ll.Nodes| ==> fresh(ll.Nodes[i]);
    ghost var k := ll.Delete(2);
    assert k == 2;
    deleted := ll.Display();
    ll.Reverse();
    reversed := ll.Display();
  }

  /** The sequence facts the linkedList.py driver relies on. */
  lemma FullListSteps()
    ensures [0.0] + [1.0, 2.0, 3.0] == [0.0, 1.0, 2.0, 3.0]
    ensures InsertAt([0.0, 1.0, 2.0, 3.0], 2, 1.5) == Some([0.0, 1.0, 1.5, 2.0, 3.0])
    ensures IsFirst([0.0, 1.0, 1.5, 2.0, 3.0], 1.5, 2)
    ensures Without([0.0, 1.0, 1.5, 2.0, 3.0], 2) == [0.0, 1.0, 2.0, 3.0]
    ensures Reversed([0.0, 1.0, 2.0, 3.0]) == [3.0, 2.0, 1.0, 0.0]
  {
    var s := [0.0, 1.0, 2.0, 3.0];
    assert s[..2] == [0.0, 1.0] && s[2..] == [2.0, 3.0];
    assert s[..2] + [1.5] + s[2..] == [0.0, 1.0, 1.5, 2.0, 3.0];
    InsertAtMiddle(s, 2, 1.5);
    ReverseCharacterised([0.0, 1.0, 2.0, 3.0], [3.0, 2.0, 1.0, 0.0]);
  }

  /**
   * The first part of the linkedList.py and myLinkedList.py drivers: show
   * the empty list, then append 1, 2, 3, showing the list after each.
   */
  method CountingListBuild() returns (ll: LinkedList<real>, empty: seq<real>, one: seq<real>, two: seq<real>,
                                  three: seq<real>)
    ensures fresh(ll) && ll.Valid() && forall i :: 0 <= i < |ll.Nodes| ==> fresh(ll.Nodes[i])
    ensures empty == [] && one == [1.0] && two == [1.0, 2.0]
    ensures ll.Contents == three == [1.0, 2.0, 3.0]
  {
    ll := new LinkedList<real>();
    empty := ll.Display();
    ll.Append(1.0);
    assert ll.Contents == [1.0];
    one := ll.Display();
    ll.Append(2.0);
    assert ll.Contents == [1.0, 2.0];
    two := ll.Display();
    ll.Append(3.0);
    assert ll.Contents == [1.0, 2.0, 3.0];
    three := ll.Display();
  }

  /** The second part of linkedList.py's driver: prepend 0, then take the size and search for 2 and 5. */
  method FullListQueries() returns (ll: LinkedList<real>, prepended: seq<real>, size: nat, hasTwo: bool, hasFive: bool)
    ensures fresh(ll) && ll.Valid() && forall i :: 0 <= i < |ll.Nodes| ==> fresh(ll.Nodes[i])
    ensures ll.Contents == prepended == [0.0, 1.0, 2.0, 3.0]
    ensures size == 4 && hasTwo && !hasFive
  {
    var empty, one, two, three;
    ll, empty, one, two, three := CountingListBuild();
    ll.Prepend(0.0);
    prepended := ll.Display();
    size := ll.GetSize();
    hasTwo := ll.Find(2.0);
    hasFive := ll.Find(5.0);
  }

  /**
   * linkedList.py's driver: the list 1, 2, 3 of the first part gets 0 in
   * front, has size 4, holds 2 and not 5; 1.5 inserted at position 2 lands
   * between 1 and 2, deleting it restores the list, and reversing gives
   * 3, 2, 1, 0.
   */
  method FullListDemo() returns (inserted: seq<real>, deleted: seq<real>, reversed: seq<real>)
    ensures inserted == [0.0, 1.0, 1.5, 2.0, 3.0]
    ensures deleted == [0.0, 1.0, 2.0, 3.0]
    ensures reversed == [3.0, 2.0, 1.0, 0.0]
  {
    var ll, _, _, _, _ := FullListQueries();
    FullListSteps();
    var ok := ll.InsertAtPosition(2, 1.5);
    inserted := ll.Display();
    assert forall i :: 0 <= i < |ll.Nodes| ==> fresh(ll.Nodes[i]);
    ghost var k := ll.Delete(1.5);
    assert k == 2;
    deleted := ll.Display();
    ll.Reverse();
    reversed := ll.Display();
  }

  /** The sequence facts the myLinkedList.py driver relies on. */
  lemma MyListSteps()
    ensures [1.0, 2.0, 3.0] + [0.0] == [1.0, 2.0, 3.0, 0.0]
    ensures InsertAt([1.0, 2.0, 3.0, 0.0], 2, 1.5) == Some([1.0, 2.0, 1.5, 3.0, 0.0])
    ensures IsFirst([1.0, 2.0, 1.5, 3.0, 0.0], 1.5, 2)
    ensures Without([1.0, 2.0, 1.5, 3.0, 0.0], 2) == [1.0, 2.0, 3.0, 0.0]
    ensures Reversed([1.0, 2.0, 3.0, 0.0]) == [0.0, 3.0, 2.0, 1.0]
  {
    var s := [1.0, 2.0, 3.0, 0.0];
    assert s[..2] == [1.0, 2.0] && s[2..] == [3.0, 0.0];
    assert s[..2] + [1.5] + s[2..] == [1.0, 2.0, 1.5, 3.0, 0.0];
    InsertAtMiddle(s, 2, 1.5);
    ReverseCharacterised([1.0, 2.0, 3.0, 0.0], [0.0, 3.0, 2.0, 1.0]);
  }

  /** The second part of myLinkedList.py's driver: append 0, then take the size and search for 2 and 5. */
  method MyListQueries() returns (ll: LinkedList<real>, appended: seq<real>, size: nat, hasTwo: bool, hasFive: bool)
    ensures fresh(ll) && ll.Valid() && forall i :: 0 <= i < |ll.Nodes| ==> fresh(ll.Nodes[i])
    ensures ll.Contents == appended == [1.0, 2.0, 3.0, 0.0]
    ensures size == 4 && hasTwo && !hasFive
  {
    var empty, one, two, three;
    ll, empty, one, two, three := CountingListBuild();
    ll.Append(0.0);
    appended := ll.Display();
    size := ll.GetSize();
    hasTwo := ll.Find(2.0);
    hasFive := ll.Find(5.0);
  }

  /**
   * myLinkedList.py's driver: 0 is appended (not prepended) to 1, 2, 3;
   * 1.5 inserted at position 2 lands between 2 and 3, deleting it restores
   * the list, and reversing gives 0, 3, 2, 1.
   */
  method MyListDemo() returns (inserted: seq<real>, deleted: seq<real>, reversed: seq<real>)
    ensures inserted == [1.0, 2.0, 1.5, 3.0, 0.0]
    ensures deleted == [1.0, 2.0, 3.0, 0.0]
    ensures reversed == [0.0, 3.0, 2.0, 1.0]
  {
    var ll, appended, size, hasTwo, hasFive := MyListQueries();
    MyListSteps();
    var ok := ll.InsertAtPosition(2, 1.5);
    inserted := ll.Display();
    assert forall i :: 0 <= i < |ll.Nodes| ==> fresh(ll.Nodes[i]);
    ghost var k := ll.Delete(1.5);
    assert k == 2;
    deleted := ll.Display();
    ll.Reverse();
    reversed := ll.Display();
  }

  /** The list fccLinkedList.py's driver builds: five appends. */
  method CoffeeListBuild() returns (ll: LinkedList<string>)
    ensures ll.Valid() && ll.Contents == ["Starbucks", "Dunkin Donuts", "Peet's Coffee", "Tim Hortons", "Mercury"]
  {
    ll := new LinkedList<string>();
    ll.Append("Starbucks");
    ll.Append("Dunkin Donuts");
    assert ll.Contents == ["Starbucks", "Dunkin Donuts"];
    ll.Append("Peet's Coffee");
    ll.Append("Tim Hortons");
    assert ll.Contents == ["Starbucks", "Dunkin Donuts", "Peet's Coffee", "Tim Hortons"];
    ll.Append("Mercury");
  }

  /** fccLinkedList.py's driver: the five names are listed in insertion order. */
  method CoffeeListDemo() returns (lines: seq<string>)
    ensures lines == ["* Starbucks", "* Dunkin Donuts", "* Peet's Coffee", "* Tim Hortons", "* Mercury"]
  {
    var ll := CoffeeListBuild();
    lines := ll.PrintList(s => s);
    assert lines[0] == "* Starbucks" && lines[1] == "* Dunkin Donuts" && lines[2] == "* Peet's Coffee";
    assert lines[3] == "* Tim Hortons" && lines[4] == "* Mercury";
  }

  /**
   * The chain the insertingNodeSLL.py, deletingFromSSL.py and
   * lowestValueSLL.py drivers wire by hand: five new nodes, each linked to
   * the next. `nodes` holds the five node variables, head first.
   */
  method FiveNodes(a: int, b: int, c: int, d: int, e: int) returns (head: Node<int>, nodes: seq<Node<int>>)
    ensures IsChain(head, nodes) && Values(nodes) == [a, b, c, d, e]
    ensures forall i :: 0 <= i < |nodes| ==> fresh(nodes[i])
  {
    var node1 := new Node(a);
    var node2 := new Node(b);
    var node3 := new Node(c);
    var node4 := new Node(d);
    var node5 := new Node(e);
    node1.next := node2;
    node2.next := node3;
    node3.next := node4;
    node4.next := node5;
    head, nodes := node1, [node1, node2, node3, node4, node5];
  }

  /** insertingNodeSLL.py's driver: 25 at position 3 of 10, 20, 30, 40, 50. */
  method InsertingNodeDemo() returns (before: seq<int>, after: seq<int>)
    ensures before == [10, 20, 30, 40, 50]
    ensures after == [10, 20, 25, 30, 40, 50]
  {
    var head, nodes := FiveNodes(10, 20, 30, 40, 50);
    before := Traverse(head, nodes);
    var newNode := new Node(25);
    head := InsertNodePosition(head, newNode, 3, nodes);
    assert InsertNode([10, 20, 30, 40, 50], 3, 25) == [10, 20, 25, 30, 40, 50];
    after := Traverse(head, Splice(nodes, 2, newNode));
  }

  /** deletingFromSSL.py's driver: unlink the fourth node of 10, 20, 30, 40, 50. */
  method DeletingNodeDemo() returns (before: seq<int>, after: seq<int>)
    ensures before == [10, 20, 30, 40, 50]
    ensures after == [10, 20, 30, 50]
  {
    var head, nodes := FiveNodes(10, 20, 30, 40, 50);
    before := Traverse(head, nodes);
    var r, k := DeleteSpecificNode(head, nodes[3], nodes);
    assert k == 3;
    assert Values(Without(nodes, 3)) == [10, 20, 30, 50];
    after := Traverse(r, Without(nodes, 3));
  }

  /** lowestValueSLL.py's driver: the lowest of 37, 13, 49, 58, 25 is 13. */
  method LowestValueDemo() returns (lowest: int)
    ensures lowest == 13
  {
    var head, nodes := FiveNodes(37, 13, 49, 58, 25);
    lowest := FindLowestValue(head, nodes);
    assert nodes[1].data == 13;
  }
}
