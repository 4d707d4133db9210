# Singly linked list, modelled and verified in Dafny

The repository is a collection of teaching scripts for one data structure: a
mutable singly linked list whose nodes hold a value (`data`) and a link to
the next node (`next`). This project models that list in Dafny and proves
what each operation does to the sequence of values the chain spells out from
head to tail.

- `list_spec.dfy` (module `ListSpec`): the meaning of the operations as
  functions on sequences. It has splicing an element in, removing the first
  occurrence (`RemoveFirst`), the positional insert of the list classes
  (`InsertAt`, with its rejection case) and reversal, plus the lemmas
  relating them.
- `chain.dfy` (module `Chain`): the `Node` class, and what it means for a
  ghost sequence of nodes to be exactly the chain starting at a head. That
  is: linked in order, null-terminated and free of repeated nodes, so
  acyclic. It also holds the traversal the scripts use to show a chain, and
  the lemmas that say how relinking changes a chain.
- `linked_list.dfy` (module `LinkedLists`): the `LinkedList` class with its
  `head` field. From linkedList.py, myLinkedList.py and simple_linked_list.py
  it models `append`, `prepend`, `delete`, `find`, `get_size`/`size`,
  `display`, `insert_at_position`/`insert_at` and `reverse`. It also models
  `append` and `print_list` of fccLinkedList.py's `My_linkedlist`.
  - The three class scripts run the same algorithms, so they are modelled
    once. They differ only in how `display` shows its result and whether a
    rejected insert prints a message.
  - The ghost fields `Contents` (the values) and `Nodes` (the nodes) are the
    abstract state. `Valid()` ties them to the chain from `head`, and every
    method keeps `Valid()`.
- `inserting_node.dfy`, `deleting_node.dfy` and `lowest_value.dfy` model the
  functions that take a bare head: `insertNodePosition`,
  `deleteSpecificNode` and `fildLowestValue`.
- `demos.dfy` (module `Demos`) replays each script's demonstration driver
  and states what it shows.

Every loop of the source is kept as a `while` loop with its invariants, and
every link update is kept as a field assignment.

How the class `delete` is specified:
- Its contract names the index of the first node holding the value
  (`IsFirst`) and states that exactly that node leaves `Nodes`, and its value
  leaves `Contents`.
- When the value is absent, the list is unchanged.
- `ListSpec.RemoveFirstAt` and `ListSpec.RemoveFirstAbsent` show that this
  is the reference "delete the first occurrence".

## Model

| member | source | states |
|---|---|---|
| `Chain.Node.constructor` | linkedList.py:13-19 | a new node holds the given data and links to null |
| `LinkedLists.LinkedList.constructor` | linkedList.py:28-33 | a new list has no head and holds no values |
| `LinkedLists.LinkedList.Append` | linkedList.py:35-53 | the values become the old values followed by `data`; the new node is added at the tail and is the head of an empty list; the old nodes keep their order and a non-null head is kept |
| `LinkedLists.LinkedList.Prepend` | linkedList.py:55-62 | the values become `data` followed by the old values; a fresh node goes in front of the old nodes |
| `LinkedLists.LinkedList.Delete` | linkedList.py:64-85 | a present value: index `k` holds its first occurrence, and exactly that node and value are removed, the rest keeping their order, and the removed node keeps its own link; an absent value or an empty list: nothing changes |
| `LinkedLists.LinkedList.Find` | linkedList.py:87-98 | true exactly when the value is among the list's values (so false on an empty list) |
| `LinkedLists.LinkedList.GetSize` | linkedList.py:100-110 | the count equals the number of values (0 for an empty list) |
| `LinkedLists.LinkedList.Display` | simple_linked_list.py:54-62 | the returned list is exactly the values in head-to-tail order, `[]` for an empty list |
| `LinkedLists.LinkedList.PrintList` | fccLinkedList.py:21-25 | one line `"* "` + rendering per node, in head-to-tail order, none for an empty list |
| `LinkedLists.LinkedList.InsertAtPosition` | linkedList.py:131-159 | accepted exactly when the reference `InsertAt` accepts; then the values are `InsertAt`'s result and the fresh node sits at the slot; when rejected, head, nodes and values are unchanged |
| `LinkedLists.LinkedList.Reverse` | linkedList.py:161-175 | the values and the nodes are the old ones reversed; the node multiset is unchanged and the chain stays null-terminated and acyclic |
| `Chain.Traverse` | deletingFromSSL.py:6-11 | visiting from the head until null yields exactly the chain's values in order |
| `Chain.LinkAfter` | insertingNodeSLL.py:24-25 | pointing the new node at the successor of node k-1, then node k-1 at the new node, splices the new node in at index k and keeps the chain linked and free of repeats |
| `Chain.Unlinked` | linkedList.py:83 | pointing node k-1 past node k leaves a chain of the other nodes in their order |
| `Chain.SplicedIn` | linkedList.py:158-159 | the two link updates of a positional insert give a chain with the new node at index k |
| `Chain.LinkedBackwards` | linkedList.py:169-175 | when every node links to its predecessor, the former tail heads a chain of the nodes in reverse order |
| `Chain.ValuesReversed` | linkedList.py:161-175 | the values of the reversed nodes are the reversed values |
| `ListSpec.IndexOf` | linkedList.py:78-85 | the index is that of the first element equal to `x`, or the length when there is none |
| `ListSpec.RemoveFirstAbsent` | myLinkedList.py:27-40 | deleting an absent value changes nothing |
| `ListSpec.RemoveFirstAt` | simple_linked_list.py:25-36 | when k is the first index holding `x`, delete-first removes exactly the element at k |
| `ListSpec.RemoveFirstIndex` | linkedList.py:64-85 | delete-first removes the element at the first matching index, or nothing when there is none |
| `ListSpec.RemoveFirstPresent` | myLinkedList.py:36-39 | deleting a present value shortens the list by one and removes exactly one occurrence from its multiset |
| `ListSpec.InsertAtAccepted` | myLinkedList.py:72-90 | the insert is accepted exactly for 0 <= p <= length or a negative p on a non-empty list; p > length, and any p other than 0 on an empty list, are rejected |
| `ListSpec.InsertAtFront` | myLinkedList.py:73-75 | position 0 is a prepend |
| `ListSpec.InsertAtMiddle` | simple_linked_list.py:64-77 | for 1 <= p <= length the result is the first p values, then x, then the rest |
| `ListSpec.InsertAtEnd` | linkedList.py:146-159 | position length is an append |
| `ListSpec.ReverseAt` | simple_linked_list.py:79-87 | element k of the reversal is element length-1-k of the original |
| `ListSpec.ReverseCharacterised` | myLinkedList.py:92-102 | any sequence that lists the original backwards is its reversal |
| `ListSpec.ReverseInvolution` | simple_linked_list.py:79-87 | reversing twice restores the original order |
| `ListSpec.ReverseMultiset` | linkedList.py:166-175 | reversal keeps every element with its multiplicity |
| `InsertingNode.InsertNode` | insertingNodeSLL.py:13-26 | the result is one longer and holds the new value at the 0-based slot of the 1-based position |
| `InsertingNode.InsertNodeFront` | insertingNodeSLL.py:14-16 | position 1 puts the new value in front of all the others |
| `InsertingNode.InsertNodeMiddle` | insertingNodeSLL.py:18-25 | for 2 <= p <= length+1 the new value is at 1-based position p with the others in order; p = length+1 appends |
| `InsertingNode.InsertNodeBelowOne` | insertingNodeSLL.py:19-25 | a position below 1 puts the new value right after the head's |
| `InsertingNode.InsertNodePosition` | insertingNodeSLL.py:13-26 | the returned head starts a chain of the old nodes with the new node spliced in at the position's slot, whose values are `InsertNode`'s; the result is the new node for position 1 and the old head otherwise |
| `DeletingNode.DeleteSpecificNode` | deletingFromSSL.py:13-25 | a null target: the head is returned and the chain is unchanged; otherwise exactly the target node (by identity) is removed, the others keep their order, the result is the old second node when the target was the head and the old head otherwise, and the target keeps its own link |
| `LowestValue.MinimumIsLeast` | lowestValueSLL.py:9-12 | the minimum is one of the values and no value is below it |
| `LowestValue.MinimumSingle` | lowestValueSLL.py:7-8 | the minimum of one value is that value |
| `LowestValue.FindLowestValue` | lowestValueSLL.py:6-13 | the result is the minimum of the chain's values: it is held by some node and no node holds less; the chain is read only |
| `Demos.SimpleListSteps` | simple_linked_list.py:95-102 | prepending 0 to 1, 2, 3, deleting 2 and reversing give 0, 1, 2, 3, then 0, 1, 3, then 3, 1, 0 |
| `Demos.SimpleListBuild` | simple_linked_list.py:89-93 | after appending 1, 2, 3 the list shows 1, 2, 3 |
| `Demos.SimpleListDemo` | simple_linked_list.py:89-102 | the driver shows 1, 2, 3, then 0, 1, 2, 3, then 0, 1, 3, then 3, 1, 0 |
| `Demos.FullListSteps` | linkedList.py:206-230 | the sequence facts behind the linkedList.py driver: prepend, insert of 1.5 at 2, its deletion and reversal |
| `Demos.CountingListBuild` | linkedList.py:188-204 | the empty list shows nothing, then 1, then 1, 2, then 1, 2, 3 |
| `Demos.FullListQueries` | linkedList.py:206-215 | after prepending 0 the list is 0, 1, 2, 3, its size is 4, 2 is found and 5 is not |
| `Demos.FullListDemo` | linkedList.py:217-230 | inserting 1.5 at position 2 shows 0, 1, 1.5, 2, 3; deleting it shows 0, 1, 2, 3; reversing shows 3, 2, 1, 0 |
| `Demos.MyListSteps` | myLinkedList.py:113-124 | the sequence facts behind the myLinkedList.py driver: append of 0, insert of 1.5 at 2, its deletion and reversal |
| `Demos.MyListQueries` | myLinkedList.py:105-118 | after appending 0 the list is 1, 2, 3, 0, its size is 4, 2 is found and 5 is not |
| `Demos.MyListDemo` | myLinkedList.py:119-124 | inserting 1.5 at position 2 shows 1, 2, 1.5, 3, 0; deleting it shows 1, 2, 3, 0; reversing shows 0, 3, 2, 1 |
| `Demos.CoffeeListBuild` | fccLinkedList.py:27-32 | five appends give the five names in insertion order |
| `Demos.CoffeeListDemo` | fccLinkedList.py:27-33 | the listing is one `"* name"` line per name, in insertion order |
| `Demos.FiveNodes` | insertingNodeSLL.py:28-37 | five new nodes linked in order form a chain of their five values |
| `Demos.InsertingNodeDemo` | insertingNodeSLL.py:28-46 | before: 10, 20, 30, 40, 50; after inserting 25 at position 3: 10, 20, 25, 30, 40, 50 |
| `Demos.DeletingNodeDemo` | deletingFromSSL.py:27-44 | before: 10, 20, 30, 40, 50; after unlinking the fourth node: 10, 20, 30, 50 |
| `Demos.LowestValueDemo` | lowestValueSLL.py:15-26 | the lowest of 37, 13, 49, 58, 25 is 13 |

## Left out

- Printing is not modelled. This covers `display`'s `" -> "` joining and
  "List is empty" message, `print(elements)` of myLinkedList.py,
  `traverseAndPrint` and the out-of-bounds messages. `display` and the
  traversal return their values instead. `str()` of a value is left out;
  `print_list` takes the rendering as a parameter, `render`.
- value.py and basicLinkedList.py are not part of this model. The first
  prints runtime object identities and sizes; the second only wires nodes by
  hand and prints them.
- Types:
  - Values are untyped in the source. The model uses a type parameter with
    equality, `int` for the minimum, and `real` for the drivers that store
    1.5.
  - Python's `1 == 1.0` across int and float is modelled by storing every
    number of those drivers as a real.
- Inputs on which the source crashes are excluded by preconditions rather
  than modelled:
  - `insertNodePosition` past one beyond the end, or on a null head with a
    position other than 1;
  - `deleteSpecificNode` with a target outside the chain, or on a null head;
  - `fildLowestValue` on an empty chain.
- Node reuse: a node handed to `insertNodePosition` must not already be in
  the chain. Passing one would create a cycle, and that case is not
  modelled.
- `Node.data` is never reassigned after construction anywhere in the
  source, so it is a constant field. Only `next` links change.
- The class `delete` returns from inside its loop. The model first walks to
  the node before the first match (or to the tail) and then unlinks. The
  branches, the links written and the result are the same.
- The `for ... in range(...)` walks are `while` loops over a counter with the
  same number of steps. In `insertNodePosition`, the loop's `break` on a null
  node cannot be reached under the precondition.
- `LinkedLists.LinkedList.Append` also stands for `My_linkedlist.append` of
  fccLinkedList.py:11-19. It is the same algorithm, so it is not modelled a
  second time.
- The drivers' steps are split over several methods (`...Build`,
  `...Queries`, `...Demo`). Each part hands its list on to the next.
