# Singly linked list with positional deletion

This project models the singly linked list of `Week_2/linked_list.py` and
proves properties of the model. A `Node` holds one payload and a `next`
reference. A `LinkedList` holds a `head` reference and has two mutating
operations:

- `add_node` appends a node at the tail. It walks `next` to the last node.
- `delete_node(n)` unlinks the node at 1-based position `n`. It raises
  `IndexError` when the list is empty or `n` names no node.

The model keeps the heap form of the source:

- `LinkedLists.Node` and `LinkedLists.LinkedList` are classes whose fields
  the methods update in place.
- Each list carries three ghost fields. `Contents` is the payload
  sequence. `Spine` is the node sequence. `Repr` is the set of objects
  the list is made of.
- `Valid()` ties the ghost fields to the heap. `head` is the first node of
  `Spine`. Each node's `next` is the following node, and the last node's
  `next` is `null`. The nodes are pairwise distinct, which makes the chain
  finite and acyclic.
- `AddNode` and `DeleteNode` keep their source's loops (the cursor walk
  and the counter walk). They are proved against the sequence-level
  specification in module `ListSpec`.
- `ToSeq` is the walk that `print_list` performs. It returns the payloads
  it meets and is proved to return exactly `Contents`.

`IndexError` becomes an `Outcome` value, either `Deleted` or
`Raised(error)`. The source raises two different `IndexError`s. On an
empty list the message does not name `n`. On a position that names no node
it does. The model follows the code: `IndexError` is either `EmptyList` or
`OutOfRange(index)`. When `delete_node` raises, the list is
left untouched: `head`, `Spine`, `Contents` and `Repr` keep their values.
Because `Valid()` holds before and after the call, every node of the
chain also keeps its payload and its `next`. When it succeeds, the chain
is the old chain's nodes, in order, without the removed one, so every
surviving node keeps its identity, its payload and its place.

The case analysis of `delete_node` becomes `ListSpec.DeleteAt`:

- An empty list fails with `EmptyList`, whatever `n` is.
- On a non-empty list, `n == 1` drops the head.
- A position `2 <= n <= length` is found by the counter loop, which
  unlinks the successor of node `n - 1`.
- Every other `n` fails with `OutOfRange(n)`. This includes `n <= 0`,
  since the counter starts at 1 and never equals `n - 1`.

`ListSpec.Unlinked` is a second definition of removal that keeps the first
node and recurses on the rest. It is a reference definition, and
`DeleteAtIsUnlinked` proves the two agree.

The script at the end of the source file becomes `Demo.Scenario`.
`Demo.ScenarioContinued` holds its second half. Together they prove the
payload sequences the script's comments announce.

## Model

| member | source | states |
|---|---|---|
| `LinkedLists.Node.constructor` | Week_2/linked_list.py:1-4 | a new node carries the given payload and has no successor |
| `LinkedLists.LinkedList.Valid` | Week_2/linked_list.py:1-8 | a valid list contains itself in its footprint; the chain from `head` runs through `Spine` in order, each node once, and ends with `null` |
| `LinkedLists.LinkedList.constructor` | Week_2/linked_list.py:7-8 | a new list is valid, its `head` is `null` and its payload sequence is empty |
| `LinkedLists.LinkedList.ToSeq` | Week_2/linked_list.py:21-30 | walking `next` from `head` until `null` yields exactly the list's payload sequence, and the walk terminates |
| `LinkedLists.LinkedList.AddNode` | Week_2/linked_list.py:10-19 | appending gives contents `old + [data]` and keeps the list valid; the chain is the old chain's nodes, in order, followed by one fresh node; on an empty list the new node becomes the head and the contents are `[data]`; otherwise the head is unchanged; the walk to the tail terminates |
| `LinkedLists.LinkedList.DeleteNode` | Week_2/linked_list.py:32-54 | when `DeleteAt` succeeds, the outcome is `Deleted`, the contents become its result and the chain is the old chain's nodes, in order, without the `n`th; when it fails, the same error is raised and `head`, the chain, the contents and the footprint are unchanged; deleting position 1 makes the old second node (or `null`) the head, and any other `n` leaves `head` alone; validity is kept and the footprint only shrinks |
| `LinkedLists.LinkedList.UnlinkHead` | Week_2/linked_list.py:38-40 | moving `head` to its successor drops exactly the first node from the chain, the contents and the footprint, and keeps the list valid |
| `LinkedLists.LinkedList.UnlinkAfter` | Week_2/linked_list.py:46-49 | pointing `next` of the node at 0-based position `k` past its successor removes exactly element `k + 1` from both ghost sequences and the footprint, keeps the list valid and leaves `head` alone |
| `ListSpec.DeleteAt` | Week_2/linked_list.py:32-54 | deletion succeeds exactly when the list is non-empty and `1 <= n <= length`; an empty list always fails with `EmptyList`; a non-empty list fails with `OutOfRange(n)`; `n == 1` leaves the tail; a success shortens the list by one |
| `ListSpec.DeleteAtKeepsOrder` | Week_2/linked_list.py:42-49 | after deleting position `n`, the survivors before it keep their positions and those after it move up by one, with their payloads |
| `ListSpec.DeleteAtMultiset` | Week_2/linked_list.py:42-49 | deletion removes exactly the payload at position `n`: the old multiset is the new one plus that payload |
| `ListSpec.Unlinked` | Week_2/linked_list.py:42-51 | the reference removal, which keeps the first element and removes position `n - 1` of the rest, shortens the sequence by one |
| `ListSpec.DeleteAtIsUnlinked` | Week_2/linked_list.py:42-51 | the slice-based deletion equals the node-by-node reference definition `Unlinked` for every valid position |
| `ListSpec.AddThenDeleteLast` | Week_2/linked_list.py:10-54 | appending a payload and then deleting the last position restores the old contents |
| `ListSpec.DeleteCommutesWithAdd` | Week_2/linked_list.py:10-54 | for a position of the old list, deleting after an append equals appending after the deletion |
| `Demo.FromValues` | Week_2/linked_list.py:59-64 | appending the values of any sequence one by one to a new list yields exactly that sequence, in append order |
| `Demo.Scenario` | Week_2/linked_list.py:57-89 | the script's run: 10,20,30,40,50; after deleting 3rd: 10,20,40,50; deleting 10th raises `OutOfRange(10)`; after deleting 1st: 20,40,50; after deleting 3rd: 20,40 |
| `Demo.ScenarioContinued` | Week_2/linked_list.py:74-89 | from 10,20,40,50: deleting 10th raises `OutOfRange(10)`, then deleting 1st gives 20,40,50 and deleting 3rd gives 20,40 |

## Left out

- `print_list` output formatting (`" -> "`, `"None"`, `"List is empty."`) is console output. Only the walk it performs is modelled, as `ToSeq`.
- The script's printing and its `try`/`except` are not modelled. Its expected outputs are proved by `Demo.Scenario` instead.
- `Week_1/pyramid_pattern.py` and `Week_1/upper_triangle.py` are not modelled. They are top-level scripts that read a number with `input()` and print patterns, with no list logic.
- The text of the exception messages is not modelled. The two `IndexError`s are told apart by `EmptyList` and `OutOfRange(n)`, which carries the position the message names.
- Python's dynamic typing is not modelled. Payloads have a generic type `T`, and `n` is an integer. Non-integer arguments such as `2.0` or `True` are outside the model.
- Reclaiming the unlinked node is not modelled. That node leaves `Repr` but keeps its own `next`, just as the Python object does until it is garbage collected.
- DeleteNode: on failure the contract states that `head`, `Spine`, `Contents` and `Repr` are unchanged, not `unchanged(Repr)`. `Valid()` before and after fixes the payload and `next` of every node of the chain from those values. `Valid()` does not require `Repr` to hold only the list and its nodes, so nothing is promised about any other object that `Repr` might contain.
