# Doubly linked list and stack of `gods`, modelled in Dafny

This project models two packages of the Go collections library `gods`:

- `dll`: a generic doubly linked list. It offers appending and prepending values or
  whole nodes, popping at either end, index-based `Get`/`Set`/`Insert`/`Delete`,
  `DeleteNode` for a node handle, and a `Range` traversal.
- `stack`: a LIFO stack that delegates to that list.

The model keeps Go's pointer structure instead of replacing the list by a sequence:

- **Heap.** Allocated `DllNode`s live in an arena `Heap(cells: map<Ref, Node<T>>, free)`.
  `nil` is `None`.
- **Operations.** Each operation is a pure function from the heap and the list header
  (`length`, `head`, `tail`) to the new heap and header. It performs the same field
  writes, in the same order, as the Go method. The write helpers are `SetNext`,
  `SetPrev`, `Detach`, `SpliceIn` and `SpliceOut`.
- **Abstraction.** `Chain(st)` is the sequence of nodes met walking from `head` along
  `next` for `length` steps. `Contents(st)` is the sequence of values stored along it.
- **Invariant.** `Valid(st)` says two things:
  - no cell holds a dangling pointer;
  - the walk is a doubly linked chain of distinct nodes, with `head`/`tail` at its ends
    and `nil` beyond them.

Two predicates describe what a successful structural change achieves:

- `InsertedAt(st, st', j, n, x)`:
  - node `n`, holding `x`, now sits at position `j`;
  - the nodes and values before `j` stay in front of it, and the rest follow it;
  - the result is `Valid`;
  - no allocated cell outside the list, other than `n`, was touched.
- `RemovedAt(st, st', j)`:
  - the node at position `j` is gone from the chain;
  - the other nodes and values keep their order;
  - the removed node comes out detached (both links `nil`, outside the chain) with its
    payload;
  - no cell outside the list was touched.

The last clause of each is what lets an LRU cache keep handles to nodes and relink them.

Modules:

| module | file | contents |
|---|---|---|
| `Wrappers` | `wrappers.dfy` | `Option`, standing for Go's `nil` and for `(value, ok)` results |
| `Sequences` | `sequences.dfy` | `Reverse` and small sequence facts |
| `Dll` | `dll.dfy` | the heap, the invariant and every list operation |
| `DllProperties` | `dll_properties.dfy` | lemmas relating several operations: round trips, node recycling, the backward walk, the deque scenario |
| `Stack` | `stack.dfy` | the stack façade and its last-in-first-out law |

## Model

| member | source | states |
|---|---|---|
| Dll.Empty | ds/models/dll/dll.go:12-17 | The zero `DoublyLinkedList` is a valid list with no values. |
| Dll.ZeroHeaderValid | ds/models/dll/lru_list_test.go:110-123 | A zero `DoublyLinkedList{}` made when nodes already exist in memory (the test allocates a node before the list) is a valid list with no values. |
| Dll.NewNode | ds/models/dll/dll.go:24-27 | A new node is fresh (not previously allocated), holds `data`, has both links `nil`, and leaves every existing cell unchanged. |
| Dll.AppendNode | ds/models/dll/dll.go:40-52 | Appending a detached node always succeeds. The node becomes the last one and the other nodes and values keep their order (`InsertedAt` at position `length`). |
| Dll.Append | ds/models/dll/dll.go:34-38 | Appending a value succeeds, keeps the list valid and makes `x` the last value after the old ones. |
| Dll.AppendIsInsertAtEnd | ds/models/dll/dll.go:34-52 | `Append(x)` is an insertion of a fresh node at position `length` that touches no cell outside the list. |
| Dll.PrependNode | ds/models/dll/dll.go:60-72 | Prepending a detached node always succeeds. The node becomes the first one, followed by the old nodes and values in order (`InsertedAt` at position 0). |
| Dll.Prepend | ds/models/dll/dll.go:54-58 | Prepending a value succeeds, keeps the list valid and puts `x` in front of the old values. |
| Dll.PrependIsInsertAtFront | ds/models/dll/dll.go:54-72 | `Prepend(x)` is an insertion of a fresh node at position 0 that touches no cell outside the list. |
| Dll.PopNode | ds/models/dll/dll.go:83-100 | On an empty list: `nil, false` and no change. Otherwise: the tail node is returned, detached with its payload, and the rest of the list is intact (`RemovedAt` the last position). |
| Dll.Pop | ds/models/dll/dll.go:74-81 | On an empty list: no value and no change. Otherwise: the last value, and the list keeps all the other values in order. |
| Dll.PopFirstNode | ds/models/dll/dll.go:112-129 | On an empty list: `nil, false` and no change. Otherwise: the head node is returned detached, and the rest of the list is intact (`RemovedAt` position 0). |
| Dll.PopFirst | ds/models/dll/dll.go:102-110 | On an empty list: no value and no change. Otherwise: the first value, and the list keeps the remaining values in order. |
| Dll.Follow | ds/models/dll/dll.go:136-139 | The loop of `GetNode`: following `next` `k` times from the `j`-th node of a linked chain reaches its `(j + k)`-th node. |
| Dll.GetNode | ds/models/dll/dll.go:131-141 | The node at `index` when `0 <= index < length`, and `nil` for every other index. |
| Dll.Get | ds/models/dll/dll.go:143-150 | The value at `index` inside the bounds, and absence (Go's zero value, `false`) outside them. |
| Dll.Set | ds/models/dll/dll.go:152-160 | Outside the bounds: `false` and no change. Inside: `true`, the same nodes, only the value at `index` replaced, and no other cell touched. |
| Dll.Insert | ds/models/dll/dll.go:162-182 | Outside `[0, length]`: `false` and no change. Inside: `true`, and a fresh node holding `data` sits at `index` with all other values in their old order. |
| Dll.LinkMiddle | ds/models/dll/dll.go:173-181 | The four pointer writes of an interior insertion link the new node between its neighbours: `InsertedAt` at `index`. |
| Dll.MemberIsReachable | ds/models/dll/dll.go:193-199 | Every member of the list is the head, the tail, or has both links set. So the guard of `DeleteNode` never rejects a member. |
| Dll.UnlinkMiddle | ds/models/dll/dll.go:208-215 | Splicing out an interior node relinks its neighbours and leaves it detached: `RemovedAt` its position. |
| Dll.DeleteNode | ds/models/dll/dll.go:193-216 | `true` exactly when the node is a member. A refusal (`nil` or a detached non-member) changes nothing. A success removes that very node (`RemovedAt` its position), whether it is the head, the tail or interior. |
| Dll.Delete | ds/models/dll/dll.go:184-191 | Outside the bounds: `false` and no change. Inside: `true`, and the node at `index` is removed, the rest keeping their order. |
| Dll.IsEmpty | ds/models/dll/dll.go:218-220 | `true` exactly when the list holds no values. |
| Dll.Length | ds/models/dll/dll.go:222-224 | The header's counter equals the number of values in the list. |
| Dll.Range | ds/models/dll/dll.go:226-238 | The values the traversal delivers are exactly the list's values, head to tail. |
| Dll.RangeStopsAtNil | ds/models/dll/dll.go:230-234 | The walk along `next` stops at the tail's `nil`: any step budget of at least `length` yields exactly the list's values. |
| Dll.LinkedIsChain | ds/models/dll/dll.go:13-17 | A doubly linked chain that the header describes is the list's chain, so the header and links determine the abstraction. |
| DllProperties.ShapeInvariants | ds/models/dll/dll.go:13-17 | In a valid list `length`, `head` and `tail` are empty together. A single node is both head and tail and has no links. |
| DllProperties.WalkBackReverses | ds/models/dll/dll.go:6-10 | The `prev` links mirror the `next` links: walking back from the `j`-th node visits the first `j + 1` nodes in reverse. |
| DllProperties.BackwardWalkMirrorsForward | ds/models/dll/dll.go:6-17 | Walking from `tail` along `prev` for `length` steps visits exactly the list's nodes in reverse order. |
| DllProperties.AppendThenPop | ds/models/dll/dll_test.go:177-184 | `Pop` after `Append(x)` returns `x` and restores the values. |
| DllProperties.PrependThenPopFirst | ds/models/dll/dll.go:54-129 | `PopFirst` after `Prepend(x)` returns `x` and restores the values. |
| DllProperties.InsertThenDelete | ds/models/dll/dll_test.go:186-238 | `Delete(i)` after a successful `Insert(i, x)` succeeds and restores the values. |
| DllProperties.SetThenGet | ds/models/dll/dll.go:143-160 | After `Set(i, x)` succeeds, `Get(i)` is `x` and every other index reads as before. |
| DllProperties.DeleteRemovesGetNode | ds/models/dll/lru_list_test.go:49-98 | `Delete(i)` succeeds on a valid index and unlinks exactly the node `GetNode(i)` named, which comes out detached. |
| DllProperties.DeleteNodeRefusesNewNode | ds/models/dll/lru_list_test.go:186-226 | A freshly allocated node is not a member: `DeleteNode` refuses it and the list is unchanged. |
| DllProperties.DeleteNodeRefusesPopped | ds/models/dll/dll.go:193-199 | A node handed back by `PopNode` is refused by a later `DeleteNode`. |
| DllProperties.PopNodeThenAppendNode | ds/models/dll/dll.go:84-100 | Handing the node `PopNode` returned back to `AppendNode` restores the same nodes and values. |
| DllProperties.MoveToFront | ds/models/dll/dll.go:193-216 | `DeleteNode(n)` then `PrependNode(n)` puts the same node first and keeps the others in their order. |
| DllProperties.DequeFill | ds/models/deque/deque_test.go:10-20 | Appending `a`, `b`, `c` and prepending `d`, `e` gives the values `e, d, a, b, c` and length 5. |
| DllProperties.DequeDrain | ds/models/deque/deque_test.go:22-59 | Alternating `Pop`/`PopFirst` on five values returns them from the back and the front in turn, with length 3 midway. It ends empty, and both pops then report absence. |
| DllProperties.DequeTrace | ds/models/deque/deque_test.go:10-61 | The whole deque scenario returns `c, e, b, d, a` (3, 5, 2, 4, 1 for inputs 1 to 5) and ends empty. |
| Stack.New | ds/models/stack/stack.go:18-21 | A new stack is valid and empty. |
| Stack.Push | ds/models/stack/stack.go:23-26 | Pushing puts `x` on top of the old elements. |
| Stack.Pop | ds/models/stack/stack.go:28-34 | On an empty stack: no value and no change. Otherwise: the top element, which is removed. |
| Stack.Peek | ds/models/stack/stack.go:36-42 | The top element, or absence when the stack is empty, without changing anything. |
| Stack.IsEmpty | ds/models/stack/stack.go:44-47 | `true` exactly when the stack has no elements, that is, when its length is 0. |
| Stack.Length | ds/models/stack/stack.go:49-52 | The number of elements, agreeing with the list's counter. |
| Stack.PushThenPop | ds/models/stack/stack.go:23-42 | Right after `Push(x)`, `Peek` sees `x`, and `Pop` returns `x` and restores the elements. |
| Stack.PushAll | ds/models/stack/stack_test.go:26-29 | Pushing a sequence in order stacks it on top of the old elements. |
| Stack.PopMany | ds/models/stack/stack_test.go:37-56 | Popping `k` times yields the top `k` elements, top first, and leaves the rest. |
| Stack.LastInFirstOut | ds/models/stack/stack_test.go:26-61 | Pushing `xs` and popping as many times returns `xs` reversed and leaves the stack as it was. |

## Left out

- Concurrency: the list has no locking. Concurrent use, and the concurrency tests, are
  outside a sequential model.
- Range: the goroutine and the unbuffered channel are not modelled. `Range` returns the
  sequence of values the channel would deliver. Its walk (`Values`) takes a step
  budget; `RangeStopsAtNil` shows that any budget of at least `length` is enough, so
  the budget hides no behaviour of a valid list.
- Integer width: `length` is Go's `int` (64-bit on the usual targets) and is modelled
  as an unbounded integer. Wrap-around would need more than 2^63 nodes.
- `ZeroValue` and the `(T, bool)` results: these become `Option<T>`. `None` stands for
  `ZeroValue[T](), false`, and `Some(v)` for `v, true`.
- Dll.AppendNode: requires a detached node: allocated, not in the list, both links
  `nil`. The Go code accepts any pointer:
  - Given `nil` on an empty list (dll.go:42-44, 50), it sets `head` and `tail` to `nil`
    and still counts one node, so `length` disagrees with the chain.
  - Given `nil` on a non-empty list, it panics at dll.go:46.
  - Given a node with stale links, it keeps the node's old `next` (and, when the list
    is empty, its `prev`), so the list leaks into foreign nodes.
- Dll.PrependNode: requires a detached node:
  - Given `nil` on an empty list (dll.go:62-64, 70), it leaves a list of length 1 with
    no nodes.
  - Given `nil` on a non-empty list, it panics at dll.go:66.
  - Given a node with stale links, it keeps the node's old `prev` (and, when the list
    is empty, its `next`).
- Dll.DeleteNode: requires `Deletable`: `nil`, a member, or a node with both links
  `nil`. The last case covers a fresh node and the single node of another list, which
  the guard at dll.go:197 refuses. Any other node linked in another list passes that
  guard:
  - An interior node of the other list is spliced out of it, while this list's
    `length` drops. Both headers then disagree with their chains.
  - The head of the other list panics at dll.go:210 (`prevNode` is `nil`).
  - The tail of the other list first cuts that list at dll.go:210, then panics at
    dll.go:211.
- Dll.Pop: states that the popped value is the last one and that the rest of the values
  keep their order. It does not repeat the frame and detachment facts. Those are stated
  by `Dll.PopNode`, which `Pop` calls.
- Dll.PopFirst: likewise states only the values; `Dll.PopFirstNode` carries the frame
  and detachment facts.
- Dll.Append and Dll.Prepend: their own contracts state the values and validity. That
  nothing outside the list is touched is stated separately by `AppendIsInsertAtEnd`
  and `PrependIsInsertAtFront`.
- `GetData` has no contract of its own. It is the exported accessor for callers (the
  LRU tests use it). The Go methods read `node.data` directly, and so do the model's
  `Pop`, `PopFirst`, `Get` and `Values`. The model uses `GetData` only to name the
  payload in the contracts of `NewNode`, `AppendNode` and `PrependNode`.
- The `Stack` holds a `collections.List[T]` interface, which `New` fills with the
  doubly linked list. The model fixes that implementation. The `collections`
  interfaces themselves, and the heap package, are not part of this model.
- Memory reclamation: Go's garbage collector is not modelled. Cells that become
  unreachable stay in the arena, which changes no observable behaviour.
