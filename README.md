# Custom data structures in Dafny

This project models four small Rust containers and proves that each one behaves like
the abstract sequence or set it stands for.

- **Stack** (`Stack.dfy`, module `Stacks`). An owning singly-linked LIFO chain.
  - It has `push`, `pop`, `peek`, `peek_mut` and `empty`.
  - Three iterators: the borrowing `iter`, the mutating `iter_mut` and the consuming
    `into_iter`.
  - A hand-written `Drop` unlinks the chain node by node.
  - The class keeps the real `head` pointer. The ghost `nodes` is the chain, head first,
    and `contents` holds its elements. `Linked` and its index form `Chain` tie them together.
- **Queue** (`Queue.dfy`, module `Queues`). A FIFO built from two stacks, `incoming` and
  `outgoing`.
  - `enqueue` pushes onto `incoming`.
  - `dequeue` pops `outgoing`. When `outgoing` is empty and `incoming` is not, it first
    moves every element of `incoming` across.
  - The representation invariant is `contents == outgoing.contents + Reverse(incoming.contents)`.
  - `incoming` is never absent.
  - From that invariant the FIFO law over any sequence of calls follows (`FifoLaw`).
- **BinarySearchTree** (`BinarySearchTree.dfy`, module `Trees`). An unbalanced search tree
  over `int`.
  - Each node is either empty (a new tree) or holds a value and optional subtrees.
  - `insert` ignores a value that is already present.
  - `contains`, `min` and `max` behave as usual.
  - `floor` and `ceil` are strict: they give the nearest value strictly below or strictly
    above, never the value itself.
  - `iter` and `into_iter` enqueue the values in order into a `Queue`, which the iterator
    then drains.
  - Every query is specified against the ghost set `Contents`. The traversal is specified
    against `InOrder`, which is proved strictly ascending and equal to that set.
- **LinkedList** (`LinkedList.dfy`, module `Lists`). A singly-linked list.
  - `push` walks to the tail in a loop (`get_tail`) and links the new node after it.
  - `pop` removes the head, and `contains` is a linear scan.
  - The list is its own consuming iterator, through `next` = `pop`. It also has `iter`
    and `iter_mut`.

`Wrappers.dfy` defines the `Option` type that stands for Rust's `Option`.

The unit tests of `stack.rs`, `queue.rs` and `binary_search_tree.rs` are restated as
scenario methods. Each one's postcondition is the test's expected outcome, proved from
the contracts of the operations. `linked_list.rs` has no tests, so its scenarios exercise
the documented behaviour.

## Model

| member | source | states |
|---|---|---|
| Stacks.Node.constructor | src/stack.rs:35 | a node holds the given item and link |
| Stacks.LinkedIsChain | src/stack.rs:1-19 | the recursive description of an owned chain (`Link` = optional boxed node) and the index-based one are equivalent, in both directions |
| Stacks.Stack.constructor | src/stack.rs:22-24 | `new` gives a valid stack with no head and empty contents |
| Stacks.Stack.Empty | src/stack.rs:26-31 | `empty` is true exactly when the contents are the empty sequence |
| Stacks.Stack.Push | src/stack.rs:33-36 | the contents become `[item] + old contents`; the invariant is kept |
| Stacks.Stack.Pop | src/stack.rs:38-48 | None (contents unchanged, empty) on an empty stack, otherwise the head element, and the contents become the old tail |
| Stacks.Stack.Peek | src/stack.rs:50-52 | None exactly when the stack is empty, otherwise the head element; reading changes nothing |
| Stacks.Stack.PeekMut | src/stack.rs:54-56 | a write through the head reference replaces only the first element; on an empty stack nothing changes; links and length never change |
| Stacks.Stack.Iter | src/stack.rs:62-66 | the cursor starts at the head over exactly the stack's chain and contents |
| Stacks.Stack.IterMut | src/stack.rs:68-72 | a full pass of `iter_mut` that writes `ys[i]` through the i-th reference leaves exactly `ys` as the contents, in place: the nodes and links, hence the length and the order, are untouched |
| Stacks.Stack.IntoIter | src/stack.rs:58-60 | the consuming iterator wraps the stack itself |
| Stacks.Stack.Drop | src/stack.rs:105-113 | the unlinking loop terminates, leaves no head and no contents, and every old node's link is cut |
| Stacks.Iter.constructor | src/stack.rs:63-65 | a cursor over a chain yields that chain's contents |
| Stacks.Iter.Next | src/stack.rs:83-92 | yields the element under the cursor and advances one link; None at the end |
| Stacks.Iter.Collect | src/stack.rs:130-132 | a `for` loop over `iter` yields exactly the contents, head to tail |
| Stacks.IntoIter.constructor | src/stack.rs:58-60 | the consuming iterator holds the stack it was made from |
| Stacks.IntoIter.Next | src/stack.rs:75-81 | exactly `pop` on the wrapped stack |
| Stacks.IntoIter.Collect | src/stack.rs:138-140 | draining `into_iter` yields the contents head first and leaves the stack empty |
| Stacks.NewStackScenario | src/stack.rs:22-31 | a new stack is empty, and `peek` and `pop` both return None |
| Stacks.PushThenPop | src/stack.rs:33-48 | `pop` right after `push(x)` returns `x` and restores the old contents exactly |
| Stacks.StackScenario | src/stack.rs:119-141 | the unit test: peek gives 1, iter sees 2 after the peek_mut write, into_iter drains 3 after the iter_mut write |
| Queues.Reverse | src/queue.rs:36-41 | reversal keeps the length |
| Queues.ReverseAt | src/queue.rs:36-41 | position `k` of the reversal holds element `|s|-1-k` |
| Queues.ReversePrepend | src/queue.rs:16-21 | reversing `[x] + s` gives `Reverse(s) + [x]`, so a push onto `incoming` appends to the queue |
| Queues.Queue.constructor | src/queue.rs:9-14 | `new` gives an empty queue whose `incoming` is present |
| Queues.Queue.Enqueue | src/queue.rs:16-21 | pushes onto `incoming` only, leaves `outgoing` untouched, and appends the item to the queue; the representation invariant is kept |
| Queues.Queue.MoveIncomingIfNeed | src/queue.rs:28-43 | transfers only when `outgoing` is empty and `incoming` is not; then `outgoing` is the old `incoming` reversed (oldest on top) and `incoming` is a new empty stack; otherwise both are unchanged; the queue's contents never change |
| Queues.Queue.Transfer | src/queue.rs:37-39 | the `for` loop pops every element of `incoming` and pushes it onto `outgoing`: `incoming` ends empty and `outgoing` gains the old `incoming` reversed on top of what it held |
| Queues.ReverseStep | src/queue.rs:37-39 | one more element moved across lands on top of those moved before |
| Queues.Queue.Dequeue | src/queue.rs:23-26 | None exactly when the queue is empty, otherwise the oldest element, which is removed |
| Queues.FifoLaw | src/queue.rs:16-26 | for any queue contents and any sequence of enqueues and dequeues, the values the dequeues return followed by what is left equal the old contents followed by everything enqueued |
| Queues.AnswersAppend | src/queue.rs:16-26 | replaying two call sequences one after the other is the same as replaying their concatenation |
| Queues.Replay | src/queue.rs:16-26 | running a sequence of calls on a real queue returns the answers, and leaves the contents, that the abstract replay predicts |
| Queues.BlockAnswers | src/queue.rs:52-75 | the abstract replay of each block of the unit test gives the expected answers |
| Queues.FirstTwoBlocks | src/queue.rs:52-63 | the reference FIFO answers 1, None, 2, 3, None to the first two blocks and is then empty |
| Queues.FirstThreeBlocks | src/queue.rs:52-67 | after the third block it has also answered 4 and still holds 5 |
| Queues.TestOpsAnswers | src/queue.rs:52-75 | the reference FIFO's answers to all the test's calls are the ten expected results, joined block by block through `AnswersAppend` |
| Queues.QueueScenario | src/queue.rs:51-76 | the unit test, replayed on one real queue: the ten dequeues return 1, None, 2, 3, None, 4, 5, 6, 7, None |
| Trees.Or | src/binary_search_tree.rs:77 | `Option::or` returns one of its arguments, a value exactly when one of them has one, and the first whenever it has a value; so `min` prefers the left subtree's minimum to the node's own value |
| Trees.AscendingJoin | src/binary_search_tree.rs:136-146 | a smaller ascending run, a separating value and a larger ascending run join into an ascending sequence |
| Trees.AscendingUnique | src/binary_search_tree.rs:171-187 | two strictly ascending sequences with the same elements are equal |
| Trees.BinarySearchTree.constructor | src/binary_search_tree.rs:22-28 | `new` gives an empty node with no subtrees |
| Trees.BinarySearchTree.Insert | src/binary_search_tree.rs:30-51 | the search-tree invariant is kept, the set becomes `old + {item}`, a filled node keeps its value, and inserting a value already present changes nothing |
| Trees.BinarySearchTree.InsertLeft | src/binary_search_tree.rs:34-35 | a value below the node's key goes into the left subtree with the same guarantees |
| Trees.BinarySearchTree.InsertRight | src/binary_search_tree.rs:36-37 | a value above the node's key goes into the right subtree with the same guarantees |
| Trees.BinarySearchTree.InsertBelow | src/binary_search_tree.rs:41-48 | a missing subtree becomes a new tree holding just the item; an existing one receives it |
| Trees.BinarySearchTree.Contains | src/binary_search_tree.rs:53-68 | true exactly when the item is in the tree's set |
| Trees.BinarySearchTree.Min | src/binary_search_tree.rs:70-79 | None exactly when the tree is empty, otherwise its least value |
| Trees.BinarySearchTree.Max | src/binary_search_tree.rs:81-90 | None exactly when the tree is empty, otherwise its greatest value |
| Trees.BinarySearchTree.Floor | src/binary_search_tree.rs:92-109 | the greatest value strictly below the item, or None when there is none; an exact match is never returned |
| Trees.BinarySearchTree.Ceil | src/binary_search_tree.rs:111-128 | the least value strictly above the item, or None when there is none |
| Trees.BinarySearchTree.InOrderSorted | src/binary_search_tree.rs:136-146 | the in-order sequence is strictly ascending and holds exactly the tree's values |
| Trees.BinarySearchTree.IterInner | src/binary_search_tree.rs:136-146 | appends the in-order sequence to the queue and only reads the tree |
| Trees.BinarySearchTree.IterSubtree | src/binary_search_tree.rs:137-139 | an absent subtree adds nothing; a present one adds its in-order sequence |
| Trees.BinarySearchTree.Iter | src/binary_search_tree.rs:130-134 | the iterator's queue holds the in-order sequence of the tree |
| Trees.BinarySearchTree.IntoIterInner | src/binary_search_tree.rs:154-164 | appends the in-order sequence to the queue and leaves the node with no value and no subtrees |
| Trees.BinarySearchTree.Detach | src/binary_search_tree.rs:154-164 | the consumed node no longer holds its value or subtrees |
| Trees.BinarySearchTree.IntoIterSubtree | src/binary_search_tree.rs:155-157 | an absent subtree adds nothing; a present one adds its in-order sequence |
| Trees.BinarySearchTree.IntoIter | src/binary_search_tree.rs:148-152 | the iterator's queue holds the same in-order sequence as `iter` would, and the tree is consumed |
| Trees.BinarySearchTreeIterator.constructor | src/binary_search_tree.rs:9-11 | the iterator wraps the filled queue |
| Trees.BinarySearchTreeIterator.Next | src/binary_search_tree.rs:13-19 | `next` is exactly `dequeue` on the inner queue |
| Trees.BinarySearchTreeIterator.Collect | src/binary_search_tree.rs:180-185 | calling `next` until None yields the queue's contents in order |
| Trees.Build | src/binary_search_tree.rs:173-178 | inserting a list of values one by one gives a valid tree whose set is the set of those values |
| Trees.SmallTree | src/binary_search_tree.rs:173-178 | inserting 1, 45, 13, 0 gives the set {0, 1, 13, 45} with in-order sequence 0, 1, 13, 45 |
| Trees.IterScenario | src/binary_search_tree.rs:172-187 | the `iter` test: 0, 1, 13, 45, then None |
| Trees.IntoIterScenario | src/binary_search_tree.rs:190-205 | the `into_iter` test: 0, 1, 13, 45, then None |
| Trees.LargerTree | src/binary_search_tree.rs:261-270 | the second tree of the `floor` and `ceil` tests holds {0, 1, 5, 8, 13, 36, 45, 50} |
| Trees.MinMaxScenario | src/binary_search_tree.rs:288-321 | the `minimum`, `maximum` and the two empty-tree tests: 0, 45, None, None |
| Trees.FloorScenario | src/binary_search_tree.rs:216-218 | floors of 1, 5 and 100 are 0, 1 and 45 |
| Trees.FloorScenarioLow | src/binary_search_tree.rs:219-220 | floors of 20 and 0 are 13 and None |
| Trees.CeilScenario | src/binary_search_tree.rs:255-259 | ceilings of 1, 5, 100, 20 and 0 are 13, 13, None, 45 and 1 |
| Trees.FloorScenarioLarger | src/binary_search_tree.rs:233-236 | on the larger tree, floors of 13, 100, 46 and 50 are 8, 50, 45 and 45 |
| Trees.FloorScenarioLargerMiddle | src/binary_search_tree.rs:237-240 | floors of 45, 40, 6 and 5 are 36, 36, 5 and 1 |
| Trees.FloorScenarioLargerLast | src/binary_search_tree.rs:241-243 | floors of 3, 1 and 10 are 1, 0 and 8 |
| Trees.CeilScenarioLarger | src/binary_search_tree.rs:272-275 | on the larger tree, ceilings of 13, 100, 46 and 50 are 36, None, 50 and None |
| Trees.CeilScenarioLargerMiddle | src/binary_search_tree.rs:276-279 | ceilings of 45, 40, 6 and 5 are 50, 45, 8 and 8 |
| Trees.CeilScenarioLargerLast | src/binary_search_tree.rs:280-284 | ceilings of 3, 1, 10, 0 and -1 are 5, 5, 13, 1 and 0 |
| Trees.ContainsTree | src/binary_search_tree.rs:325-339 | fourteen insertions, 7 twice, give a set of thirteen values |
| Trees.ContainsScenario | src/binary_search_tree.rs:324-352 | the `contains_number` test: 1, 12, 0, 7 and 31 are found; 100, 5, 9, 4 and 50 are not |
| Lists.ListNode.constructor | src/linked_list.rs:35-40 | a new node holds the element and has no successor |
| Lists.ListNode.SetNext | src/linked_list.rs:42-44 | the given node becomes the successor; the element stays |
| Lists.LastWithoutNext | src/linked_list.rs:143-150 | in a well-formed chain, a node has no successor exactly when it is the last one |
| Lists.LinkedList.constructor | src/linked_list.rs:5-9 | `Default`, which `new` calls, gives an empty list with no head |
| Lists.LinkedList.Contains | src/linked_list.rs:15-26 | true exactly when some element equals the value |
| Lists.LinkedList.GetTail | src/linked_list.rs:140-153 | None exactly when the list is empty, otherwise the last node of the chain |
| Lists.LinkedList.Push | src/linked_list.rs:120-131 | the contents become `old + [element]`; no element is lost, because only the tail is linked onward |
| Lists.LinkedList.Pop | src/linked_list.rs:133-138 | None on an empty list, otherwise the first element, and the contents become the old tail |
| Lists.LinkedList.Next | src/linked_list.rs:56-62 | the list's own `next` is exactly `pop` |
| Lists.LinkedList.Drain | src/linked_list.rs:56-62 | running the list as an iterator yields its elements in push order and leaves it empty |
| Lists.LinkedList.Iter | src/linked_list.rs:108-112 | the cursor starts at the head over exactly the list's chain and contents |
| Lists.LinkedList.IterMut | src/linked_list.rs:114-118 | a full pass of `iter_mut` that writes `ys[i]` through the i-th reference leaves exactly `ys` as the contents, in place: the nodes and links, hence the length and the order, are untouched |
| Lists.LinkedListIter.constructor | src/linked_list.rs:108-112 | a cursor over a chain yields that chain's contents |
| Lists.LinkedListIter.Next | src/linked_list.rs:87-101 | yields the element under the cursor and advances one link; None at the end |
| Lists.LinkedListIter.Collect | src/linked_list.rs:87-101 | iterating to the end yields exactly the contents, front to back |
| Lists.EmptyListScenario | src/linked_list.rs:104-106 | on a new list `pop` returns None and `contains` is false |
| Lists.PushThree | src/linked_list.rs:120-131 | pushing 1, 2, 3 onto a new list gives the contents 1, 2, 3 |
| Lists.PushedListScenario | src/linked_list.rs:120-138 | after pushing 1, 2, 3, `iter` yields them in that order, 2 is found and 4 is not, and `pop` returns 1 |

## Left out

- Memory management is not modelled. This covers allocation, `Box` and deallocation, and the stack-depth concern that motivates the hand-written `Drop`. Nodes are heap objects with nullable references.
- Rust lifetimes and borrows are not modelled. Borrowed results are reads of the ghost state.
- Stacks.Stack.PeekMut: the `&mut` it returns is modelled as the value the caller writes through it. `found` says whether there was a head to write.
- Stacks.Stack.IterMut: the mutable iterator is modelled as one full pass in which the caller writes `ys[i]` through the i-th reference. `IterMut::next` (src/stack.rs:94-103) is the loop step. A pass that stops early, or leaves an element as it was, is the case where `ys` repeats the old value. A live borrow into the nodes held across other calls is not modelled.
- Lists.LinkedList.IterMut: the same treatment, for `LinkedListIterMut::next` (src/linked_list.rs:72-85).
- Trees.BinarySearchTree.IntoIterInner: the ownership move of `self` is modelled as a traversal followed by `Detach`, which empties the consumed node. The subtrees are emptied the same way.
- Lists.LinkedList.GetTail: Rust takes `&mut self` to hand out a mutable tail reference. Here it is read-only, and `Push` writes through the returned node.
- Lists.LinkedList.Pop: the removed node stays in the ghost footprint `Repr`, because nothing in the model frees it.
- The tree is over `int` rather than a generic `T: Ord`. The `contains_str` and `contains_string` tests (src/binary_search_tree.rs:354-414) only exercise lexicographic order on strings and are not restated.
- The list's element type needs Dafny equality (`T(==)`) for the whole list, where the Rust code asks for `PartialOrd` only on `contains`.
- The amortized cost of the two-stack queue is not modelled.
- The `Queue` the tree uses is the model of `src/queue.rs`, over `int`. The tree's `iter` queues references, and this model queues the values themselves.
- `ListNode::contains` (src/linked_list.rs:51-53) is the predicate `Lists.ListNode.Contains` with no contract of its own. What it means shows in the contract of `Lists.LinkedList.Contains`.
