# KFDataStructures in Dafny

A model of the data structures of KFDataStructures, a Swift library, with proofs about them:

- two array-backed binary heaps with an injected comparator (`Heap`, `KFHeap`);
- three FIFO queues:
  - `Queue` over an array;
  - `UniqueQueue`, an array plus a membership set;
  - `KFQueue`/`KFDynamicQueue`, a doubly linked list of nodes, the dynamic one also keeping a key set;
- a binary search tree of linked nodes (`BinarySearchTree`);
- a tree of elements with set-valued children (`Lineage`);
- a forest of key trees with a key set (`KFTreeMap`), and the doubly linked key path it hands out (`KFTreePath`).

Each Swift class whose fields change in place is a Dafny `class` with those fields, `modifies` clauses and a `Valid()` invariant. Each of its methods is proved against a specification function or predicate. Pure queries and the shapes the classes describe are datatypes and functions, and lemmas state what those mean.

Modules:

| module | models |
|---|---|
| `Wrappers` | `Option`, standing for Swift's optionals |
| `SeqSearch` | `Array.index(of:)` and `remove(at:)`, and the duplicate-free filter the unique queue needs |
| `HeapOrder` | parent and child index arithmetic, the heap property, and the sift-up, sift-down and pop steps |
| `Heap`, `KFHeap` | the two heap structures, each a sequence field (`contents`, `heap`) with a comparator fixed at construction |
| `Queue`, `UniqueQueue` | the two array queues |
| `KFQueue` | the linked queue and `KFDynamicQueue`; nodes are ids in an arena of field maps, with a ghost chain of the ids reachable from `head` |
| `TreeShape` | the tree a binary search tree's links describe, as a value: search, spines, traversals, insertion and removal |
| `TreeArena` | the tree's nodes as an arena of ids; which link updates keep a shape realized |
| `BinarySearchTree` | the tree class, whose ghost `shape` each method moves as `TreeShape` says |
| `RootedTree` | a rooted tree of element nodes with a `parent` flag; search, leaves, parent chains |
| `Lineage` | `Lineage` over `RootedTree`, with children that are sets keyed by element |
| `KFTreeMap` | `KFTreeNode` operations and the `KFTreeMap` class |
| `KFTreePath` | the `KFTreePath` class, as a key sequence and a position in it |

## Model

| member | source | states |
|---|---|---|
| SeqSearch.IndexOf | KFDataStructures/Swift/Queue.swift:43 | `index(of:)`: None exactly when the element is absent; otherwise the position of its first occurrence |
| SeqSearch.RemoveAt | KFDataStructures/Swift/Queue.swift:44 | `remove(at:)`: one element shorter, the elements before the position stay, the ones after shift down by one, and exactly the element at the position leaves the multiset |
| SeqSearch.RemoveFirst | KFDataStructures/Swift/Queue.swift:41-45 | dropping the first occurrence: unchanged when the element is absent, otherwise one shorter with exactly one copy of it gone |
| SeqSearch.RemoveFirstKeepsOrder | KFDataStructures/Swift/Queue.swift:43-44 | only the first occurrence goes: the elements before it stay in place and the ones after it follow directly |
| SeqSearch.Distinctness | KFDataStructures/Swift/UniqueQueue.swift:12-13 | the two statements of "no element twice" used for the unique queue's invariant agree |
| SeqSearch.RemoveFirstNoDuplicates | KFDataStructures/Swift/UniqueQueue.swift:37-42 | dropping an element from a duplicate-free array keeps it duplicate-free and removes exactly that element from its set |
| SeqSearch.RemoveAtDistinct | KFDataStructures/Swift/KFQueue.swift:138-155 | taking one position out of a duplicate-free sequence keeps it duplicate-free |
| SeqSearch.RemoveAtDrops | KFDataStructures/Swift/KFQueue.swift:138-155 | taking a position out of a duplicate-free sequence removes the element there entirely |
| SeqSearch.Deduplicate | KFDataStructures/Swift/UniqueQueue.swift:69-75 | what the array-literal initialiser is meant to keep: a duplicate-free sequence holding exactly the elements not yet seen, and none that were |
| SeqSearch.DeduplicateKeepsDistinct | KFDataStructures/Swift/UniqueQueue.swift:69-75 | a literal without repeats is kept unchanged by the intended filter |
| SeqSearch.DeduplicateAppend | KFDataStructures/Swift/UniqueQueue.swift:69-75 | deduplicating a concatenation deduplicates the second part against everything in the first |
| SeqSearch.DeduplicateIsFirstOccurrences | KFDataStructures/Swift/UniqueQueue.swift:69-75 | the intended filter keeps exactly the entries `s[i]` that do not occur in `s[..i]`, in their order |
| HeapOrder.Parent | KFDataStructures/Swift/Heap.swift:45 | the parent index `(i - 1) >> 1` lies before `i`, and `i` is its left or right child |
| HeapOrder.Swap | KFDataStructures/Swift/Heap.swift:50 | `swap(&a[i], &a[j])` exchanges the two entries, leaves every other entry alone and keeps the multiset |
| HeapOrder.AncestorOfParent | KFDataStructures/Swift/Heap.swift:44-53 | the parent of a position on the path from `i` to the root is on that path too, so sift-up only ever touches that path |
| HeapOrder.SwapUp | KFDataStructures/Swift/Heap.swift:44-53 | one round of sift-up: when the parent does not belong above the element, swapping them moves the only defect one level up |
| HeapOrder.Asymmetric | KFDataStructures/Swift/Heap.swift:63-68 | a strict weak order never puts two elements above each other both ways |
| HeapOrder.StopUp | KFDataStructures/Swift/Heap.swift:46-48 | sift-up may stop at the root or where the parent belongs above the element: the heap property holds everywhere |
| HeapOrder.SwapDown | KFDataStructures/Swift/Heap.swift:63-71 | one round of sift-down: swapping with the child chosen by the two comparisons moves the only defect to that child |
| HeapOrder.StopDown | KFDataStructures/Swift/Heap.swift:69 | sift-down may stop when no child belongs above the element: the heap property holds everywhere |
| HeapOrder.SwapLastAndDrop | KFDataStructures/Swift/Heap.swift:88-89 | after swapping the first element with the last and dropping the last, only the new first element can be out of place, and exactly the old first element has left |
| HeapOrder.RootIsFirst | KFDataStructures/Swift/Heap.swift:84-92 | no element of a heap belongs above its first element |
| HeapOrder.RootIsMinimal | KFDataStructures/Swift/Heap.swift:94-96 | `peek` of a non-empty heap is an element nothing in the heap belongs above |
| HeapOrder.RestIsNotBefore | KFDataStructures/Swift/Heap.swift:84-92 | after `pop` nothing left in the heap belongs above the element returned |
| Heap.Heap.constructor | KFDataStructures/Swift/Heap.swift:23-26 | `init(comparator:)`: an empty heap with that comparator |
| Heap.Heap.FromContents | KFDataStructures/Swift/Heap.swift:28-32 | `init(comparator:contents:)`: a valid heap holding exactly the given elements |
| Heap.Heap.IsEmpty | KFDataStructures/Swift/Heap.swift:15-17 | empty exactly when there are no elements, which is exactly when `peek` returns nil |
| Heap.Heap.Contains | KFDataStructures/Swift/Heap.swift:19-21 | true exactly when some element equals the argument |
| Heap.Heap.SwimHeap | KFDataStructures/Swift/Heap.swift:42-54 | from a heap whose only defect is at `index`, a valid heap with the same elements, changed only on the path from `index` to the root |
| Heap.Heap.SinkHeap | KFDataStructures/Swift/Heap.swift:56-73 | from a heap whose only defect is below `index`, a valid heap with the same elements |
| Heap.Heap.Push | KFDataStructures/Swift/Heap.swift:77-82 | the heap stays valid and holds its old elements plus the new one |
| Heap.Heap.Pop | KFDataStructures/Swift/Heap.swift:84-92 | nil on an empty heap, which stays empty; otherwise the old first element, removed exactly once, with nothing left that belongs above it and the heap still valid |
| Heap.Heap.Peek | KFDataStructures/Swift/Heap.swift:94-96 | nil exactly when empty, otherwise the first element |
| Heap.Heap.Next | KFDataStructures/Swift/Heap.swift:36-38 | `next()` behaves as `pop` |
| Heap.Heap.Drain | KFDataStructures/Swift/Heap.swift:35-39 | iterating the heap yields every element, each exactly as often as it was held, in comparator order, and leaves the heap empty |
| Heap.LeastIs | KFDataStructures/Swift/Heap.swift:84-92 | with `<` as comparator, the element `pop` returns is the least element held |
| Heap.PushScenario | KFDataStructures/Swift/Heap.swift:77-82 | pushing 5, 3, 8, 1, 9 into a `<` heap gives a valid heap of exactly those elements |
| Heap.PopLeast | KFDataStructures/Swift/Heap.swift:84-92 | from a `<` heap, `pop` returns the least element and leaves the rest |
| Heap.MinHeapScenario | KFDataStructures/Swift/Heap.swift:77-92 | pushing 5, 3, 8, 1, 9 into a `<` heap and popping six times gives 1, 3, 5, 8, 9 and then nil |
| Heap.PopLastThree | KFDataStructures/Swift/Heap.swift:84-92 | popping a `<` heap of 5, 8, 9 four times gives 5, 8, 9 and then nil, and leaves it empty |
| KFHeap.KFHeap.constructor | KFDataStructures/Swift/KFHeap.swift:40-43 | `init(compare:)`: an empty heap with that comparator |
| KFHeap.KFHeap.Push | KFDataStructures/Swift/KFHeap.swift:45-62 | the heap stays valid and holds its old elements plus the new one |
| KFHeap.KFHeap.Pop | KFDataStructures/Swift/KFHeap.swift:64-72 | nil on an empty heap; otherwise the old first element, removed exactly once, with nothing left that belongs above it and the heap still valid, including for a single element swapped with itself |
| KFHeap.KFHeap.RemoveAll | KFDataStructures/Swift/KFHeap.swift:74-76 | the heap is empty, its count 0 and it is still valid |
| KFHeap.KFHeap.Heapify | KFDataStructures/Swift/KFHeap.swift:78-95 | from a heap whose only defect is below `index` (or an empty one), a valid heap with the same elements |
| KFHeap.KFHeap.Count | KFDataStructures/Swift/KFHeap.swift:97-99 | the number of elements, 0 exactly when the heap is empty |
| KFHeap.KFHeap.IsEmpty | KFDataStructures/Swift/KFHeap.swift:101-103 | true exactly when no element is held |
| KFHeap.KFHeap.Next | KFDataStructures/Swift/KFHeap.swift:107-112 | `next()` behaves as `pop` |
| KFHeap.KFHeap.Drain | KFDataStructures/Swift/KFHeap.swift:114-119 | iterating the heap, which is its own generator, yields every element in comparator order and empties it |
| Queue.Queue.constructor | KFDataStructures/Swift/Queue.swift:14-16 | `init()`: an empty queue |
| Queue.Queue.FromElements | KFDataStructures/Swift/Queue.swift:18-20 | `init(elements:)` and the array literal (lines 77-79): the queue holds exactly the given elements, first first |
| Queue.Queue.Count | KFDataStructures/Swift/Queue.swift:26-28 | the number of elements, which is `endIndex - startIndex` |
| Queue.Queue.IsEmpty | KFDataStructures/Swift/Queue.swift:22-24 | empty exactly when the count is 0, which is exactly when `peek` returns nil |
| Queue.Queue.Push | KFDataStructures/Swift/Queue.swift:32-34 | the element joins at the back and the count grows by one |
| Queue.Queue.Pop | KFDataStructures/Swift/Queue.swift:36-39 | nil on an empty queue, which stays empty; otherwise the front element, and the rest of the queue in order |
| Queue.Queue.Invalidate | KFDataStructures/Swift/Queue.swift:41-45 | the first occurrence of the element is dropped; nothing changes when it is absent |
| Queue.Queue.Peek | KFDataStructures/Swift/Queue.swift:47-49 | nil exactly when empty, otherwise the front element |
| Queue.Queue.StartIndex | KFDataStructures/Swift/Queue.swift:53-55 | the collection starts at index 0 |
| Queue.Queue.EndIndex | KFDataStructures/Swift/Queue.swift:57-59 | the collection ends at the number of elements |
| Queue.Queue.IndexAfter | KFDataStructures/Swift/Queue.swift:65-67 | the successor of an index is the next integer |
| Queue.Queue.At | KFDataStructures/Swift/Queue.swift:61-63 | the subscript gives the element at that position, counted from the front |
| Queue.FirstInFirstOut | KFDataStructures/Swift/Queue.swift:32-39 | push a, push b, pop, push c, then three pops give a, b, c and nil: first in, first out |
| UniqueQueue.UniqueQueue.constructor | KFDataStructures/Swift/UniqueQueue.swift:16-19 | `init()`: an empty, valid queue |
| UniqueQueue.UniqueQueue.FromArrayLiteral | KFDataStructures/Swift/UniqueQueue.swift:70-74 | the initialiser as written: `uniques` is the literal's set and `contents` the literal itself, repeats included |
| UniqueQueue.UniqueQueue.FromArrayLiteralFixed | KFDataStructures/Swift/UniqueQueue.swift:70-74 | the initialiser with the intended filter: a valid queue holding the first occurrence of each element, and the literal unchanged when it has no repeats |
| UniqueQueue.UniqueQueue.Push | KFDataStructures/Swift/UniqueQueue.swift:23-28 | an element already queued changes nothing; a new one joins at the back and enters the set; the queue stays valid |
| UniqueQueue.UniqueQueue.Pop | KFDataStructures/Swift/UniqueQueue.swift:30-35 | nil on an empty queue; otherwise the front element, which also leaves the set, with the rest in order and the queue valid |
| UniqueQueue.UniqueQueue.Invalidate | KFDataStructures/Swift/UniqueQueue.swift:37-42 | the element leaves both the array, the others keeping their order, and the set; the queue stays valid |
| UniqueQueue.UniqueQueue.Peek | KFDataStructures/Swift/UniqueQueue.swift:44-46 | nil exactly when empty, otherwise the front element |
| UniqueQueue.UniqueQueue.StartIndex | KFDataStructures/Swift/UniqueQueue.swift:51-53 | the collection starts at index 0 |
| UniqueQueue.UniqueQueue.EndIndex | KFDataStructures/Swift/UniqueQueue.swift:55-57 | the collection ends at the number of elements |
| UniqueQueue.UniqueQueue.At | KFDataStructures/Swift/UniqueQueue.swift:59-61 | the subscript gives the element at that position, counted from the front |
| UniqueQueue.Filter | KFDataStructures/Swift/UniqueQueue.swift:73 | `filter` keeps only elements of the input that pass the test |
| UniqueQueue.FilterAll | KFDataStructures/Swift/UniqueQueue.swift:73 | a test every element passes keeps the input unchanged |
| UniqueQueue.ArrayLiteralContents | KFDataStructures/Swift/UniqueQueue.swift:70-74 | since `uniques` already holds every element when the filter runs, the filter keeps the whole literal |
| UniqueQueue.ArrayLiteralKeepsDuplicates | KFDataStructures/Swift/UniqueQueue.swift:70-74 | the literal `[a, a]` builds a queue holding `a` twice |
| UniqueQueue.UniqueQueue.IndexAfter | KFDataStructures/Swift/UniqueQueue.swift:63-65 | the successor of an index is the next integer |
| UniqueQueue.FirstInFirstOut | KFDataStructures/Swift/UniqueQueue.swift:23-35 | pushing a, b, a holds a, b only, and three pops give a, b and nil |
| KFQueue.KFQueue.constructor | KFDataStructures/Swift/KFQueue.swift:18-20 | `init()`: a valid empty queue |
| KFQueue.KFQueue.FromArray | KFDataStructures/Swift/KFQueue.swift:22-26 | `init(array:)`: a valid queue holding exactly the array's elements, first first |
| KFQueue.KFQueue.NewNode | KFDataStructures/Swift/KFQueue.swift:169-171 | `KFQueueNode(key:)`: a node not seen before, holding the key, with both links nil; nothing else changes |
| KFQueue.KFQueue.Enqueue | KFDataStructures/Swift/KFQueue.swift:28-42 | the queue stays valid and the key joins at the back |
| KFQueue.KFQueue.Dequeue | KFDataStructures/Swift/KFQueue.swift:44-62 | nil and no change on an empty queue; otherwise the front key, the rest in order, the node links untouched, `head` and `tail` cleared when the last key leaves, and validity kept |
| KFQueue.KFQueue.Peek | KFDataStructures/Swift/KFQueue.swift:64-66 | nil exactly when empty, otherwise the front key |
| KFQueue.KFQueue.IsEmpty | KFDataStructures/Swift/KFQueue.swift:68-70 | `internalCount == 0` exactly when no key is queued |
| KFQueue.KFQueue.Count | KFDataStructures/Swift/KFQueue.swift:72-74 | `internalCount` is the number of keys queued |
| KFQueue.KFQueue.Node | KFDataStructures/Swift/KFQueue.swift:76-93 | the walk from `head` returns None exactly when the key is not queued, otherwise the node of its first occurrence, which is `head` exactly when that occurrence is the front |
| KFQueue.KFQueue.Keys | KFDataStructures/Swift/KFQueue.swift:14-16 | the keys met by following `nextItem` from `head`, front first: the queue's contents |
| KFQueue.KFQueue.Unhook | KFDataStructures/Swift/KFQueue.swift:141-145 | relinking around a node that is not the head removes exactly that node from the chain, moving the real last node back when it was the tail, while `tail` itself stays where it was |
| KFQueue.KFQueue.UnhookFixed | KFDataStructures/Swift/KFQueue.swift:141-145 | the same relinking with `tail` moved to the predecessor when the node was the tail, so `tail` is the last node again |
| KFQueue.KFQueue.PushFront | KFDataStructures/Swift/KFQueue.swift:147-150 | a node outside the chain linked in front of `head` becomes the new head of a linked chain with the same last node |
| KFQueue.KFQueue.IterateAsWritten | KFDataStructures/Swift/KFQueue.swift:96-113 | the generator as written yields every key except the front one, on a non-empty queue; the source traps on an empty one (see Left out) |
| KFQueue.KFQueue.IterateFixed | KFDataStructures/Swift/KFQueue.swift:96-113 | the generator as intended yields exactly the queued keys, front first |
| KFQueue.AppendNode | KFDataStructures/Swift/KFQueue.swift:28-42 | linking a fresh node after the last one (or making it the only one) gives a linked chain one longer whose keys have the new key at the end |
| KFQueue.AppendFresh | KFDataStructures/Swift/KFQueue.swift:35 | a node newer than all others keeps the chain free of repeats |
| KFQueue.AppendKeys | KFDataStructures/Swift/KFQueue.swift:35-39 | the fresh node's key follows the old keys |
| KFQueue.AppendForward | KFDataStructures/Swift/KFQueue.swift:37 | after `tail.nextItem = newItem`, following `nextItem` from the head visits the old chain and then the new node |
| KFQueue.AppendBackward | KFDataStructures/Swift/KFQueue.swift:38 | after `newItem.previousItem = tail`, every node after the first points back at its predecessor |
| KFQueue.DropFront | KFDataStructures/Swift/KFQueue.swift:49-59 | moving `head` to its `nextItem` leaves a linked chain without the first node and keys without the first key |
| KFQueue.Unhooked | KFDataStructures/Swift/KFQueue.swift:141-145 | bypassing the node at a position after the first leaves the chain without that node linked, with the same first node, and the last node changed only when the bypassed one was last |
| KFQueue.UnhookedKeys | KFDataStructures/Swift/KFQueue.swift:141-145 | the remaining nodes keep their keys and ages |
| KFQueue.UnhookedForward | KFDataStructures/Swift/KFQueue.swift:144 | after `previous?.nextItem = next`, the forward links skip the bypassed node |
| KFQueue.UnhookedBackward | KFDataStructures/Swift/KFQueue.swift:145 | after `next?.previousItem = previous`, the backward links skip the bypassed node |
| KFQueue.PushedFront | KFDataStructures/Swift/KFQueue.swift:147-150 | a node outside the chain pointing at the head, which points back at it, heads a linked chain with the same last node |
| KFQueue.KeysFollowNodes | KFDataStructures/Swift/KFQueue.swift:141-150 | keys travel with their nodes when a node is taken out and put in front |
| KFQueue.TakenToFront | KFDataStructures/Swift/KFQueue.swift:139-153 | moving the node at a position to the front keeps the same keys without repeats, and behind the new front are exactly the old keys without that one |
| KFQueue.DeduplicateStep | KFDataStructures/Swift/KFQueue.swift:119-128 | each element of `init(array:)` through the overriding `enqueue` keeps "what is queued so far plus what the rest will add" constant |
| KFQueue.LastKey | KFDataStructures/Swift/KFQueue.swift:138-155 | among distinct keys, a position holds the last key only when it is the last position |
| KFQueue.KeyAppended | KFDataStructures/Swift/KFQueue.swift:123-128 | appending a key not yet held keeps the keys distinct and adds it to their set |
| KFQueue.KeyDropped | KFDataStructures/Swift/KFQueue.swift:130-136 | dropping the front of distinct keys removes exactly that key from their set |
| KFQueue.KFDynamicQueue.FromArray | KFDataStructures/Swift/KFQueue.swift:119-121 | `init(array:)` through the overriding `enqueue`: a valid queue holding the first occurrence of each element, in order |
| KFQueue.KFDynamicQueue.Enqueue | KFDataStructures/Swift/KFQueue.swift:123-128 | a key already held changes nothing; a new key joins at the back and enters `keys`; validity is kept |
| KFQueue.KFDynamicQueue.Dequeue | KFDataStructures/Swift/KFQueue.swift:130-136 | nil and no change on an empty queue; otherwise the front key, which also leaves `keys`, the rest in order, and validity kept |
| KFQueue.KFDynamicQueue.Invalidate | KFDataStructures/Swift/KFQueue.swift:138-155 | as written: the key leaves the queue (its first occurrence) and `keys`; when it was the tail of two or more keys, `tail` is left on a node no longer in the queue, otherwise the queue is valid |
| KFQueue.KFDynamicQueue.InvalidateFixed | KFDataStructures/Swift/KFQueue.swift:138-155 | with `tail` moved back, the key leaves the queue and `keys` and the queue is always valid |
| KFQueue.KFDynamicQueue.Contains | KFDataStructures/Swift/KFQueue.swift:157-159 | membership in `keys` is exactly membership in the queue |
| TreeShape.Find | KFDataStructures/Swift/BinarySearchTree.swift:112-122 | where `node(for:)` stops: a position in the tree whose node holds exactly the value searched for |
| TreeShape.LeftSpine | KFDataStructures/Swift/BinarySearchTree.swift:104-106 | the path `min()` follows takes only left turns and ends at a node without a left child |
| TreeShape.RightSpine | KFDataStructures/Swift/BinarySearchTree.swift:108-110 | the path `max()` follows ends at a node without a right child |
| TreeShape.AttachPoint | KFDataStructures/Swift/BinarySearchTree.swift:164-180 | `insert(value:)` hangs the new node on a node of the tree whose slot on the chosen side (left when the value is smaller) is empty |
| TreeShape.Successor | KFDataStructures/Swift/BinarySearchTree.swift:211 | `right.min()` is a node without a left child |
| TreeShape.InsertInto | KFDataStructures/Swift/BinarySearchTree.swift:164-180 | `insert(value:)` on the shape: a new leaf below the last node passed, left where the value is smaller; its values, ids and order are stated by `InsertValues`, `InsertIds`, `InsertOrdered` |
| TreeShape.InOrder | KFDataStructures/Swift/BinarySearchTree.swift:143-147 | the values `traverse(inOrder:)` hands out: left subtree, node, right subtree; by `InOrderValues` and `InOrderAscending` each stored value once, ascending |
| TreeShape.PreOrder | KFDataStructures/Swift/BinarySearchTree.swift:149-153 | the values `traverse(preOrder:)` hands out: node, left, right; each stored value once by `PreOrderValues` |
| TreeShape.PostOrder | KFDataStructures/Swift/BinarySearchTree.swift:155-159 | the values `traverse(postOrder:)` hands out: left, right, node; each stored value once by `PostOrderValues` |
| TreeShape.Replacement | KFDataStructures/Swift/BinarySearchTree.swift:205-241 | what `findReplacement()` as written puts in the node's place; its values, nodes and order are stated by `ReplacementValues`, `ReplacementIds`, `ReplacementOrdered`, and it differs from the repair as `ReplacementAsWritten` says |
| TreeShape.FixedReplacement | KFDataStructures/Swift/BinarySearchTree.swift:205-241 | the repaired replacement, keeping the successor's right subtree; stated by `FixedReplacementValues`, `FixedReplacementIds`, `FixedReplacementOrdered` |
| TreeShape.RemoveAsWritten | KFDataStructures/Swift/BinarySearchTree.swift:77-85 | `remove(value:)` as written on the shape, a childless root staying; its effect on the values is `RemoveAsWrittenValues` |
| TreeShape.RemoveFixed | KFDataStructures/Swift/BinarySearchTree.swift:77-85 | the repaired `remove(value:)` on the shape; it takes out one copy of the value by `RemoveFixedValues` |
| TreeShape.FoundIsStored | KFDataStructures/Swift/BinarySearchTree.swift:112-122 | whatever `node(for: v)` finds, `v` is stored in the tree |
| TreeShape.StoredIsFound | KFDataStructures/Swift/BinarySearchTree.swift:112-122 | on an ordered tree, `node(for: v)` finds a node whenever `v` is stored |
| TreeShape.FindIffStored | KFDataStructures/Swift/BinarySearchTree.swift:40-44 | on an ordered tree, the search succeeds exactly when the value is stored (both directions) |
| TreeShape.LeftSpineIsLeast | KFDataStructures/Swift/BinarySearchTree.swift:104-106 | on an ordered tree, every value is at or above the one `min()` reaches |
| TreeShape.RightSpineIsGreatest | KFDataStructures/Swift/BinarySearchTree.swift:108-110 | on an ordered tree, every value is at or below the one `max()` reaches |
| TreeShape.LeastValue | KFDataStructures/Swift/BinarySearchTree.swift:46-50 | `min()` returns a stored value that no stored value is below |
| TreeShape.GreatestValue | KFDataStructures/Swift/BinarySearchTree.swift:52-56 | `max()` returns a stored value that no stored value is above |
| TreeShape.InOrderValues | KFDataStructures/Swift/BinarySearchTree.swift:143-147 | the in-order traversal visits every stored value exactly once |
| TreeShape.PreOrderValues | KFDataStructures/Swift/BinarySearchTree.swift:149-153 | the pre-order traversal visits every stored value exactly once |
| TreeShape.PostOrderValues | KFDataStructures/Swift/BinarySearchTree.swift:155-159 | the post-order traversal visits every stored value exactly once |
| TreeShape.InOrderBelow | KFDataStructures/Swift/BinarySearchTree.swift:143-147 | a bound on every value of a subtree bounds every value its in-order traversal hands out |
| TreeShape.InOrderAtLeast | KFDataStructures/Swift/BinarySearchTree.swift:143-147 | a lower bound of a subtree bounds its in-order traversal from below |
| TreeShape.AscendingJoin | KFDataStructures/Swift/BinarySearchTree.swift:143-147 | the left traversal, the node and the right traversal make one non-decreasing run when the node separates them |
| TreeShape.InOrderAscending | KFDataStructures/Swift/BinarySearchTree.swift:25-26 | the in-order traversal of an ordered tree is non-decreasing |
| TreeShape.InsertValues | KFDataStructures/Swift/BinarySearchTree.swift:164-180 | insertion adds exactly one copy of the inserted value |
| TreeShape.InsertIds | KFDataStructures/Swift/BinarySearchTree.swift:164-180 | insertion adds exactly the new node |
| TreeShape.InsertUnique | KFDataStructures/Swift/BinarySearchTree.swift:164-180 | a newly created node is shared with nothing |
| TreeShape.InsertBelow | KFDataStructures/Swift/BinarySearchTree.swift:164-180 | inserting a value below a bound keeps every value of the tree below it |
| TreeShape.InsertAtLeast | KFDataStructures/Swift/BinarySearchTree.swift:164-180 | inserting a value at or above a bound keeps every value at or above it |
| TreeShape.InsertOrdered | KFDataStructures/Swift/BinarySearchTree.swift:164-180 | insertion (smaller values left, equal and larger right) keeps the tree ordered |
| TreeShape.RestValues | KFDataStructures/Swift/BinarySearchTree.swift:211-215 | taking the successor out of the right subtree loses exactly the successor's value |
| TreeShape.RestIds | KFDataStructures/Swift/BinarySearchTree.swift:211-215 | ... and exactly the successor's node |
| TreeShape.RestOrder | KFDataStructures/Swift/BinarySearchTree.swift:208-215 | the successor is at or above the node, and the right subtree without it stays ordered and at or above the successor |
| TreeShape.RestBounds | KFDataStructures/Swift/BinarySearchTree.swift:211-215 | the right subtree without the successor keeps the bounds the right subtree kept |
| TreeShape.FixedReplacementValues | KFDataStructures/Swift/BinarySearchTree.swift:205-241 | the repaired replacement holds every value of the node's subtree but the node's own |
| TreeShape.FixedReplacementIds | KFDataStructures/Swift/BinarySearchTree.swift:205-241 | the repaired replacement is made of the node's descendants, none shared |
| TreeShape.FixedReplacementOrdered | KFDataStructures/Swift/BinarySearchTree.swift:205-241 | the repaired replacement is ordered |
| TreeShape.FixedReplacementBounds | KFDataStructures/Swift/BinarySearchTree.swift:205-241 | the repaired replacement keeps the bounds of the node's subtree |
| TreeShape.ReplacementAsWritten | KFDataStructures/Swift/BinarySearchTree.swift:224-229 | the replacement as written equals the repaired one except when the successor is the right child, where it drops that child's right subtree |
| TreeShape.ReplacementValues | KFDataStructures/Swift/BinarySearchTree.swift:205-241 | as written the replacement holds the node's other values, less the successor's right subtree in the case where the successor is the right child |
| TreeShape.DroppedValues | KFDataStructures/Swift/BinarySearchTree.swift:228 | in that case, the replacement plus the dropped subtree plus the node's value are the node's subtree |
| TreeShape.ReplacementIds | KFDataStructures/Swift/BinarySearchTree.swift:205-241 | the replacement as written is made of the node's descendants, none shared |
| TreeShape.ReplacementOrdered | KFDataStructures/Swift/BinarySearchTree.swift:205-241 | the replacement as written is ordered |
| TreeShape.ReplacementBounds | KFDataStructures/Swift/BinarySearchTree.swift:205-241 | the replacement as written keeps the bounds of the node's subtree |
| TreeShape.RemovalPlug | KFDataStructures/Swift/BinarySearchTree.swift:186-196 | putting an ordered replacement of descendants in the removed node's place keeps the tree ordered and unshared, and the values change only at that place |
| TreeShape.RemoveAtValues | KFDataStructures/Swift/BinarySearchTree.swift:186-203 | a replacement holding the node's other values makes the tree lose exactly one copy of the node's value |
| TreeShape.RemoveAtValuesLosing | KFDataStructures/Swift/BinarySearchTree.swift:186-203 | a replacement missing some more values makes the tree lose those too |
| TreeShape.ReplacedFixed | KFDataStructures/Swift/BinarySearchTree.swift:186-203 | the repaired removal at any position keeps the tree ordered and unshared |
| TreeShape.RemoveFixedShape | KFDataStructures/Swift/BinarySearchTree.swift:77-85 | the repaired `remove(value:)` keeps the tree ordered and unshared and adds no node |
| TreeShape.RemoveFixedValues | KFDataStructures/Swift/BinarySearchTree.swift:77-85 | the repaired `remove(value:)` takes out exactly one copy of the value, and nothing when it is absent |
| TreeShape.ReplacedAsWritten | KFDataStructures/Swift/BinarySearchTree.swift:186-203 | removal as written at any position keeps the tree ordered and unshared |
| TreeShape.RemoveAsWrittenShape | KFDataStructures/Swift/BinarySearchTree.swift:77-85 | `remove(value:)` as written keeps the tree ordered and unshared and adds no node |
| TreeShape.RemoveAsWrittenValues | KFDataStructures/Swift/BinarySearchTree.swift:77-85 | as written: nothing changes for an absent value or a childless root; with two children and the successor as right child the tree also loses that child's right subtree; otherwise exactly one copy of the value goes |
| TreeShape.RemovedDropping | KFDataStructures/Swift/BinarySearchTree.swift:224-229 | the subtree-dropping case at the found position: the tree loses the value and the successor's right subtree |
| TreeShape.SuccessorPosition | KFDataStructures/Swift/BinarySearchTree.swift:211-215 | `right.min()` sits at the end of the right subtree's left spine, and its own removal there leaves the node with the successor taken out of its right subtree |
| TreeShape.SuccessorIsRight | KFDataStructures/Swift/BinarySearchTree.swift:221-224 | the successor is the right child itself exactly when the right child has no left child |
| TreeShape.ChildByPath | KFDataStructures/Swift/BinarySearchTree.swift:124-130 | in an unshared tree a node is a left child exactly when its position ends with a left turn, and a right child exactly when it ends with a right turn |
| TreeShape.SuccessorGone | KFDataStructures/Swift/BinarySearchTree.swift:215 | once taken out of its place, the successor is nowhere in the tree |
| TreeShape.SuccessorApart | KFDataStructures/Swift/BinarySearchTree.swift:218-225 | the successor is neither the node nor its left child, and the node's children differ from the node |
| TreeArena.ChildSide | KFDataStructures/Swift/BinarySearchTree.swift:124-130 | on an arena without stale links every node's parent link names the node above, which links to it on exactly the side of its last turn |
| TreeArena.IsLeftChild | KFDataStructures/Swift/BinarySearchTree.swift:124-126 | `isLeftChild`: the node's parent has it as left child; `ChildFlags` shows it holds exactly for left children of the shape |
| TreeArena.IsRightChild | KFDataStructures/Swift/BinarySearchTree.swift:128-130 | `isRightChild`: the node's parent has it as right child; `ChildFlags` shows it holds exactly for right children |
| TreeArena.ChildFlags | KFDataStructures/Swift/BinarySearchTree.swift:124-130 | `isLeftChild` holds exactly for the left children of the shape and `isRightChild` exactly for the right children |
| TreeArena.ParentAt | KFDataStructures/Swift/BinarySearchTree.swift:92 | without stale links each node's `parent` names the node above it |
| TreeArena.AttachedEntries | KFDataStructures/Swift/BinarySearchTree.swift:169-170 | hanging a new node changes only the new entry and one child link of the node it hangs on |
| TreeArena.InsertEncodes | KFDataStructures/Swift/BinarySearchTree.swift:164-180 | the arena after insertion realizes the shape after insertion |
| TreeArena.InsertParented | KFDataStructures/Swift/BinarySearchTree.swift:164-180 | insertion sets the new node's parent and keeps every other parent link |
| TreeArena.SplicedEntries | KFDataStructures/Swift/BinarySearchTree.swift:188-200 | the splice changes only the parent's link on the node's side, the replacement's parent, and the removed node's three links |
| TreeArena.SpliceEncodes | KFDataStructures/Swift/BinarySearchTree.swift:188-194 | after the splice the arena realizes the shape with the replacement in the removed node's place |
| TreeArena.SpliceParents | KFDataStructures/Swift/BinarySearchTree.swift:196 | after the splice the replacement names the removed node's parent, and no other parent link changed |
| TreeArena.Unhooked | KFDataStructures/Swift/BinarySearchTree.swift:186-203 | all of `remove()`'s relinking: the new shape is realized, the removed node keeps its value and loses its three links, and other parents stay |
| TreeArena.SpliceAt | KFDataStructures/Swift/BinarySearchTree.swift:186-203 | the same, stated for the tree before the successor left |
| TreeArena.HungAsWritten | KFDataStructures/Swift/BinarySearchTree.swift:218-229 | as written the successor takes both subtrees, but the left child's parent still names the removed node |
| TreeArena.RehungEntries | KFDataStructures/Swift/BinarySearchTree.swift:218-226 | the repaired relinking changes exactly the successor's two child links and the parents of the two subtrees |
| TreeArena.HungFixed | KFDataStructures/Swift/BinarySearchTree.swift:218-226 | the repaired relinking hangs both subtrees under the successor with their parent links right |
| TreeArena.HungFixedLinks | KFDataStructures/Swift/BinarySearchTree.swift:218-226 | the repaired relinking realizes the repaired replacement and keeps the node in place |
| TreeArena.HookedFrame | KFDataStructures/Swift/BinarySearchTree.swift:186-203 | a node stays hooked in while its own entry and that of its parent keep their links |
| TreeArena.HungFixedParents | KFDataStructures/Swift/BinarySearchTree.swift:218-226 | after the repair every node below the replacement names its parent |
| TreeArena.OneChildPlaced | KFDataStructures/Swift/BinarySearchTree.swift:234-240 | with at most one child the replacement is that child, already in place, and both readings agree |
| TreeArena.SuccessorHung | KFDataStructures/Swift/BinarySearchTree.swift:211-232 | `findReplacement()` as written for two children: the node is still hooked in, the replacement is realized, and only the links `StaleAfter` names are wrong |
| TreeArena.SuccessorRehung | KFDataStructures/Swift/BinarySearchTree.swift:211-232 | the repaired `findReplacement()` for two children leaves the repaired replacement realized with no stale link |
| TreeArena.LeftLinkStale | KFDataStructures/Swift/BinarySearchTree.swift:219 | after a removal as written of a node with two children, some parent link is wrong |
| TreeArena.SplicedOut | KFDataStructures/Swift/BinarySearchTree.swift:186-203 | one `remove()` as written: the shape with the replacement is realized, ordered and unshared, and only the `StaleAfter` links are wrong |
| TreeArena.SplicedOutFixed | KFDataStructures/Swift/BinarySearchTree.swift:186-203 | one repaired `remove()`: the same with every parent link right |
| BinarySearchTree.BinarySearchTree.constructor | KFDataStructures/Swift/BinarySearchTree.swift:19-21 | `init(value:)`: a tree of one node, holding the value, with every link right |
| BinarySearchTree.BinarySearchTree.MinNode | KFDataStructures/Swift/BinarySearchTree.swift:104-106 | the loop that follows `left` stops at the end of the left spine |
| BinarySearchTree.BinarySearchTree.MaxNode | KFDataStructures/Swift/BinarySearchTree.swift:108-110 | the loop that follows `right` stops at the end of the right spine |
| BinarySearchTree.BinarySearchTree.NodeFor | KFDataStructures/Swift/BinarySearchTree.swift:112-122 | `node(for:)` returns the node at the position `Find` names, and nil exactly when there is none |
| BinarySearchTree.BinarySearchTree.Contains | KFDataStructures/Swift/BinarySearchTree.swift:40-44 | `contains(value:)` is true exactly when the value is stored |
| BinarySearchTree.BinarySearchTree.Min | KFDataStructures/Swift/BinarySearchTree.swift:48-50 | `min()` is nil exactly for an empty tree, and otherwise a stored value no stored value is below |
| BinarySearchTree.BinarySearchTree.Max | KFDataStructures/Swift/BinarySearchTree.swift:54-56 | `max()` is nil exactly for an empty tree, and otherwise a stored value no stored value is above |
| BinarySearchTree.BinarySearchTree.TraverseInOrder | KFDataStructures/Swift/BinarySearchTree.swift:143-147 | the callback receives the in-order listing of the subtree |
| BinarySearchTree.BinarySearchTree.TraversePreOrder | KFDataStructures/Swift/BinarySearchTree.swift:149-153 | the callback receives the pre-order listing of the subtree |
| BinarySearchTree.BinarySearchTree.TraversePostOrder | KFDataStructures/Swift/BinarySearchTree.swift:155-159 | the callback receives the post-order listing of the subtree |
| BinarySearchTree.BinarySearchTree.Traverse | KFDataStructures/Swift/BinarySearchTree.swift:59-61 | `traverse(order:callback:)` dispatches on the order, and an empty tree calls back never |
| BinarySearchTree.BinarySearchTree.NodeInsert | KFDataStructures/Swift/BinarySearchTree.swift:164-180 | the node's `insert(value:)` hangs a fresh node on the attach point, on the side of the comparison |
| BinarySearchTree.BinarySearchTree.Insert | KFDataStructures/Swift/BinarySearchTree.swift:66-72 | the tree's shape becomes the shape with the value inserted; an empty tree gets a new root; correct parent links stay correct |
| BinarySearchTree.BinarySearchTree.FindReplacement | KFDataStructures/Swift/BinarySearchTree.swift:205-241 | as written: the successor has left its place, the returned node roots the replacement, and only the `StaleAfter` links are wrong |
| BinarySearchTree.BinarySearchTree.NodeRemove | KFDataStructures/Swift/BinarySearchTree.swift:186-203 | the node's `remove()`: the replacement takes its place, the node ends with no links, and the returned node is the replacement's root |
| BinarySearchTree.BinarySearchTree.Remove | KFDataStructures/Swift/BinarySearchTree.swift:77-85 | `remove(value:)` as written realizes `RemoveAsWritten`; parent links end wrong exactly when a node with two children was removed |
| BinarySearchTree.BinarySearchTree.FindReplacementFixed | KFDataStructures/Swift/BinarySearchTree.swift:205-241 | the repaired `findReplacement()`: the repaired replacement is realized with every parent link right |
| BinarySearchTree.BinarySearchTree.NodeRemoveFixed | KFDataStructures/Swift/BinarySearchTree.swift:186-203 | the repaired node removal leaves no stale link |
| BinarySearchTree.BinarySearchTree.RemoveFixed | KFDataStructures/Swift/BinarySearchTree.swift:77-85 | the repaired `remove(value:)` realizes the repaired shape removal with every parent link right |
| BinarySearchTree.RootLeafKept | KFDataStructures/Swift/BinarySearchTree.swift:80 | removing the only value of a one-node tree as written leaves the node in place |
| BinarySearchTree.RootLeafRemoved | KFDataStructures/Swift/BinarySearchTree.swift:77-85 | the repaired removal empties that tree |
| BinarySearchTree.LinksLeftStale | KFDataStructures/Swift/BinarySearchTree.swift:219 | removing a node with two children as written leaves a stale parent link |
| BinarySearchTree.FourNodesAsWritten | KFDataStructures/Swift/BinarySearchTree.swift:224-229 | removing 5 from 5 (3, 8 (-, 9)) as written yields 8 (3, -): the value 9 is lost |
| BinarySearchTree.FourNodesFixed | KFDataStructures/Swift/BinarySearchTree.swift:224-229 | the repaired removal yields 8 (3, 9) |
| BinarySearchTree.SubtreeLost | KFDataStructures/Swift/BinarySearchTree.swift:224-229 | the same loss, on the arena tree as written |
| BinarySearchTree.SubtreeKept | KFDataStructures/Swift/BinarySearchTree.swift:224-229 | the repaired arena tree keeps 9 and every parent link |
| RootedTree.Above | KFDataStructures/Swift/Lineage.swift:14 | the node a position's `parent` link names is the node one level up, and that node has it as a child at the last index of the path |
| RootedTree.IsLeaf | KFDataStructures/Swift/Lineage.swift:27-29 | `isLeaf` (also `KFTreeNode.isLeaf`, KFTreeMap.swift:129-131): no children |
| RootedTree.IsOrigin | KFDataStructures/Swift/Lineage.swift:31-33 | `isOrigin` (also `KFTreeNode.isRoot`, KFTreeMap.swift:122-127): the `parent` link is nil |
| RootedTree.Same | KFDataStructures/Swift/Lineage.swift:110-112 | `==` on lineages: equal elements; on tree nodes (KFTreeMap.swift:190-192) key identity |
| RootedTree.Leaves | KFDataStructures/Swift/Lineage.swift:87-90 | `leaves` (also `KFTreeNode.leaves`, KFTreeMap.swift:147-158): a leaf's own element, otherwise the children's leaves concatenated; `LeafInLeaves` and `LeavesAreLeaves` show it lists exactly the leaves |
| RootedTree.LeavesOf | KFDataStructures/Swift/KFTreeMap.swift:152-156 | the loop `leaves += child.leaves()` over the children in order |
| RootedTree.Chain | KFDataStructures/Swift/Lineage.swift:74-85 | the elements `rootPath` collects: the node's, then each `parent`'s while the link is not nil; `ChainEntry`, `ChainEnd` and `ChainToOrigin` state its entries and end |
| RootedTree.Find | KFDataStructures/Swift/Lineage.swift:92-101 | `node(element)` leads only to a node holding the element |
| RootedTree.FindFrom | KFDataStructures/Swift/Lineage.swift:95-99 | the loop over the children finds only nodes below the top that hold the element |
| RootedTree.FindIffIn | KFDataStructures/Swift/Lineage.swift:35-40 | `contains`: the search succeeds exactly when some node of the tree holds the element (both directions) |
| RootedTree.FindFromIffIn | KFDataStructures/Swift/Lineage.swift:95-100 | the loop from the `i`th child on succeeds exactly when one of those children's subtrees holds the element |
| RootedTree.FoundHolds | KFDataStructures/Swift/KFTreeMap.swift:160-171 | a key that is stored is found, at a node holding it |
| RootedTree.ElementsPut | KFDataStructures/Swift/Lineage.swift:42-71 | changing one node trades exactly its elements for those of the new node |
| RootedTree.ElementsAt | KFDataStructures/Swift/Lineage.swift:92-101 | the subtree at any position holds only elements of the whole tree |
| RootedTree.ConsistentAt | KFDataStructures/Swift/Lineage.swift:14 | when every link below the top is in place, every node below the top has a `parent` and the subtree at a position keeps that |
| RootedTree.PutConsistent | KFDataStructures/Swift/Lineage.swift:44 | replacing a node by one with the same link and in-place links below keeps every `parent` link in place |
| RootedTree.ChainEntry | KFDataStructures/Swift/Lineage.swift:78-83 | entry `i` of the chain of `parent` links is the key of the node `i` levels up |
| RootedTree.ChainEnd | KFDataStructures/Swift/Lineage.swift:80-83 | the climb stops only at the top or at a node whose `parent` is nil, and never goes above the top |
| RootedTree.ChainToOrigin | KFDataStructures/Swift/Lineage.swift:73-85 | with every link in place the climb has one entry per level and ends at the origin |
| RootedTree.LeafInLeaves | KFDataStructures/Swift/Lineage.swift:87-90 | every leaf's element appears in `leaves` |
| RootedTree.LeavesAreLeaves | KFDataStructures/Swift/Lineage.swift:87-90 | every element of `leaves` is the element of some leaf |
| RootedTree.LeavesOfHas | KFDataStructures/Swift/KFTreeMap.swift:153-155 | a leaf of any child is among the concatenated leaves of the children |
| RootedTree.LeavesOfSome | KFDataStructures/Swift/KFTreeMap.swift:153-155 | whatever the concatenated leaves hold comes from one of the children |
| Lineage.Reparent | KFDataStructures/Swift/Lineage.swift:55 | `children.forEach { $0.parent = … }` sets each child's link and changes nothing else |
| Lineage.Insert | KFDataStructures/Swift/Lineage.swift:44 | `Set.insert`: the node joins unless a `==` child is there; `InsertHas`, `InsertKeyed`, `InsertElements` state it |
| Lineage.Remove | KFDataStructures/Swift/Lineage.swift:51 | `Set.remove`: the `==` child leaves; `RemoveHas`, `RemoveGone`, `RemoveElements` state it |
| Lineage.Union | KFDataStructures/Swift/Lineage.swift:54 | `Set.unionInPlace`: each new node joins unless a `==` child is there; `UnionHas`, `UnionCovers`, `UnionFresh` state it |
| Lineage.AfterLink | KFDataStructures/Swift/Lineage.swift:42-45 | the lineage after `link`; `LinkAbsent`, `LinkDuplicate`, `LinkAdds` state its three cases |
| Lineage.Cut | KFDataStructures/Swift/Lineage.swift:51-56 | unlinking a linked node: out of its parent's children, which with repair take in its re-linked children; `CutElements`, `CutCovers`, `CutFresh` state it |
| Lineage.AfterUnlink | KFDataStructures/Swift/Lineage.swift:49-61 | the lineage after `unlink`; `UnlinkAbsent`, `UnlinkDiscards`, `UnlinkRepairs`, `UnlinkRepairsInPlace` state its cases |
| Lineage.AfterPrune | KFDataStructures/Swift/Lineage.swift:64-71 | the lineage after `prune`; `PruneTakes` and `PruneIsUnlink` state it |
| Lineage.RootPathOf | KFDataStructures/Swift/Lineage.swift:74-85 | what `rootPath` returns: nothing for an absent element, else the chain of `parent` links; `RootPathFacts` states it |
| Lineage.RemoveHas | KFDataStructures/Swift/Lineage.swift:51 | `Set.remove` keeps exactly the children not `==` to the one removed |
| Lineage.RemoveKeyed | KFDataStructures/Swift/Lineage.swift:51 | removing from a child set keeps it keyed by element |
| Lineage.RemoveAbsent | KFDataStructures/Swift/Lineage.swift:51 | removing a node with no `==` child changes nothing |
| Lineage.RemoveGone | KFDataStructures/Swift/Lineage.swift:51 | after the removal no child is `==` to the removed node |
| Lineage.RemoveElements | KFDataStructures/Swift/Lineage.swift:51 | the removal takes away exactly the removed child's elements |
| Lineage.InsertHas | KFDataStructures/Swift/Lineage.swift:44 | after `Set.insert` the new node has a `==` child, and only it can have joined |
| Lineage.InsertKeyed | KFDataStructures/Swift/Lineage.swift:44 | inserting keeps a child set keyed by element |
| Lineage.InsertPrefix | KFDataStructures/Swift/Lineage.swift:44 | inserting keeps the children already there |
| Lineage.InsertElements | KFDataStructures/Swift/Lineage.swift:44 | inserting adds exactly the new node's elements, or nothing when a `==` child is there |
| Lineage.UnionHas | KFDataStructures/Swift/Lineage.swift:54 | `unionInPlace` takes in only children of either set |
| Lineage.UnionKeyed | KFDataStructures/Swift/Lineage.swift:54 | the union is keyed by element |
| Lineage.UnionPrefix | KFDataStructures/Swift/Lineage.swift:54 | the union keeps the children already there |
| Lineage.UnionKeepsMember | KFDataStructures/Swift/Lineage.swift:54 | whoever was a child stays one |
| Lineage.UnionCovers | KFDataStructures/Swift/Lineage.swift:54 | every node of the second set ends with a `==` child in the union |
| Lineage.UnionFresh | KFDataStructures/Swift/Lineage.swift:54 | with no collisions the union keeps the second set whole |
| Lineage.ReparentElements | KFDataStructures/Swift/Lineage.swift:55 | re-linking changes no element |
| Lineage.WellFormedAt | KFDataStructures/Swift/Lineage.swift:15 | the subtree at every position has keyed children |
| Lineage.PutWellFormed | KFDataStructures/Swift/Lineage.swift:15 | replacing a node by a keyed one with the same element keeps every child set keyed |
| Lineage.Lineage.constructor | KFDataStructures/Swift/Lineage.swift:17-25 | `init(element:)`: an origin with no parent and no children |
| Lineage.Lineage.Contains | KFDataStructures/Swift/Lineage.swift:35-40 | `contains(element:)` is true exactly when some node holds the element |
| Lineage.Lineage.Link | KFDataStructures/Swift/Lineage.swift:42-45 | `link` realizes `AfterLink`, and keeps the children keyed and the links in place |
| Lineage.LinkAbsent | KFDataStructures/Swift/Lineage.swift:43 | with the parent absent, `link` changes nothing |
| Lineage.LinkDuplicate | KFDataStructures/Swift/Lineage.swift:44 | a child `==` to one already there is not added |
| Lineage.LinkAdds | KFDataStructures/Swift/Lineage.swift:42-45 | otherwise the parent's node gains exactly one new linked leaf holding the child, so `contains(child)` holds |
| Lineage.LinkKeeps | KFDataStructures/Swift/Lineage.swift:42-45 | `link` keeps the child sets keyed and every link in place |
| Lineage.Lineage.Unlink | KFDataStructures/Swift/Lineage.swift:49-61 | `unlink` realizes `AfterUnlink`, returns the element exactly when it is present, keeps the child sets keyed, and keeps the links in place unless the origin is repaired |
| Lineage.CutChildren | KFDataStructures/Swift/Lineage.swift:51-55 | after the cut the parent's children are some of its own, or children of the node re-linked to it |
| Lineage.CutKeeps | KFDataStructures/Swift/Lineage.swift:51-58 | the cut keeps the child sets keyed and every link in place |
| Lineage.UnlinkKeeps | KFDataStructures/Swift/Lineage.swift:49-61 | `unlink` keeps the child sets keyed, and the links in place except when the origin is repaired |
| Lineage.CutElements | KFDataStructures/Swift/Lineage.swift:51-57 | without repair the node and its whole subtree leave the lineage |
| Lineage.CutCovers | KFDataStructures/Swift/Lineage.swift:53-55 | with repair the parent keeps its other children first, and each of the node's children has a `==` child there afterwards |
| Lineage.CutFresh | KFDataStructures/Swift/Lineage.swift:53-55 | with repair and no collisions the node's children move whole under the parent, and only the node's element leaves |
| Lineage.UnlinkAbsent | KFDataStructures/Swift/Lineage.swift:50 | unlinking an absent element changes nothing |
| Lineage.UnlinkDiscards | KFDataStructures/Swift/Lineage.swift:57 | without repair a linked node leaves with its subtree; a node whose `parent` is nil stays and loses all its children |
| Lineage.UnlinkRepairs | KFDataStructures/Swift/Lineage.swift:53-56 | with repair a linked node's children go under its parent and, barring collisions, only the node's element leaves |
| Lineage.UnlinkRepairsInPlace | KFDataStructures/Swift/Lineage.swift:53-58 | with repair a node whose `parent` is nil keeps its children, all with nil links, and no element leaves |
| Lineage.UnlinkOriginRepair | KFDataStructures/Swift/Lineage.swift:53-58 | unlinking the origin with repair leaves it in place with unlinked children |
| Lineage.Lineage.Prune | KFDataStructures/Swift/Lineage.swift:64-71 | `prune` returns the element exactly when its node is a leaf, realizes `AfterPrune`, and otherwise changes nothing |
| Lineage.PruneTakes | KFDataStructures/Swift/Lineage.swift:64-71 | pruning a linked leaf removes exactly its element |
| Lineage.PruneIsUnlink | KFDataStructures/Swift/Lineage.swift:64-71 | on a leaf, `prune` does what `unlink` without repair does |
| Lineage.Lineage.RootPath | KFDataStructures/Swift/Lineage.swift:74-85 | `rootPath` realizes the chain of `parent` links from the node holding the element |
| Lineage.RootPathFacts | KFDataStructures/Swift/Lineage.swift:73-85 | `rootPath` is empty exactly for an absent element, starts at the element, and ends at the origin when every link is in place |
| KFTreeMap.IndexOfKey | KFDataStructures/Swift/KFTreeMap.swift:139 | `indexOf` with key equality: the first node holding the key, or none exactly when no node holds it |
| KFTreeMap.AddChild | KFDataStructures/Swift/KFTreeMap.swift:133-135 | `addChild` appends the leaf after the children already there and adds exactly its keys |
| KFTreeMap.RemoveChild | KFDataStructures/Swift/KFTreeMap.swift:137-145 | `removeChild` succeeds exactly when the argument is a leaf and a child has its key; it then drops the first such child and exactly its keys, and otherwise changes nothing |
| KFTreeMap.ElementsRemoveAt | KFDataStructures/Swift/KFTreeMap.swift:140 | dropping the child at an index drops exactly its keys |
| KFTreeMap.Contains | KFDataStructures/Swift/KFTreeMap.swift:181-186 | `contains` on a node: true exactly when its subtree holds the key |
| KFTreeMap.CountAsWritten | KFDataStructures/Swift/KFTreeMap.swift:173-179 | `count` as written is 0 for every node |
| KFTreeMap.CountFixed | KFDataStructures/Swift/KFTreeMap.swift:173-179 | the intended count is the number of nodes in the subtree |
| KFTreeMap.CountFinding | KFDataStructures/Swift/KFTreeMap.swift:173-179 | a root with one child counts 0 as written and 2 as intended |
| KFTreeMap.FindInForest | KFDataStructures/Swift/KFTreeMap.swift:87-95 | `findNode` on the map: the first tree whose search succeeds, and the path there |
| KFTreeMap.ForestFindIffIn | KFDataStructures/Swift/KFTreeMap.swift:87-95 | the map's search succeeds exactly when some tree holds the key |
| KFTreeMap.ForestUpdate | KFDataStructures/Swift/KFTreeMap.swift:32 | replacing one tree trades exactly its keys |
| KFTreeMap.Grown | KFDataStructures/Swift/KFTreeMap.swift:28-36 | the forest after `growBranch`: the branch node gets the new linked leaf as last child; `GrowElements`, `GrowForest`, `GrowPlaces` state it |
| KFTreeMap.Removed | KFDataStructures/Swift/KFTreeMap.swift:57-77 | the forest after `removeKey` of a leaf: out of its parent's children, or out of `trees` for a root; `RemoveChildElements`, `RemoveRootElements`, `RemoveForest` state it |
| KFTreeMap.GrowElements | KFDataStructures/Swift/KFTreeMap.swift:28-36 | `growBranch` adds exactly the new key |
| KFTreeMap.GrowForest | KFDataStructures/Swift/KFTreeMap.swift:31-32 | the new leaf is linked to its branch, and every tree stays a root with its links in place |
| KFTreeMap.GrowPlaces | KFDataStructures/Swift/KFTreeMap.swift:31-32 | after `growBranch` the branch is still there and the new leaf is its last child |
| KFTreeMap.GrownValid | KFDataStructures/Swift/KFTreeMap.swift:28-36 | `growBranch` with a new key keeps `keys` equal to the forest's keys, each held once |
| KFTreeMap.RemoveRootElements | KFDataStructures/Swift/KFTreeMap.swift:66-72 | taking a one-node tree out of `trees` takes out exactly its key |
| KFTreeMap.RemoveChildElements | KFDataStructures/Swift/KFTreeMap.swift:60-64 | taking a leaf out of its parent's children takes out exactly its key |
| KFTreeMap.RemoveForest | KFDataStructures/Swift/KFTreeMap.swift:57-77 | `removeKey` keeps every tree a root with its links in place |
| KFTreeMap.RemovedValid | KFDataStructures/Swift/KFTreeMap.swift:57-77 | `removeKey` of a leaf keeps `keys` equal to the forest's keys, with the key gone |
| KFTreeMap.TwoHolders | KFDataStructures/Swift/KFTreeMap.swift:13-14 | two different children holding one key hold it twice |
| KFTreeMap.OnlyHolder | KFDataStructures/Swift/KFTreeMap.swift:139 | a key held once is found by `indexOf` at its one holder |
| KFTreeMap.UniqueKey | KFDataStructures/Swift/KFTreeMap.swift:62-69 | with each key held once, `indexOf` finds the very node `findNode` found, among its parent's children or among the trees |
| KFTreeMap.ElementsOfPush | KFDataStructures/Swift/KFTreeMap.swift:23 | appending a tree adds exactly its keys |
| KFTreeMap.AddedValid | KFDataStructures/Swift/KFTreeMap.swift:20-26 | `addTree` with a new key keeps `keys` equal to the forest's keys |
| KFTreeMap.LeavesOfAppend | KFDataStructures/Swift/KFTreeMap.swift:81-83 | the leaves of the trees one after another are the concatenation of each tree's leaves |
| KFTreeMap.LeafListed | KFDataStructures/Swift/KFTreeMap.swift:79-85 | every leaf of every tree is among the map's `leaves()` |
| KFTreeMap.ListedIsLeaf | KFDataStructures/Swift/KFTreeMap.swift:79-85 | only leaf keys appear in `leaves()` |
| KFTreeMap.PathToRootFacts | KFDataStructures/Swift/KFTreeMap.swift:38-55 | the climb from a found node has one key per level: first the key asked for, last the root of its tree |
| KFTreeMap.KFTreeMap.constructor | KFDataStructures/Swift/KFTreeMap.swift:16-18 | a map with no trees and no keys |
| KFTreeMap.KFTreeMap.AddTree | KFDataStructures/Swift/KFTreeMap.swift:20-26 | `addTree` adds a one-node tree and its key exactly when the key is new, and otherwise changes nothing |
| KFTreeMap.KFTreeMap.GrowBranch | KFDataStructures/Swift/KFTreeMap.swift:28-36 | `growBranch` adds the leaf and its key exactly when the key is new and the branch is found, and otherwise changes nothing |
| KFTreeMap.KFTreeMap.PathToRoot | KFDataStructures/Swift/KFTreeMap.swift:38-55 | `pathToRoot` is nil exactly when the key is absent, and otherwise a new path from the key up the `parent` links |
| KFTreeMap.KFTreeMap.RemoveKey | KFDataStructures/Swift/KFTreeMap.swift:57-77 | `removeKey` removes the node and its key exactly when the key is present and its node is a leaf, and otherwise changes nothing |
| KFTreeMap.KFTreeMap.Leaves | KFDataStructures/Swift/KFTreeMap.swift:79-85 | `leaves()` lists the leaves of each tree in tree order |
| KFTreeMap.KFTreeMap.FindNode | KFDataStructures/Swift/KFTreeMap.swift:87-95 | `findNode` returns the first tree holding the key and the path in it |
| KFTreeMap.KFTreeMap.Count | KFDataStructures/Swift/KFTreeMap.swift:97-99 | `count` is the number of keys, which is the number of nodes |
| KFTreeMap.KFTreeMap.Contains | KFDataStructures/Swift/KFTreeMap.swift:101-103 | `contains` tests `keys`, which agrees with a search of the trees |
| KFTreePath.StepNext | KFDataStructures/Swift/KFTreeMap.swift:269-276 | `stepNext` moves one position in the given direction, and is nil exactly at the end of the chain |
| KFTreePath.StepFrom | KFDataStructures/Swift/KFTreeMap.swift:255-267 | `step` returns the first position from here on in that direction whose key satisfies `end`, or nil when none does |
| KFTreePath.DestinationFrom | KFDataStructures/Swift/KFTreeMap.swift:299-304 | `destination` is the last node of the chain |
| KFTreePath.OriginFrom | KFDataStructures/Swift/KFTreeMap.swift:306-311 | `origin` is the first node of the chain |
| KFTreePath.KFTreePath.constructor | KFDataStructures/Swift/KFTreeMap.swift:201-205 | a one-node path |
| KFTreePath.KFTreePath.Extend | KFDataStructures/Swift/KFTreeMap.swift:207-218 | `extend` adds a node after the destination or before the origin, and this node keeps its key |
| KFTreePath.KFTreePath.Calculate | KFDataStructures/Swift/KFTreeMap.swift:220-230 | `calculate` has one result per adjacent pair from this node on, in order |
| KFTreePath.KFTreePath.StepsToDestination | KFDataStructures/Swift/KFTreeMap.swift:279-287 | the number of nodes after this one |
| KFTreePath.KFTreePath.StepsToOrigin | KFDataStructures/Swift/KFTreeMap.swift:289-297 | the number of nodes before this one |
| KFTreePath.KFTreePath.EndIndex | KFDataStructures/Swift/KFTreeMap.swift:339-347 | this node and every node after it |
| KFTreePath.KFTreePath.Subscript | KFDataStructures/Swift/KFTreeMap.swift:349-357 | as written, indices 0 and 1 give this node's key and index `i` above 1 gives the key `i - 1` steps on |
| KFTreePath.KFTreePath.SubscriptFixed | KFDataStructures/Swift/KFTreeMap.swift:349-357 | counting from `startIndex` 0, index `i` gives the key `i` steps on |
| KFTreePath.KFTreePath.GenerateAsWritten | KFDataStructures/Swift/KFTreeMap.swift:319-328 | iteration as written yields every key after this node, but not this node's own |
| KFTreePath.KFTreePath.GenerateFixed | KFDataStructures/Swift/KFTreeMap.swift:319-328 | the repaired generator yields every key from this node on |
| KFTreePath.KFTreePath.SliceAsWritten | KFDataStructures/Swift/KFTreeMap.swift:232-253 | `slice` is nil exactly when `step` is; otherwise a new path from this node to the one `step` found, except that when that is this node the slice runs to the end of the chain |
| KFTreePath.KFTreePath.SliceFixed | KFDataStructures/Swift/KFTreeMap.swift:232-253 | the repaired `slice`: from this node to the one `step` found, a one-node path when that is this node |
| KFTreePath.WalkForward | KFDataStructures/Swift/KFTreeMap.swift:237-247 | the forward loop of `slice`: extends with each key passed up to the destination, or to the end when the destination is the start |
| KFTreePath.WalkBackward | KFDataStructures/Swift/KFTreeMap.swift:237-247 | the backward loop of `slice`: the same going towards the origin, prepending |
| KFTreePath.SubscriptFinding | KFDataStructures/Swift/KFTreeMap.swift:349-357 | on the path 1 → 2, subscripts 0 and 1 both give 1, while counting from 0 subscript 1 gives 2 |
| KFTreePath.GenerateFinding | KFDataStructures/Swift/KFTreeMap.swift:319-328 | on the path 1 → 2, iteration as written yields only 2; the repaired generator yields 1 and 2 |
| KFTreePath.SliceFinding | KFDataStructures/Swift/KFTreeMap.swift:232-253 | on the path 1 → 2, slicing forward to the first key equal to 1 gives 1 → 2 as written and 1 when repaired |

## Left out

- QueueType.swift only declares protocols; their members are modelled in the classes that implement them.
- `description` and `debugDescription`, `hashValue`, and the `Sequence`/`Collection`/generator plumbing are left out. The exception is what a generator yields: it is modelled as the sequence of keys it produces, or as repeated `pop` (`Next` and `Drain`).
- A callback is modelled as the sequence of values it receives, and a comparator as a function parameter required to be a strict weak order. Closure capture and side effects of callbacks are not modelled.
- Node identity: linked nodes are ids in an arena (binary search tree, linked queue) or values put back into their tree (`RootedTree`, `Lineage`, `KFTreeMap`). A node that a caller keeps after it has been detached is not modelled, and neither is ARC or `weak` deallocation.
- `weak` parent links are a flag (`linked`) in the tree models and an optional id in the binary search tree.
- `NSMutableSet` and Swift `Set`s are mathematical sets. A `Lineage` child set is a sequence without two `==` children, in insertion order. Swift set iteration order is not modelled, so `leaves` lists children in the order they were added. Accordingly `node(element:)` (Lineage.swift:92-101), for an element found in two child subtrees, finds the one in the child added first; in the source which of the two is found depends on `Set` iteration order.
- `KFTreeMap` keys are compared by object identity (`===`), modelled as `==` on the key type.
- `KFQueue` keys are compared by object identity too (`===`, KFQueue.swift:82, 87), modelled as `==`; `KFDynamicQueue.keys` is an `NSMutableSet` (KFQueue.swift:117, 158), modelled as a set of keys, so `isEqual:`-based membership of distinct but equal objects is not modelled.
- `Heap`, `Queue` and `UniqueQueue` are Swift structs (line 11 of each file), modelled as classes whose `mutating` methods modify the object. Copy-on-assignment value semantics (two variables holding independent copies) is not modelled.
- `KFTreePath` is modelled as the whole chain of keys plus the position of the node at hand, since every chain is built by linking at its ends. Two path objects that share nodes, and links changed from outside, are not modelled.
- `KFTreePath.startIndex` is the constant 0; it is the base that `KFTreePath.KFTreePath.SubscriptFixed` counts from, and is not a member of its own.
- Binary search tree values are integers with `<`; any other `Comparable` type is not modelled.
- `KFHeap.KFHeap.Pop`: with one element, `swap` of index 0 with itself is modelled as leaving the array unchanged. Swift's exclusivity check on swapping a location with itself is not modelled.
- `KFTreePath.KFTreePath.Subscript`: only indices up to `endIndex` are modelled. Beyond that the source force-unwraps nil and traps.
- `KFQueue.KFQueue.IterateAsWritten`: on an empty queue the source traps: `generate()` passes the nil `head` to `init(head:)`, whose parameter is a non-optional node (KFQueue.swift:97-98, 105). After the last key it traps again, on `nextItem!` (KFQueue.swift:110). The model does not trap; in both places the generator just yields nothing more.
- `BinarySearchTree.BinarySearchTree.Remove`, `BinarySearchTree.BinarySearchTree.FindReplacement`, `BinarySearchTree.BinarySearchTree.NodeRemove`: each requires every node's `parent` link to point at the node holding it. A call on a tree whose links an earlier two-child removal left stale is not modelled. The as-written `findReplacement` links the removed node's left child under the successor without resetting that child's `parent` (BinarySearchTree.swift:218-219). In the tree 5 (3, 8), removing 5 leaves 3 under 8 with `parent` still the detached 5. Removing 3 next then checks `isLeftChild` against that stale parent and writes into the detached node (lines 188-194), so 3 stays in the tree. The model proves the stale link arises (`FindReplacement` ensures which links it leaves) but stops there.
- `KFQueue.KFDynamicQueue.Enqueue`, `KFQueue.KFDynamicQueue.Invalidate`: each requires `Valid()`, that is `tail` is the last node of the chain. A call after invalidating the last of two or more keys is not modelled. That invalidation moves the tail node to the front and dequeues it, but leaves `tail` pointing at the removed node (KFQueue.swift:138-154). A later `enqueue` links the new node off the removed one (line 37), so the key is missing from the chain while `keys` holds it, and every later `enqueue` of that key is ignored. The model proves that invalidating any other key keeps `Valid()`. For the last key it proves that `tail` is left pointing at a node outside the chain (`Invalidate`'s last ensures), and it models no call after that.

- Integer widths: counts and indices are unbounded, and Swift's overflow traps are not modelled.
- Complexity notes are not behaviour and are left out.

## Findings

| source | as written | input that shows it | evidently intended | confidence | as-written member | corrected member |
|---|---|---|---|---|---|---|
| KFDataStructures/Swift/BinarySearchTree.swift:80-83 | `remove(value:)` moves `root` only when there is a replacement, so removing the value of a childless root leaves it in place | a one-node tree holding 5, remove 5 | the tree becomes empty | high (not executed) | BinarySearchTree.RootLeafKept | BinarySearchTree.RootLeafRemoved |
| KFDataStructures/Swift/BinarySearchTree.swift:219 | the successor adopts the left child without setting `left.parent` (the line is commented out), so that link still names the removed node | remove a node with two children, e.g. 5 from 5 (3, 8) | every adopted child names the successor as parent | high (not executed) | BinarySearchTree.LinksLeftStale | BinarySearchTree.BinarySearchTree.RemoveFixed |
| KFDataStructures/Swift/BinarySearchTree.swift:224-229 | when the successor is the right child itself, `successor.right = nil` drops the successor's own right subtree | remove 5 from 5 (3, 8 (-, 9)): the result is 8 (3, -) and 9 is lost | the successor keeps its right subtree | high (not executed) | BinarySearchTree.FourNodesAsWritten | BinarySearchTree.FourNodesFixed |
| KFDataStructures/Swift/UniqueQueue.swift:71-73 | the array-literal initialiser filters with a test that is always true, so it keeps repeated elements | the literal `[a, a]` | each element kept once | high (not executed) | UniqueQueue.ArrayLiteralKeepsDuplicates | UniqueQueue.UniqueQueue.FromArrayLiteralFixed |
| KFDataStructures/Swift/KFQueue.swift:105-112 | the generator moves to `nextItem` before it yields, so the head's key is never produced | a queue holding 1, 2 yields only 2 | every queued key, front first | high (not executed) | KFQueue.KFQueue.IterateAsWritten | KFQueue.KFQueue.IterateFixed |
| KFDataStructures/Swift/KFQueue.swift:138-155 | `invalidate` relinks around the node but never moves `tail`, so invalidating the last of two or more keys leaves `tail` on the removed node | queue 1, 2, invalidate 2 | `tail` moves to the predecessor | high (not executed) | KFQueue.KFDynamicQueue.Invalidate | KFQueue.KFDynamicQueue.InvalidateFixed |
| KFDataStructures/Swift/KFTreeMap.swift:173-179 | `count` starts at 0 and only adds the children's counts, so every node counts 0 | a root with one child | the number of nodes, 2 | high (not executed) | KFTreeMap.CountFinding | KFTreeMap.CountFixed |
| KFDataStructures/Swift/KFTreeMap.swift:349-357 | the subscript starts counting at 1, so indices 0 and 1 give the same key although `startIndex` is 0 | the path 1 → 2, index 1 | index `i` gives the key `i` steps on | high (not executed) | KFTreePath.SubscriptFinding | KFTreePath.KFTreePath.SubscriptFixed |
| KFDataStructures/Swift/KFTreeMap.swift:319-328 | the generator moves to `next` before it yields, so the first key is skipped | the path 1 → 2 yields only 2 | every key from the node on | high (not executed) | KFTreePath.GenerateFinding | KFTreePath.KFTreePath.GenerateFixed |
| KFDataStructures/Swift/KFTreeMap.swift:237-247 | when `step` finds the node itself, the loop starts at the next node and never meets it, so the slice runs to the end of the chain | the path 1 → 2, slice forward to the key 1 gives 1 → 2 | the one-node path 1 | medium (not executed) | KFTreePath.SliceFinding | KFTreePath.KFTreePath.SliceFixed |
