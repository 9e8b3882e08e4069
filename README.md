# ALEDLib containers in Dafny

ALEDLib is a header-only C++ library of textbook containers: a linked stack
and queue, sorted singly and doubly linked lists, a hash table of buckets, two
sparse matrices, an adjacency-map graph, array, binomial and Fibonacci heaps,
and simple, AVL and red-black search trees. This project models the
containers' operations in Dafny and proves what each one promises.

The element type of every template is fixed to `int`. A container whose
nodes are linked by pointers becomes a `class` whose fields the methods
update. A ghost `spine` lists the nodes in order, and `Contents()` is the
sequence, set or map of the stored values. Each method is proved against
that abstraction. A binary tree is a value datatype held in a class field,
and a slot of type `Node**` is the path that leads to it. An array heap
keeps its `std::vector` as a sequence field that its methods reassign.
The binomial and Fibonacci heaps keep their `std::list` of roots as a
sequence of value trees, and a list iterator is a position in it. In the AVL
and red-black trees a node is named by its path from the root, and its
`parent` field is modelled by a `linked` flag, which holds when that field
names the node's actual parent.

Modules and the files they model:

| module | file | models |
|---|---|---|
| `Common`, `Sorted` | `common.dfy` | exceptions as `Result`, `size_t` arithmetic, and sorted insertion and deletion on sequences |
| `Stacks` | `stack.dfy` | `include/Stack.hpp` |
| `Queues` | `queue.dfy` | `inc/queue/queue.hpp` |
| `SimpleLists` | `simple_list.dfy` | `include/SimpleList.hpp` |
| `DoubleLists` | `double_list.dfy` | `inc/lists/double_list.hpp` |
| `HashTables` | `hash_table.dfy` | `include/HashTable.hpp` |
| `FastMatrices` | `fast_matrix.dfy` | `FastMatrix` in `inc/sparse_matrix/sparse_matrix.h` |
| `OrthogonalMatrices` | `orthogonal_matrix.dfy` | `Matrix` in `inc/sparse_matrix/sparse_matrix.h` |
| `SimpleBinaryTrees` | `sbt.dfy` | `include/SimpleBinaryTree.hpp` |
| `BinaryHeaps` | `binary_heap.dfy` | the array-heap algorithms shared by both array heaps: index arithmetic, sift-down, bubble-up, Floyd's construction and heapsort, on sequences |
| `ArrayHeaps` | `array_heap.dfy` | `include/ArrayHeap.hpp` |
| `MinArrayHeaps` | `min_array_heap.dfy` | `inc/heaps/min_array_heap.h` |
| `Graphs` | `graph.dfy` | `inc/graph/graph.h` |
| `Forests` | `forest.dfy` | the heap-ordered trees of the binomial and Fibonacci heaps: nodes, `basic_merge`, `chain_merge` and `merge`, written out in `include/BinomialHeap.hpp` and repeated in the other three heaps |
| `RootLists` | `root_lists.dfy` | `update_top`, the re-rooting loop of `remove_top`, and `find` with `find_internal` |
| `TreePaths` | `tree_paths.dfy` | positions inside a tree as paths: writing a value, `bubble_key`, and the cut cascade of `decreaseKey` and `increaseKey` |
| `FiboTrees` | `fibo_trees.dfy` | `removeTop` and `remove` as both Fibonacci heaps write them |
| `BinomialHeaps` | `binomial_heap.dfy` | `include/BinomialHeap.hpp` |
| `MaxBinomHeaps` | `max_binom_heap.dfy` | `include/MaxBinomHeap.hpp` |
| `MinFiboHeaps` | `min_fibo_heap.dfy` | `include/MinFiboHeap.hpp` |
| `MaxFiboHeaps` | `max_fibo_heap.dfy` | `include/MaxFiboHeap.hpp` |
| `AvlTrees` | `avl.dfy` | `include/AVLTree.hpp` |
| `RedBlackTrees` | `rb.dfy` | `include/RedBlackTree.hpp` |

## Model

| member | source | states |
|---|---|---|
| Common.SizeDec | include/BinomialHeap.hpp:117 | decrementing a `size_t` wraps 0 to 2^64 - 1 and lowers any other value by one |
| Sorted.Before | include/SimpleList.hpp:77-87 | the scan for `x` stops within the list |
| Sorted.BeforeBounds | include/SimpleList.hpp:77-87 | every element the scan passes is smaller than `x`, and the element it stops on is not |
| Sorted.BeforeFinds | include/SimpleList.hpp:80-82 | in an ascending list, `x` is present exactly when the scan stops on an element equal to `x` |
| Sorted.BeforeUnique | include/SimpleList.hpp:77-87 | the stopping place is the only position with smaller elements before it and none smaller at it |
| Sorted.InsertAt | include/SimpleList.hpp:36-47 | sorted insertion puts `x` where the scan stops, or changes nothing when it stops on `x` |
| Sorted.DeleteAt | include/SimpleList.hpp:49-60 | sorted deletion drops the element the scan stops on when it equals `x`, and otherwise changes nothing |
| Sorted.InsertMembers | include/SimpleList.hpp:36-47 | insertion adds exactly `x` to the members, and grows the list by one when `x` was absent |
| Sorted.InsertAscending | include/SimpleList.hpp:36-47 | insertion keeps the list strictly ascending |
| Sorted.InsertSpec | include/SimpleList.hpp:36-47 | insertion keeps the list ascending, adds exactly `x`, leaves the list alone when `x` is present, and grows it by one otherwise |
| Sorted.DeleteMembers | include/SimpleList.hpp:49-60 | deletion removes exactly `x` from the members of an ascending list |
| Sorted.DeleteAscending | include/SimpleList.hpp:49-60 | deletion keeps the list strictly ascending |
| Sorted.DeleteSize | include/SimpleList.hpp:49-60 | deletion shrinks the list by one when `x` is present and changes nothing otherwise |
| Sorted.DeleteSpec | include/SimpleList.hpp:49-60 | deletion keeps the list ascending, removes exactly `x`, and shrinks the list by one exactly when `x` was present |
| Sorted.InsertPresent | include/SimpleList.hpp:39-46 | inserting a present value leaves the list unchanged |
| Sorted.InsertAbsent | include/SimpleList.hpp:39-44 | inserting an absent value splices it in where the scan stops, keeping the list ascending |
| Sorted.DeleteAbsent | include/SimpleList.hpp:52-59 | deleting an absent value leaves the list unchanged |
| Sorted.DeletePresent | include/SimpleList.hpp:52-58 | deleting a present value cuts out the element where the scan stops, keeping the list ascending |
| Stacks.Node.constructor | include/Stack.hpp:16-17 | a new node holds its value and has no `prev` node |
| Stacks.Stack.constructor | include/Stack.hpp:23 | a new stack is empty |
| Stacks.Stack.IsEmpty | include/Stack.hpp:52 | true exactly when the stack holds no value |
| Stacks.Stack.Push | include/Stack.hpp:26-35 | the value goes on top of the previous contents |
| Stacks.Stack.Pop | include/Stack.hpp:37-45 | the top value is dropped; an empty stack stays empty |
| Stacks.Stack.Top | include/Stack.hpp:47-50 | the most recently pushed value, or a runtime_error on an empty stack |
| Stacks.Drain | test/StackTest.cpp:15-18 | reading and popping until empty yields the contents, newest first, and leaves the stack empty |
| Stacks.PushThenDrain | test/StackTest.cpp:9-18 | pushing 5, 7, 9, 2, 1 and draining yields 1, 2, 9, 7, 5 |
| Queues.Node.constructor | inc/queue/queue.hpp:16-17 | a new node holds its value and has no `next` node |
| Queues.Queue.constructor | inc/queue/queue.hpp:24 | a new queue is empty |
| Queues.Queue.IsEmpty | inc/queue/queue.hpp:51 | true exactly when the queue holds no value |
| Queues.Queue.Push | inc/queue/queue.hpp:26-36 | the value goes after the previous contents |
| Queues.Queue.Pop | inc/queue/queue.hpp:38-44 | the oldest value is dropped; an empty queue stays empty |
| Queues.Queue.Top | inc/queue/queue.hpp:46-49 | the oldest value, or a runtime_error on an empty queue |
| Queues.Drain | inc/queue/queue.hpp:38-51 | reading and popping until empty yields the contents in push order and leaves the queue empty |
| Queues.PushDrainPush | inc/queue/queue.hpp:29-43 | after the queue is emptied, a push starts a new chain, although the tail still named the deleted node |
| SimpleLists.Node.constructor | include/SimpleList.hpp:17-18 | a new node holds its value and has no `next` node |
| SimpleLists.SimpleList.constructor | include/SimpleList.hpp:25 | a new list is empty |
| SimpleLists.SimpleList.Find | include/SimpleList.hpp:77-87 | the scan stops at the first value not smaller than `x`, reports whether it equals `x`, and returns the link before it |
| SimpleLists.SimpleList.NodesDistinct | include/SimpleList.hpp:13-22 | no node occurs twice in the list |
| SimpleLists.SimpleList.Add | include/SimpleList.hpp:36-47 | true exactly when `x` was absent; the contents become the sorted insertion of `x` |
| SimpleLists.SimpleList.LinkAt | include/SimpleList.hpp:40-42 | a new node holding `x` is spliced in at the scan's stopping place |
| SimpleLists.SimpleList.Rmv | include/SimpleList.hpp:49-60 | true exactly when `x` was present; the contents become the sorted deletion of `x` |
| SimpleLists.SimpleList.UnlinkAt | include/SimpleList.hpp:53-54 | the node at the scan's stopping place is bypassed |
| SimpleLists.SimpleList.Begin | include/SimpleList.hpp:123-124 | the first node, or the end iterator for an empty list |
| SimpleLists.SimpleList.Last | include/SimpleList.hpp:126-132 | undefined exactly on an empty list, where `tmp->next` dereferences null; otherwise the last node, holding the last value |
| SimpleLists.SimpleList.FindIterator | include/SimpleList.hpp:134-140 | a node holding `x` exactly when `x` is stored, the end iterator otherwise |
| SimpleLists.SimpleList.Traverse | include/SimpleList.hpp:107-124 | walking from begin to end reads the contents in ascending order |
| SimpleLists.ValuesInsert | include/SimpleList.hpp:40-42 | splicing a node into the node list splices its value into the values |
| SimpleLists.ValuesDelete | include/SimpleList.hpp:53-54 | cutting a node out of the node list cuts its value out of the values |
| SimpleLists.Next | include/SimpleList.hpp:107-111 | advancing the end iterator is a runtime_error; otherwise it moves to `next` |
| SimpleLists.Deref | include/SimpleList.hpp:116-119 | reading the end iterator is a runtime_error; otherwise it yields the node's value |
| SimpleLists.AddAll | test/SimpleListTest.cpp:12-17 | adding values in turn inserts each in sorted order |
| SimpleLists.RmvAll | test/SimpleListTest.cpp:21-23 | removing values in turn deletes each |
| SimpleLists.ScenarioAdds | test/SimpleListTest.cpp:12-17 | adding 3, 4, 2, 7, 1, 8 to an empty list gives 1, 2, 3, 4, 7, 8 |
| SimpleLists.AddSeven | test/SimpleListTest.cpp:15 | 7 goes after 2, 3, 4 |
| SimpleLists.AddOne | test/SimpleListTest.cpp:16 | 1 goes first |
| SimpleLists.AddEight | test/SimpleListTest.cpp:17 | 8 goes last |
| SimpleLists.ScenarioRemovals | test/SimpleListTest.cpp:21-23 | removing 3, 8, 2 from 1, 2, 3, 4, 7, 8 leaves 1, 4, 7 |
| SimpleLists.RemoveThree | test/SimpleListTest.cpp:21 | removing 3 from 1, 2, 3, 4, 7, 8 |
| SimpleLists.RemoveEight | test/SimpleListTest.cpp:22 | removing the last value 8 |
| SimpleLists.RemoveTwo | test/SimpleListTest.cpp:23 | removing 2 from 1, 2, 4, 7 |
| SimpleLists.AddRemoveScenario | test/SimpleListTest.cpp:10-31 | the whole test leaves 1, 4, 7 as the iterator walk's output |
| DoubleLists.Node.Between | inc/lists/double_list.hpp:46-48 | a new node holds its value between the given neighbours |
| DoubleLists.DoubleList.constructor | inc/lists/double_list.hpp:38 | a new list is empty |
| DoubleLists.DoubleList.Find | inc/lists/double_list.hpp:23-35 | the scan stops at the first value not smaller than `x`, reports whether it equals `x`, and returns the node before it |
| DoubleLists.DoubleList.NodesDistinct | inc/lists/double_list.hpp:12-21 | no node occurs twice in the list |
| DoubleLists.DoubleList.NeighboursUnshared | inc/lists/double_list.hpp:12-21 | the nodes around a position occur once each |
| DoubleLists.DoubleList.Add | inc/lists/double_list.hpp:40-54 | true exactly when `x` was absent; the contents become the sorted insertion of `x`; a null `prev` at the first node stays null |
| DoubleLists.DoubleList.LinkAt | inc/lists/double_list.hpp:46-50 | a new node is spliced in, with both neighbours' links updated |
| DoubleLists.DoubleList.Rmv | inc/lists/double_list.hpp:56-70 | true exactly when `x` was present; the contents become the sorted deletion of `x`; removing the first node leaves the new first node's `prev` at the deleted node |
| DoubleLists.DoubleList.UnlinkAt | inc/lists/double_list.hpp:62-64 | the node is bypassed; the successor's `prev` is reset only when there is a predecessor |
| DoubleLists.DoubleList.Begin | inc/lists/double_list.hpp:123-124 | the first node, or the end iterator for an empty list |
| DoubleLists.DoubleList.Last | inc/lists/double_list.hpp:126-130 | undefined exactly on an empty list, where `tmp->next` dereferences null; otherwise the last node, holding the last value |
| DoubleLists.DoubleList.FindIterator | inc/lists/double_list.hpp:132-140 | a node holding `x` exactly when `x` is stored, the end iterator otherwise |
| DoubleLists.DoubleList.Traverse | inc/lists/double_list.hpp:107-124 | walking forwards from begin reads the contents |
| DoubleLists.DoubleList.TraverseBackward | inc/lists/double_list.hpp:101-130 | walking backwards from last reads the contents in reverse, when the first node's `prev` is null |
| DoubleLists.ValuesInsert | inc/lists/double_list.hpp:46-50 | splicing a node into the node list splices its value into the values |
| DoubleLists.ValuesDelete | inc/lists/double_list.hpp:62-64 | cutting a node out of the node list cuts its value out of the values |
| DoubleLists.Next | inc/lists/double_list.hpp:107-111 | advancing the end iterator is a runtime_error; otherwise it moves to `next` |
| DoubleLists.Prev | inc/lists/double_list.hpp:101-105 | stepping back from the end iterator is a runtime_error; otherwise it moves to `prev` |
| DoubleLists.Deref | inc/lists/double_list.hpp:116-119 | reading the end iterator is a runtime_error; otherwise it yields the node's value |
| DoubleLists.AddAll | test/DoubleListTest.cpp:9-14 | adding values in turn inserts each in sorted order |
| DoubleLists.RmvAll | test/DoubleListTest.cpp:18-20 | removing values that leave the first node in place deletes each and keeps the first `prev` null |
| DoubleLists.ScenarioAdds | test/DoubleListTest.cpp:9-14 | adding 3, 5, 6, 4, 1, 2 gives 1 to 6 |
| DoubleLists.ScenarioRemovals | test/DoubleListTest.cpp:18-20 | removing 6, 2, 3 leaves 1, 4, 5 |
| DoubleLists.AddFour | test/DoubleListTest.cpp:12 | 4 goes between 3 and 5 |
| DoubleLists.AddOne | test/DoubleListTest.cpp:13 | 1 goes first |
| DoubleLists.AddTwo | test/DoubleListTest.cpp:14 | 2 goes after 1 |
| DoubleLists.RemoveSix | test/DoubleListTest.cpp:18 | removing the last value 6 |
| DoubleLists.RemoveTwo | test/DoubleListTest.cpp:19 | removing 2 |
| DoubleLists.RemoveThree | test/DoubleListTest.cpp:20 | removing 3 |
| DoubleLists.AddRemoveScenario | test/DoubleListTest.cpp:8-33 | the whole test walks 1, 4, 5 forwards and 5, 4, 1 backwards |
| HashTables.Hash.Slot | include/HashTable.hpp:56 | the bucket of a value is below the table size |
| HashTables.Hash.constructor | include/HashTable.hpp:29-49 | `Size` empty buckets and the given hash function, if any |
| HashTables.Hash.Add | include/HashTable.hpp:53-58 | a runtime_error without a hash function; otherwise true exactly when the value was absent, and the value is stored in its bucket |
| HashTables.Hash.Remove | include/HashTable.hpp:60-71 | a runtime_error without a hash function; otherwise true exactly when the value was present, and it is gone from its bucket |
| HashTables.Hash.Find | include/HashTable.hpp:85-95 | the stored equal value, or a runtime_error when there is none or no hash function |
| HashTables.Hash.Update | include/HashTable.hpp:98-107 | true exactly when `oldest` was stored and `newest` was not (or equals it), and then `oldest` is replaced by `newest`; otherwise nothing changes |
| HashTables.Hash.GetSize | include/HashTable.hpp:122 | the number of buckets |
| HashTables.ShiftHash | test/HashTableTest.cpp:5 | `(a << 2) >> 1` on 32-bit `int` is `2 * a` for small non-negative `a` and a valid `size_t` otherwise |
| HashTables.AddAll | test/HashTableTest.cpp:9-13 | adding values in turn stores all of them |
| HashTables.FiveValues | test/HashTableTest.cpp:9-13 | the five values of the test |
| HashTables.Remaining | test/HashTableTest.cpp:19-23 | the values left after the removal and the update |
| HashTables.UpdateScenario | test/HashTableTest.cpp:7-24 | with any hash function, removing 123 and updating 1246 to 1249 both succeed and leave 2312, 231664, 784, 1249 |
| FastMatrices.AddCell | inc/sparse_matrix/sparse_matrix.h:196-215 | add stores the value only inside the bounds and at an empty cell, and keeps every other cell |
| FastMatrices.RemoveCell | inc/sparse_matrix/sparse_matrix.h:260-274 | remove erases only a stored cell inside the bounds, keeps every other cell, and keeps empty row maps |
| FastMatrices.Flatten | inc/sparse_matrix/sparse_matrix.h:333 | three tokens per written cell |
| FastMatrices.FlattenAppend | inc/sparse_matrix/sparse_matrix.h:330-334 | the tokens of consecutive runs of cells are concatenated |
| FastMatrices.Chunks | inc/sparse_matrix/sparse_matrix.h:373-374 | reading groups three tokens per cell |
| FastMatrices.ChunksFlatten | inc/sparse_matrix/sparse_matrix.h:330-376 | the token text of a cell list reads back as the same cells |
| FastMatrices.TriplesPrefix | inc/sparse_matrix/sparse_matrix.h:373-376 | the cells read from a prefix of whole triples are the prefix of the cells read |
| FastMatrices.MatrixTextTriples | inc/sparse_matrix/sparse_matrix.h:329-334 | the text of the matrix is the flattening of its cells in row-major order |
| FastMatrices.RowTextTriples | inc/sparse_matrix/sparse_matrix.h:331-333 | the text of a row is the flattening of its cells in column order |
| FastMatrices.HoldsStep | inc/sparse_matrix/sparse_matrix.h:373-375 | re-adding the next stored cell extends the row-major prefix that has been rebuilt |
| FastMatrices.HoldsRow | inc/sparse_matrix/sparse_matrix.h:330-334 | a prefix covering a whole row covers the rows before the next |
| FastMatrices.AddColumn | inc/sparse_matrix/sparse_matrix.h:373-375 | adding a row's cells column by column rebuilds that row's prefix |
| FastMatrices.AddRowPrefix | inc/sparse_matrix/sparse_matrix.h:373-375 | adding the written cells up to (i, j) rebuilds exactly the cells before (i, j) |
| FastMatrices.AddAllTriples | inc/sparse_matrix/sparse_matrix.h:373-375 | adding every written cell to an empty matrix rebuilds every stored cell inside the bounds |
| FastMatrices.AddAgain | inc/sparse_matrix/sparse_matrix.h:373-375 | adding the last cell a second time changes nothing |
| FastMatrices.ReadWrite | inc/sparse_matrix/sparse_matrix.h:300-378 | reading what write produced, into an empty matrix, gives back the sizes and exactly the stored cells inside the bounds, when at least one cell was written |
| FastMatrices.ReadEmptyAddsLeftover | inc/sparse_matrix/sparse_matrix.h:371-376 | reading a text with no cell still adds the never-assigned values once |
| FastMatrices.WriteText | inc/sparse_matrix/sparse_matrix.h:329-334 | the loops of write emit the sizes, then every stored cell row by row |
| FastMatrices.WriteRow | inc/sparse_matrix/sparse_matrix.h:331-333 | the inner loop of write emits a row's stored cells in column order |
| FastMatrices.FastMatrix.constructor | inc/sparse_matrix/sparse_matrix.h:194 | the sizes, the default and no stored cell |
| FastMatrices.FastMatrix.Add | inc/sparse_matrix/sparse_matrix.h:196-219 | the cells become AddCell of the old cells |
| FastMatrices.FastMatrix.Find | inc/sparse_matrix/sparse_matrix.h:221-236 | true exactly when the position is inside the bounds and stored |
| FastMatrices.FastMatrix.Get | inc/sparse_matrix/sparse_matrix.h:238-258 | out_of_range outside the bounds, runtime_error at an empty cell, the stored value otherwise |
| FastMatrices.FastMatrix.AssignAt | inc/sparse_matrix/sparse_matrix.h:238-258 | assigning through get's reference fails like get, and otherwise changes only that cell |
| FastMatrices.FastMatrix.Remove | inc/sparse_matrix/sparse_matrix.h:260-278 | the cells become RemoveCell of the old cells |
| FastMatrices.FastMatrix.GetDefault | inc/sparse_matrix/sparse_matrix.h:380 | the template default |
| FastMatrices.FastMatrix.Write | inc/sparse_matrix/sparse_matrix.h:326-335 | the text form of the matrix |
| FastMatrices.FastMatrix.Read | inc/sparse_matrix/sparse_matrix.h:366-377 | the sizes come from the text; each triple is added to the cells already there, and the last one once more |
| OrthogonalMatrices.SetNext | inc/sparse_matrix/sparse_matrix.h:28-40 | replacing one link of a node keeps its other link, value and position |
| OrthogonalMatrices.LinkAt | inc/sparse_matrix/sparse_matrix.h:151 | in a well-linked list, each node's link leads to the rest of the list |
| OrthogonalMatrices.KeepLines | inc/sparse_matrix/sparse_matrix.h:69-72 | changing only the other axis's links keeps every list of an axis well linked |
| OrthogonalMatrices.InsertLine | inc/sparse_matrix/sparse_matrix.h:69-72 | linking a new node in at a list's stopping place keeps all lists of that axis well linked and ordered |
| OrthogonalMatrices.InsertedLine | inc/sparse_matrix/sparse_matrix.h:69-72 | the list with the new node spliced in is well linked and ordered |
| OrthogonalMatrices.InsertedLinks | inc/sparse_matrix/sparse_matrix.h:70-72 | after the splice, each node links to its successor in the new list |
| OrthogonalMatrices.Distinct | inc/sparse_matrix/sparse_matrix.h:28-40 | a node occurs once in an ordered list |
| OrthogonalMatrices.RemoveLine | inc/sparse_matrix/sparse_matrix.h:88-90 | storing a node's link in its slot keeps all lists of that axis well linked and ordered, with the node cut out |
| OrthogonalMatrices.RemovedLine | inc/sparse_matrix/sparse_matrix.h:88-90 | the list with the node cut out is well linked and ordered |
| OrthogonalMatrices.RemovedLinks | inc/sparse_matrix/sparse_matrix.h:88-90 | after the cut, each node links to its successor in the new list |
| OrthogonalMatrices.Walk | inc/sparse_matrix/sparse_matrix.h:144-168 | a walk passes only smaller keys, stops on the slot of the first key that is not smaller, and reports whether that key is equal |
| OrthogonalMatrices.WalkLocates | inc/sparse_matrix/sparse_matrix.h:144-168 | a walk finds its key exactly when the position is stored, and then stops on that position's node |
| OrthogonalMatrices.LinesBounded | inc/sparse_matrix/sparse_matrix.h:45-46 | every listed node is in the arena |
| OrthogonalMatrices.AddNode | inc/sparse_matrix/sparse_matrix.h:62-75 | true exactly when the position was empty, and then the value is stored there; the lists stay well linked, ordered and in step with the cells |
| OrthogonalMatrices.RemoveNode | inc/sparse_matrix/sparse_matrix.h:81-94 | true exactly when the position was stored; the position is erased and the lists stay well linked, ordered and in step |
| OrthogonalMatrices.Matrix.constructor | inc/sparse_matrix/sparse_matrix.h:49-58 | a matrix of the given sizes with every list empty |
| OrthogonalMatrices.Matrix.FindByRow | inc/sparse_matrix/sparse_matrix.h:144-155 | walking a row finds the column exactly when the cell is stored |
| OrthogonalMatrices.Matrix.FindByCol | inc/sparse_matrix/sparse_matrix.h:157-168 | walking the column's own list finds the row exactly when the cell is stored |
| OrthogonalMatrices.Matrix.Add | inc/sparse_matrix/sparse_matrix.h:62-79 | true exactly when the position was empty, and then only that cell gains the value; otherwise nothing changes |
| OrthogonalMatrices.Matrix.Remove | inc/sparse_matrix/sparse_matrix.h:81-98 | true exactly when the position was stored, and the position is erased |
| OrthogonalMatrices.Matrix.Find | inc/sparse_matrix/sparse_matrix.h:100-107 | true exactly when the position is stored |
| OrthogonalMatrices.Matrix.Get | inc/sparse_matrix/sparse_matrix.h:109-122 | the stored value, or a runtime_error at an empty position |
| OrthogonalMatrices.EmptyGrid | inc/sparse_matrix/sparse_matrix.h:49-58 | empty head tables of the given sizes |
| OrthogonalMatrices.ScanAsWritten | inc/sparse_matrix/sparse_matrix.h:157-168 | the scan reports true exactly when it stops on a node with the key it looks for |
| OrthogonalMatrices.FindByColAsWritten | inc/sparse_matrix/sparse_matrix.h:157-168 | the source's column walk, which starts from `m_rows[col]` |
| OrthogonalMatrices.FindAsWritten | inc/sparse_matrix/sparse_matrix.h:100-103 | the source's find reports what that walk finds |
| OrthogonalMatrices.AddAsWritten | inc/sparse_matrix/sparse_matrix.h:62-75 | the source's add links the new node through two slots of the row heads and never touches the column heads |
| OrthogonalMatrices.FindByColAsWrittenMisses | inc/sparse_matrix/sparse_matrix.h:157-158 | after adding (0,0), (0,1), (1,0) to a 2 by 2 matrix, the source's find misses (0,1) and reports (1,1) |
| OrthogonalMatrices.FindAfterAdds | inc/sparse_matrix/sparse_matrix.h:62-107 | with the column walk on `m_cols`, the same adds make find report (0,1) and not (1,1) |
| SimpleBinaryTrees.Son | include/SimpleBinaryTree.hpp:33 | a child is a proper part of its node |
| SimpleBinaryTrees.SetSon | include/SimpleBinaryTree.hpp:33 | storing into one child slot keeps the node's value and its other child |
| SimpleBinaryTrees.Height | include/SimpleBinaryTree.hpp:296-303 | the height of a tree is never below -1, the height of the empty tree |
| SimpleBinaryTrees.BstInsert | include/SimpleBinaryTree.hpp:55-62 | adding stores exactly `x` more, keeps the search-tree order, leaves a tree holding `x` unchanged and adds one node when `x` was absent |
| SimpleBinaryTrees.FatherRecursive | include/SimpleBinaryTree.hpp:224-249 | a father found does not hold `x` and its child on the search side does |
| SimpleBinaryTrees.SearchSide | include/SimpleBinaryTree.hpp:214 | below a node with another value, `x` can only be stored in the child the search moves to |
| SimpleBinaryTrees.InOrderElems | include/SimpleBinaryTree.hpp:273-279 | the in-order sequence lists exactly the stored values |
| SimpleBinaryTrees.BstAscending | include/SimpleBinaryTree.hpp:273-279 | a tree is a search tree exactly when its in-order sequence is strictly ascending |
| SimpleBinaryTrees.InsertInOrder | include/SimpleBinaryTree.hpp:55-62 | adding to a search tree inserts `x` into its in-order sequence as the sorted lists do |
| SimpleBinaryTrees.AtAppend | include/SimpleBinaryTree.hpp:214 | moving the slot one step follows that child |
| SimpleBinaryTrees.ReplaceAppend | include/SimpleBinaryTree.hpp:60 | storing through the longer slot rebuilds the node at the shorter one |
| SimpleBinaryTrees.BstAt | include/SimpleBinaryTree.hpp:210-217 | every subtree the search reaches is a search tree |
| SimpleBinaryTrees.HeightCount | include/SimpleBinaryTree.hpp:296-303 | a tree of height h has more than h and fewer than 2^(h+1) nodes |
| SimpleBinaryTrees.CountElems | include/SimpleBinaryTree.hpp:219-222 | the node count of a search tree is the number of stored values |
| SimpleBinaryTrees.FatherExists | include/SimpleBinaryTree.hpp:224-249 | a father is found exactly when `x` is stored below the root |
| SimpleBinaryTrees.PendingPush | include/SimpleBinaryTree.hpp:187-188 | pushing the right child and then the left puts the left child's values first |
| SimpleBinaryTrees.SBT.constructor | include/SimpleBinaryTree.hpp:40 | a new tree is empty |
| SimpleBinaryTrees.SBT.Clear | include/SimpleBinaryTree.hpp:53 | the tree becomes empty |
| SimpleBinaryTrees.SBT.Find | include/SimpleBinaryTree.hpp:210-217 | found exactly when `x` is stored, on the slot holding it; otherwise on the empty slot where a leaf holding `x` makes the search-tree insertion |
| SimpleBinaryTrees.SBT.Add | include/SimpleBinaryTree.hpp:55-62 | true exactly when `x` was absent; the tree becomes the search-tree insertion and stays a search tree |
| SimpleBinaryTrees.SBT.CountNodes | include/SimpleBinaryTree.hpp:115 | the number of nodes, which is the number of stored values |
| SimpleBinaryTrees.SBT.GetHeight | include/SimpleBinaryTree.hpp:193 | the height, bounded by the node count on both sides |
| SimpleBinaryTrees.SBT.FatherIterative | include/SimpleBinaryTree.hpp:251-263 | the loop finds the same node as `father_recursive` |
| SimpleBinaryTrees.SBT.GetFatherOf | include/SimpleBinaryTree.hpp:117-128 | the father when `x` is stored below the root, by either search, else a runtime_error |
| SimpleBinaryTrees.SBT.GetBrotherOf | include/SimpleBinaryTree.hpp:130-141 | the father's other child when there is one; every failure becomes a plain exception |
| SimpleBinaryTrees.SBT.GetUncleOf | include/SimpleBinaryTree.hpp:143-154 | the other child of the father's father when there is one; every failure becomes a plain exception |
| SimpleBinaryTrees.SBT.PrintIterative | include/SimpleBinaryTree.hpp:177-191 | the explicit stack writes the values in pre-order, as `print_pre` does |
| SimpleBinaryTrees.ScenarioFacts | test/simple_bin_tree_test/simple_bin_tree_test.cc:12-48 | the tree built from 6, 1, 5, 7, 8, 4, 3 has seven nodes, height 4, pre-order 6 1 5 4 3 7 8, 6 as the father of 7 and 1 as the father of 5 |
| SimpleBinaryTrees.Scenario | test/simple_bin_tree_test/simple_bin_tree_test.cc:12-48 | after adding 6, 1, 5, 7, 8, 4, 3: seven nodes, written iteratively as 6 1 5 4 3 7 8, father of 7 is 6, brother of 7 is 1, uncle of 5 is 7, height 4 |
| BinaryHeaps.Flip | include/ArrayHeap.hpp:244-248 | the flipped comparator ranks `a` above `b` exactly when the original ranks `b` above `a` |
| BinaryHeaps.Parent | include/ArrayHeap.hpp:212 | a slot other than the root has a smaller parent of which it is the left or right child; the root's parent wraps to (2^64 - 1) / 2 |
| BinaryHeaps.ParentOfChildren | include/ArrayHeap.hpp:210-212 | the parent of the left child and of the right child of `i` is `i` |
| BinaryHeaps.Swap | inc/heaps/min_array_heap.h:228 | exchanging two slots keeps every other slot and the multiset of values |
| BinaryHeaps.HeapRoot | inc/heaps/min_array_heap.h:210-230 | in the first `n` slots of a heap no value ranks above the root |
| BinaryHeaps.TopRanksFirst | inc/heaps/min_array_heap.h:67-72 | in a heap no value ranks above the root |
| BinaryHeaps.SiftDown | inc/heaps/min_array_heap.h:216-229 | sinking the value at `k` permutes the first `n` slots, leaves the slots before `k` and from `n` on alone, and yields the heap order below `lo` when only `k` was out of place |
| BinaryHeaps.BuildHeap | inc/heaps/min_array_heap.h:32-35 | sinking every slot from size/2 down to 0 yields a heap holding the same values |
| BinaryHeaps.PopTop | inc/heaps/min_array_heap.h:42-48 | moving the last value to the root, shrinking by one and sinking the root removes one copy of the root and keeps a heap a heap |
| BinaryHeaps.BubbleUp | include/ArrayHeap.hpp:258-263 | changing places with the parent while the value ranks above it yields a heap with the same values when only that value was out of place |
| BinaryHeaps.RemoveAt | include/ArrayHeap.hpp:52-57 | writing a value that ranks above the root over slot `i`, bubbling it up and removing the root removes exactly the value at `i` and leaves a heap |
| BinaryHeaps.ReplaceThenPop | inc/heaps/min_array_heap.h:50-55 | after a value ranking above the root is written over slot `ii`, the values permuted and the root removed, either exactly the old value at `ii` is gone, or it was replaced and the old root is gone; on a heap, with `ii` not the root and the value unmoved, the latter |
| BinaryHeaps.Push | inc/heaps/min_array_heap.h:37-40 | appending a value and bubbling it up adds exactly that value and keeps a heap a heap |
| BinaryHeaps.HeapSort | inc/heaps/min_array_heap.h:57-65 | the sort permutes the values, and from a heap it leaves no value ranked above an earlier one |
| BinaryHeaps.Reversed | include/ArrayHeap.hpp:84 | reversing puts slot `n - 1 - i` at slot `i` and keeps the values |
| ArrayHeaps.Modi | include/ArrayHeap.hpp:267-271 | `plus` for the max heap and `minus` for the min heap: a positive step makes a value rank above the one it started from |
| ArrayHeaps.Equivalent | include/ArrayHeap.hpp:32-36 | two values neither of which ranks above the other are equal |
| ArrayHeaps.ArrayHeap.constructor | include/ArrayHeap.hpp:39 | a new heap is empty |
| ArrayHeaps.ArrayHeap.FromVector | include/ArrayHeap.hpp:42-45 | the vector constructor keeps the vector exactly as given |
| ArrayHeaps.ArrayHeap.Size | include/ArrayHeap.hpp:75 | the number of stored values |
| ArrayHeaps.ArrayHeap.Empty | include/ArrayHeap.hpp:76 | true exactly when no value is stored |
| ArrayHeaps.ArrayHeap.Heapify | include/ArrayHeap.hpp:234-253 | size 0 changes nothing; a size beyond the vector is a logic_error; otherwise the first `size` slots are permuted into the order of the flipped comparator below `ii` |
| ArrayHeaps.ArrayHeap.Add | include/ArrayHeap.hpp:47-50 | the value is appended and nothing else moves |
| ArrayHeaps.ArrayHeap.RemoveTop | include/ArrayHeap.hpp:59-66 | a logic_error on an empty heap; otherwise the last value moves to the root slot and one copy of the old root is gone |
| ArrayHeaps.ArrayHeap.GetTop | include/ArrayHeap.hpp:68-73 | a logic_error on an empty heap, otherwise the root; when the vector is in the order `heapify` keeps, no value ranks above the root under the flipped comparator |
| ArrayHeaps.ArrayHeap.Find | include/ArrayHeap.hpp:223-232 | the first slot holding the value, or a runtime_error exactly when it is absent |
| ArrayHeaps.ArrayHeap.BubbleKey | include/ArrayHeap.hpp:255-264 | the values are permuted, the root is either unchanged or the bubbled value, a value ranking above its parent stays put, and under the flipped comparator the heap order is restored |
| ArrayHeaps.ArrayHeap.Remove | include/ArrayHeap.hpp:52-57 | a runtime_error exactly when the value is absent; otherwise one value fewer, and on a heap ordered by the comparator a value other than the top is replaced by `modi(top, 1)` while the top is removed |
| ArrayHeaps.ArrayHeap.Sort | include/ArrayHeap.hpp:78-85 | the values are permuted, and from the order `heapify` keeps no value ranks above a later one |
| ArrayHeaps.ConstructorKeepsOrder | include/ArrayHeap.hpp:236 | the max heap built from 1 2 0 keeps 1 2 0, which is a heap in neither direction, and reports 1 as its top |
| ArrayHeaps.RemoveDropsTop | include/ArrayHeap.hpp:259 | removing 1 from the max heap 2 1 leaves 3 |
| MinArrayHeaps.BelowTop | inc/heaps/min_array_heap.h:52 | the value written by `remove` is below the root |
| MinArrayHeaps.MinArrayHeap.constructor | inc/heaps/min_array_heap.h:28 | a new heap is empty |
| MinArrayHeaps.MinArrayHeap.Reserve | inc/heaps/min_array_heap.h:31 | `reserve` zeros, which form a heap |
| MinArrayHeaps.MinArrayHeap.FromVector | inc/heaps/min_array_heap.h:32-35 | a heap holding exactly the given values |
| MinArrayHeaps.MinArrayHeap.Heapify | inc/heaps/min_array_heap.h:210-230 | size 0 means the whole vector and a larger size changes nothing; the values are permuted, slots before `ii` are kept, and the heap order is restored when only `ii` was out of place |
| MinArrayHeaps.MinArrayHeap.Add | inc/heaps/min_array_heap.h:37-40 | adds exactly the value, keeps the slots before the new value's parent, and keeps a heap a heap only when the value is not below its grandparent |
| MinArrayHeaps.MinArrayHeap.RemoveTop | inc/heaps/min_array_heap.h:42-48 | nothing on an empty heap; otherwise one copy of the root is removed and a heap stays a heap |
| MinArrayHeaps.MinArrayHeap.GetMin | inc/heaps/min_array_heap.h:67-72 | a runtime_error on an empty heap, otherwise the root, which on a heap is the least value |
| MinArrayHeaps.MinArrayHeap.Find | inc/heaps/min_array_heap.h:205-208 | the first slot holding the value, or the size exactly when it is absent |
| MinArrayHeaps.MinArrayHeap.DecreaseKey | inc/heaps/min_array_heap.h:232-244 | the values are permuted, the root is either unchanged or the written value, and a value not greater than its parent stays put |
| MinArrayHeaps.MinArrayHeap.Remove | inc/heaps/min_array_heap.h:50-55 | out_of_range exactly when the value is absent; otherwise one value fewer, and on a heap a value other than the root is replaced by the root minus one while the root is removed |
| MinArrayHeaps.MinArrayHeap.Sort | inc/heaps/min_array_heap.h:57-65 | the values are permuted, and a heap comes out ascending |
| MinArrayHeaps.RemoveDropsMin | inc/heaps/min_array_heap.h:236 | removing 2 from the heap 1 2 leaves 0 |
| MinArrayHeaps.AddBreaksOrder | inc/heaps/min_array_heap.h:39 | adding 0 to the heap 1 5 2 6 7 leaves 1 at the root above 0, so the vector is not a heap |
| Graphs.Targets | inc/graph/graph.h:370 | the destinations `u`'s edge set holds are exactly the stored vertices `u` has an arc to |
| Graphs.TargetsAscending | inc/graph/graph.h:370 | they come in ascending order, the order of an edge set keyed by destination |
| Graphs.FreshMembers | inc/graph/graph.h:370-374 | the marking loop of a traversal pushes exactly the destinations it meets unmarked |
| Graphs.FreshNoDup | inc/graph/graph.h:370-374 | marking as it pushes, that loop never pushes a destination twice |
| Graphs.SpreadMembers | inc/graph/graph.h:528-531 | the inner loop of `fill_kruskall_heap` adds one edge for exactly each unmarked destination, carrying that arc's tag |
| Graphs.SpreadNoDup | inc/graph/graph.h:528-531 | that loop adds no edge twice |
| Graphs.KruskalStep | inc/graph/graph.h:527-534 | once the vertices before `v` are marked, the edges added for `v` are exactly the stored edges whose smaller end is `v`, and none was collected before |
| Graphs.WalkExtend | inc/graph/graph.h:464-466 | a walk followed by one more arc is a walk whose weight grows by that arc's tag |
| Graphs.ClosedHoldsReachable | inc/graph/graph.h:363-375 | a vertex set that holds the start and is closed under arcs holds every vertex reachable from the start |
| Graphs.ClearedSize | inc/graph/graph.h:269-283 | clearing a vertex removes exactly its outgoing arcs and the arcs reaching it from other vertices |
| Graphs.GetMinDijkstra | inc/graph/graph.h:558-566 | a logic_error exactly when the heap is empty; otherwise a queued vertex, which leaves the heap |
| Graphs.Candidate | inc/graph/graph.h:463-466 | the relaxed entry is the smaller of the old entry and the new path, or the path when there was no entry |
| Graphs.WalkOfSelf | inc/graph/graph.h:431 | the empty walk from `a` weighs 0 |
| Graphs.WalkOfStep | inc/graph/graph.h:464-466 | a walk to `m` followed by the arc `m`->`x` is a walk to `x` weighing the sum |
| Graphs.WalkOfReachable | inc/graph/graph.h:419-473 | a vertex with a walk from `a` is reachable from `a` |
| Graphs.SeedsOk | inc/graph/graph.h:431 | the seeded copy of `a`'s edge set holds walks from `a`, and no direct edge beats its entry |
| Graphs.RelaxOk | inc/graph/graph.h:455-468 | relaxing from a settled entry keeps every entry the weight of a walk and keeps direct edges unbeaten |
| Graphs.AsWrittenStep | inc/graph/graph.h:449-468 | settling a queued seed keeps the invariant of `dijkstra_from` as written: only seeds are queued or marked, and every entry is one or two arcs from `a` |
| Graphs.QueuedStep | inc/graph/graph.h:449-468 | settling the least unmarked entry keeps every marked vertex entered and every arc from a marked vertex leading to a marked or entered vertex |
| Graphs.GetMinUnmarked | inc/graph/graph.h:539-556 | a logic_error exactly when every entry is marked; otherwise an unmarked entry with the smallest tag among the unmarked |
| Graphs.TraversalStep | inc/graph/graph.h:363-375 | one round of `visit_bfs` or `visit_dfs` keeps the visited vertices distinct and reachable, the pending ones marked and reachable, and every arc from a visited vertex leading to a marked one |
| Graphs.TraversalMeasure | inc/graph/graph.h:363-375 | one round marks a new vertex or shrinks the pending sequence |
| Graphs.LinkedAdd | inc/graph/graph.h:211-223 | adding or retagging an arc between stored vertices keeps every arc between stored vertices and, when UNDIRECTED, mirrored with one tag |
| Graphs.LinkedRemove | inc/graph/graph.h:246-263 | erasing arcs, mirrored when UNDIRECTED, keeps that |
| Graphs.LinkedCleared | inc/graph/graph.h:230-238 | clearing every arc of `x` keeps that, with or without `x` among the vertices |
| Graphs.Graph.constructor | inc/graph/graph.h:163 | a new graph has no vertex, no edge and no mark |
| Graphs.Graph.NoVertexes | inc/graph/graph.h:186 | the vertex count is the number of stored vertices |
| Graphs.Graph.AddVertex | inc/graph/graph.h:189-195 | inserted and counted exactly when no vertex has the tag; the vertex set stays ascending and the edges stay |
| Graphs.Graph.AddEdge | inc/graph/graph.h:211-223 | a runtime_error exactly when an end is not a vertex; a present arc is left alone; otherwise the arc, mirrored when UNDIRECTED, is added and counted once; the result is whether the last insertion took place |
| Graphs.Graph.RemoveEdge | inc/graph/graph.h:246-263 | false exactly when an end is not a vertex; otherwise the arc is erased and uncounted when present, and its mirror erased when UNDIRECTED |
| Graphs.Graph.RemoveEdgesWith | inc/graph/graph.h:269-284 | false exactly when `x` is not a vertex; otherwise every arc touching `x` is erased but only the arcs reaching `x` from other vertices are uncounted |
| Graphs.Graph.EraseArcsTo | inc/graph/graph.h:273-281 | every arc from another vertex to `x` is erased and uncounted, and nothing else changes |
| Graphs.Graph.RemoveEdgesWithCounted | inc/graph/graph.h:269-284 | as `remove_edges_with`, with the cleared edges of `x` uncounted too, so a directed graph counting its arcs keeps doing so |
| Graphs.Graph.RemoveVertex | inc/graph/graph.h:230-238 | false exactly when `x` is not a vertex, and then nothing changes; otherwise every arc touching `x` is cleared, the vertex is erased and uncounted, and the edge count drops only by the arcs reaching `x` from other vertices, as `remove_edges_with` counts them |
| Graphs.Graph.RemoveVertexCounted | inc/graph/graph.h:230-238 | the same with the cleared edges of `x` uncounted too, so a directed graph whose count equals its arcs keeps it so |
| Graphs.Graph.EraseVertex | inc/graph/graph.h:234-235 | erasing a vertex no arc refers to removes it from the vertices and the vertex count and leaves the arcs and the edge count alone |
| Graphs.Graph.Relax | inc/graph/graph.h:455-468 | every unmarked vertex with an arc from `m` gets its relaxed entry, and every other entry stays |
| Graphs.Graph.DijkstraFrom | inc/graph/graph.h:419-473 | a runtime_error exactly when `a` is not a vertex; otherwise every entry is a vertex reached by a walk of its weight, at most two arcs from `a`, and no direct edge beats its entry |
| Graphs.Graph.DijkstraFromQueued | inc/graph/graph.h:419-473 | a runtime_error exactly when `a` is not a vertex; otherwise the entries are exactly the vertices other than `a` reachable from `a`, each the weight of a walk, and no direct edge beats its entry |
| Graphs.Graph.SettleQueued | inc/graph/graph.h:431-469 | the settling loop ends with every vertex or every entry marked and its invariant kept |
| Graphs.Graph.SettledReach | inc/graph/graph.h:449-469 | when the settling loop stops, the entries are exactly the vertices other than `a` reachable from `a` |
| Graphs.Graph.GetTagEdge | inc/graph/graph.h:294-312 | in DIRECTED mode, a runtime_error exactly when an end is not a vertex or the arc is missing, and the arc's tag otherwise |
| Graphs.Graph.SetTagEdge | inc/graph/graph.h:320-342 | false exactly when an end is not a vertex or the arc is missing; otherwise the arc, and its mirror when UNDIRECTED, gets the new tag |
| Graphs.Graph.ResetMarks | inc/graph/graph.h:568-571 | no stored vertex is left marked |
| Graphs.Graph.MarkTargets | inc/graph/graph.h:370-374 | the unmarked destinations of `u` are pushed in order and every destination ends up marked |
| Graphs.Graph.CollectArcs | inc/graph/graph.h:528-531 | the edges of `u` to unmarked destinations join the heap in destination order |
| Graphs.Graph.FillKruskallHeap | inc/graph/graph.h:524-537 | the heap receives every stored edge exactly once, from its smaller end, with its tag, and no mark is left |
| Graphs.Graph.VisitBfs | inc/graph/graph.h:358-378 | undefined exactly on an empty graph, where `*m_g.begin()` is dereferenced; otherwise the vertices visited from the smallest vertex are exactly those reachable from it, each visited once, and no mark is left |
| Graphs.Graph.Bfs | inc/graph/graph.h:362-375 | the queue loop visits from the smallest vertex exactly the vertices reachable from it, each once, and clears the marks it set |
| Graphs.Graph.VisitDfs | inc/graph/graph.h:380-400 | the same as `visit_bfs`, with a stack in place of the queue, undefined exactly on an empty graph |
| Graphs.Graph.Dfs | inc/graph/graph.h:384-397 | the stack loop visits from the smallest vertex exactly the vertices reachable from it, each once, and clears the marks it set |
| Graphs.OneArc | inc/graph/graph.h:189-223 | adding the vertices 1 and 2 and the arc 1->2 to a directed graph stores that one arc and counts one edge |
| Graphs.RemoveEdgesWithMiscounts | inc/graph/graph.h:271 | `remove_edges_with(1)` on the directed graph 1->2 leaves no arc but an edge count of 1 |
| Graphs.RemoveEdgesWithCountedKeeps | inc/graph/graph.h:269-284 | with the count kept, the same removal leaves the count at 0 |
| Graphs.Chain | inc/graph/graph.h:189-223 | the directed chain 1->2->3->4 built by `add_vertex` and `add_edge` stores exactly its three arcs |
| Graphs.DijkstraMissesFar | inc/graph/graph.h:466 | on that chain `dijkstra_from(1)` gives 4 no entry although 4 is reachable from 1 |
| Graphs.DijkstraQueuedReachesFar | inc/graph/graph.h:419-473 | the queued version gives 4 its entry |
| Forests.Leaf | include/BinomialHeap.hpp:78 | a new node holds its value, has degree 0, no parent and no children, and is a binomial heap-ordered tree |
| Forests.TopFirst | include/BinomialHeap.hpp:120-125 | in heap-ordered trees no stored value ranks above a root that no other root ranks above |
| Forests.BinomialSize | include/BinomialHeap.hpp:273 | a binomial tree of degree k holds 2^k values |
| Forests.Link | include/BinomialHeap.hpp:239-253 | linking keeps both trees' values; the root that ranks above the other (the second on a tie) becomes the parent, takes the other as first child with its parent pointer set and gains a degree; heap order and the binomial shape are kept |
| Forests.BasicMerge | include/BinomialHeap.hpp:239-253 | `basic_merge` erases the root that loses, leaves the link in the winner's place and keeps the list's values |
| Forests.ChainMerge | include/BinomialHeap.hpp:255-268 | `chain_merge` links the root with the one registered at its degree until its degree slot is free; the values, heap order and shape are kept; `out_of_range` is the only failure, and binomial trees holding fewer than 2^slots values never cause it |
| Forests.DegreeBound | include/BinomialHeap.hpp:258 | a binomial root of degree m or more cannot occur in a list holding fewer than 2^m values, so `dg.at` stays in range |
| Forests.CapacityBound | include/BinomialHeap.hpp:273 | binomial trees of distinct degrees below k hold fewer than 2^k values together |
| Forests.CeilLog2 | include/BinomialHeap.hpp:273 | the least k with 2^k at least m, the exact value of `ceil(log2(m))`, which the `double` computation gives for m up to 2^49 |
| Forests.Slots | include/BinomialHeap.hpp:273 | for `m_size` up to 2^49, `merge`'s table has `ceil(log2(m_size)) + 1` slots, and 2 to that number exceeds `m_size` |
| Forests.Consolidate | include/BinomialHeap.hpp:270-280 | `merge` keeps the values, heap order and shape; on success no two roots share a degree and every degree fits the table; a list of fewer than two roots is untouched; binomial trees holding at most the count never overflow |
| RootLists.UpdateTop | include/BinomialHeap.hpp:282-298 | `update_top` gives no position exactly for an empty list, and otherwise the first root that no other root ranks above |
| RootLists.Hoist | include/BinomialHeap.hpp:106-111 | the loop of `remove_top` moves the top's children, parent pointers cleared, in their order in front of the roots, leaves the top without children, and the top's position shifts by their number |
| RootLists.Unroot | include/BinomialHeap.hpp:105-114 | re-rooting yields the top's children, parent pointers cleared, followed by the roots without the top |
| RootLists.UnrootElems | include/BinomialHeap.hpp:105-114 | re-rooting loses exactly the top's value |
| RootLists.UnrootKeeps | include/BinomialHeap.hpp:105-114 | re-rooting keeps heap order, the degree fields and the binomial shapes, and the new roots have no parent |
| RootLists.FindInternal | include/BinomialHeap.hpp:334-349 | `find_internal` returns the search result the recursive definition gives for the tree |
| RootLists.Scan | include/BinomialHeap.hpp:339-346 | the loop shared by `find` and `find_internal` returns the search result the definition gives for a list of children |
| RootLists.Find | include/BinomialHeap.hpp:316-332 | `find` returns the search result the definition gives for the root list |
| RootLists.FindRootsExact | include/BinomialHeap.hpp:316-349 | with the result initialised to null, in heap-ordered roots `find` finds `x` exactly when it is stored, and the node it finds holds `x` |
| RootLists.FindRootsSound | include/BinomialHeap.hpp:316-349 | with the result initialised to null and on any roots, ordered or not, a node `find` finds holds `x`, so `x` is stored |
| RootLists.FindRootsAgree | include/BinomialHeap.hpp:316-349 | whenever the uninitialised result is never read, `find` returns what it returns with the result initialised to null |
| RootLists.SentinelAbove | include/BinomialHeap.hpp:91 | a value ranking above the top, such as `modi(top, 1)`, ranks above every value stored in heap-ordered trees |
| RootLists.SentinelRoot | include/BinomialHeap.hpp:90-92 | a root whose new value ranks above every value stored before is the one top of the list |
| RootLists.UninitialisedFind | include/BinomialHeap.hpp:316-349 | on the max-heap roots 10 over 5, then 7, `find(7)` hands back the uninitialised pointer of `find_internal`; initialised to null it finds 7 |
| TreePaths.OrderedPush | include/BinomialHeap.hpp:300-314 | a value nothing stored ranks above, moved down from the root along a path, leaves the tree heap-ordered |
| TreePaths.Bubble | include/BinomialHeap.hpp:300-314 | `bubble_key` swaps the value with its parent's while the rule allows and stops at the first ancestor the rule refuses, or at the root |
| TreePaths.ElemsPush | include/BinomialHeap.hpp:305-313 | the swaps trade the value at the path's end for the value written, and keep all other values |
| TreePaths.Traded | include/BinomialHeap.hpp:94-99 | removing the sentinel after it replaced `x` removes `x` |
| TreePaths.Pred16 | include/MinFiboHeap.hpp:320 | `degree -= 1` lowers a positive degree by one |
| TreePaths.PruneKeeps | include/MinFiboHeap.hpp:318-320 | cutting a child off keeps heap order, degree fields and set parent pointers in the tree and in the subtree cut off |
| TreePaths.CutStepElems | include/MinFiboHeap.hpp:318-321 | the first cut moves the node to the front of the roots, WHITE, and loses no value |
| TreePaths.CutStepWf | include/MinFiboHeap.hpp:318-321 | the first cut keeps every degree field and parent pointer consistent except the cut node's own stale parent pointer |
| TreePaths.CutOrdered | include/MinFiboHeap.hpp:308-331 | cutting an ordered forest leaves the rest of it and the subtree cut off ordered |
| TreePaths.MarkInForest | include/MinFiboHeap.hpp:323-325 | colouring a node keeps the values, shape and order of the root list |
| TreePaths.Cut | include/MinFiboHeap.hpp:308-331 | `decreaseKey` keeps the values, the degree fields and heap order; a root or a node that stays under its parent changes nothing; otherwise the node ends up as a WHITE root, and a node that ranks above its parent leaves the forest ordered |
| FiboTrees.Sentineled | include/MinFiboHeap.hpp:121-122 | the sentinel written below a root does not stay under its parent, the trees keep their shape, and cutting it off leaves every tree heap-ordered |
| FiboTrees.SentinelAlone | include/MinFiboHeap.hpp:123 | after the cascade the root holding the sentinel is the one top |
| FiboTrees.Dethroned | include/MinFiboHeap.hpp:93-103 | once the top's children have joined the roots and the top is gone, one value fewer and shape and order kept |
| FiboTrees.Rewritten | include/MinFiboHeap.hpp:119 | the sentinel written into a root keeps the trees' shape and order |
| FiboTrees.Pop | include/MinFiboHeap.hpp:89-110 | `removeTop` does nothing to an empty heap and otherwise removes the top's value; on success the heap is a heap again; `out_of_range` leaves the top and the count as they were; binomial trees never overflow |
| FiboTrees.Plant | include/MinFiboHeap.hpp:118-124 | the sentinel replaces `x`; below a root it ends as the one top of an ordered heap; at a root the top moves to it only when the iterator is redirected |
| FiboTrees.DeleteAt | include/MinFiboHeap.hpp:118-126 | once `find` has reached `x`, exactly one `x` goes, unless `x` sat at a root other than the top and the iterator is not redirected, in which case the old top goes and the sentinel stays |
| FiboTrees.Delete | include/MinFiboHeap.hpp:112-127 | `remove` changes nothing when `x` is absent, and otherwise has the effect `DeleteAt` states for the first copy `find` reaches |
| BinomialHeaps.BinomialHeap.constructor | include/BinomialHeap.hpp:74 | with the count set to 0, a new heap is empty and valid |
| BinomialHeaps.BinomialHeap.Uncounted | include/BinomialHeap.hpp:74 | as written, a new heap has no roots and a count of whatever `m_size` holds |
| BinomialHeaps.BinomialHeap.Size | include/BinomialHeap.hpp:127 | `size` is the number of stored values |
| BinomialHeaps.BinomialHeap.Empty | include/BinomialHeap.hpp:128 | `empty` is true exactly when nothing is stored |
| BinomialHeaps.BinomialHeap.GetTop | include/BinomialHeap.hpp:120-125 | `runtime_error` exactly on an empty heap, otherwise a stored value nothing stored ranks above |
| BinomialHeaps.BinomialHeap.Grown | include/BinomialHeap.hpp:78-81 | a leaf in front of the roots, linked and with the top chosen again: values plus `x`, distinct degrees, order kept |
| BinomialHeaps.BinomialHeap.Add | include/BinomialHeap.hpp:77-82 | with the count raised first, `add` keeps the heap valid and adds exactly `x` |
| BinomialHeaps.BinomialHeap.AddAsWritten | include/BinomialHeap.hpp:77-82 | as written, on any heap of binomial trees, ordered or left out of order by an earlier `remove`: `add` adds `x` and never changes the count; on success the shape holds, order holds if it held, and the values fit the table; the only failure is `out_of_range`, which cannot happen while the count exceeds the number of stored values |
| BinomialHeaps.BinomialHeap.Unrooted | include/BinomialHeap.hpp:105-116 | the roots `remove_top` leaves: the top's value gone, distinct degrees, the top chosen again and order kept |
| BinomialHeaps.BinomialHeap.Orphaned | include/BinomialHeap.hpp:105-114 | the top's children joined to the roots and the top erased: binomial trees without parents, one value fewer |
| BinomialHeaps.BinomialHeap.RemoveTop | include/BinomialHeap.hpp:102-118 | nothing happens to an empty heap; otherwise exactly the top's value goes, the count follows, and heap order is kept |
| BinomialHeaps.BinomialHeap.Plant | include/BinomialHeap.hpp:90-97 | the sentinel replaces `x`; written into a root it becomes the top, of an ordered heap if the heap was ordered; carried to its root it becomes the top of an ordered heap; below a root, by `bubble_key` as written and on any heap, the top is unchanged |
| BinomialHeaps.BinomialHeap.PlantBelow | include/BinomialHeap.hpp:94-96 | below a root, `bubble_key` and `update_top` give the sentinel as top of an ordered heap when it rises while above its parent, and leave the old top, on ordered and disordered heaps alike, when it swaps while not above its parent |
| BinomialHeaps.StopsBelowRoot | include/BinomialHeap.hpp:306-310 | `bubble_key` as written never carries the sentinel `modi(top, 1)` into a root, since it ranks above every root, whatever the order below the roots |
| BinomialHeaps.StayedBelow | include/BinomialHeap.hpp:94-96 | a sentinel that stopped below its root leaves shape, root values and top as they were and has taken the place of `x`, with no heap order needed |
| BinomialHeaps.RootRewritten | include/BinomialHeap.hpp:90-92 | the sentinel written into a root keeps the shape and, ranking above every other root, is the one top, with no heap order needed |
| BinomialHeaps.PlantedBelow | include/BinomialHeap.hpp:94-96 | the roots after bubbling keep their shape and trade `x` for the sentinel; risen, the sentinel is the one top of ordered trees |
| BinomialHeaps.BinomialHeap.Remove | include/BinomialHeap.hpp:84-100 | with a null-initialised `find` and the sentinel bubbling while it ranks above its parent, `remove` takes out exactly one `x` and keeps the heap valid |
| BinomialHeaps.BinomialHeap.RemoveAsWritten | include/BinomialHeap.hpp:84-100 | as written, with whatever count `m_size` holds and on ordered or disordered heaps: when `find` finds nothing nothing changes, which covers every absent `x` and, on an ordered heap, only those; a root `x` goes, and an `x` below a root leaves the sentinel stored while the old top goes; `remove_top` can throw `out_of_range` or lower the count with wrap-around, and a right count stays right |
| BinomialHeaps.BinomialHeap.RemoveTopAsWritten | include/BinomialHeap.hpp:102-118 | as written, with whatever count `m_size` holds: the top's value goes; a count of 0 with two roots to link is undefined, a table too small throws `out_of_range` and keeps the count, otherwise the count drops with `size_t` wrap-around; with fewer than two roots to link or a count at least the number of values it succeeds, and a right count stays right |
| BinomialHeaps.UncountedAdds | include/BinomialHeap.hpp:77-82 | with `m_size` holding 1, `add(1)` succeeds and `add(2)` throws `out_of_range` |
| BinomialHeaps.OneTwoHeap | include/BinomialHeap.hpp:77-82 | `add(1)`, `add(2)` in a max heap build the tree 2 over 1 with the top on it |
| BinomialHeaps.TwoValues | include/BinomialHeap.hpp:239-253 | a max heap holding 1 and 2 is the single tree 2 over 1 |
| BinomialHeaps.BinomialHeap.Relinked | include/BinomialHeap.hpp:105-115 | the top's children joined to the roots and the top gone, linked with whatever count `m_size` holds: exactly the top's value is lost and order is kept; undefined exactly for a count of 0 with two roots to link, otherwise success or `out_of_range`, and success whenever fewer than two roots are linked or the count covers the values |
| BinomialHeaps.SizeWraps | include/BinomialHeap.hpp:102-118 | as written, on a heap whose `m_size` holds 0, `add(5)` then `remove_top` empties the heap and leaves the count at 2^64 - 1 |
| BinomialHeaps.Disordered | include/BinomialHeap.hpp:316-318 | the max-heap roots 2 over 4 that `add(1)`, `add(2)`, `add(3)`, `remove(1)` as written leave are out of heap order, and `find(4)` on them returns null because 4 ranks above the top |
| BinomialHeaps.DisorderedHeap | include/BinomialHeap.hpp:77-100 | on that heap, with `m_size` holding 7, `remove(4)` leaves the stored 4 in place and `add(6)` succeeds, leaving 2, 4 and 6 |
| BinomialHeaps.SentinelLeftBehind | include/BinomialHeap.hpp:306 | on the max heap from `add(1)`, `add(2)`, `remove(1)` as written leaves the heap holding 3 |
| MaxBinomHeaps.Slot | include/MaxBinomHeap.hpp:185 | the multiset inserts a root after every root of no greater degree, before the first of greater degree |
| MaxBinomHeaps.Inserted | include/MaxBinomHeap.hpp:185 | inserting adds the tree's values and keeps degree order, the shape and heap order |
| MaxBinomHeaps.Merge | include/MaxBinomHeap.hpp:90-109 | the corrected `merge` loop computes the merged roots |
| MaxBinomHeaps.MergedKeeps | include/MaxBinomHeap.hpp:90-109 | the corrected `merge` keeps the values, the shape, degree order and heap order, and leaves the first two roots of different degrees |
| MaxBinomHeaps.MergeAsWritten | include/MaxBinomHeap.hpp:90-109 | the `merge` loop as written computes its roots and carries `m_max` |
| MaxBinomHeaps.MergedAsWrittenKeeps | include/MaxBinomHeap.hpp:76-109 | `merge` as written keeps the values, the shape and heap order |
| MaxBinomHeaps.MergedAsWrittenTop | include/MaxBinomHeap.hpp:183-190 | after `merge` as written, `m_max` still names the first root holding the maximum, or dangles, and it dangles only when the maximum is stored twice |
| MaxBinomHeaps.InsertedTop | include/MaxBinomHeap.hpp:185-187 | after inserting a leaf, the first root holding the maximum holds the greater of `x` and the old maximum |
| MaxBinomHeaps.Reroot | include/MaxBinomHeap.hpp:196-206 | the top's children become roots and the top goes: exactly its value is lost; shape, degree order and heap order are kept |
| MaxBinomHeaps.FindMax | include/MaxBinomHeap.hpp:132-139 | `updateMax` names the first root holding the maximum, and `end` exactly for no roots |
| MaxBinomHeaps.Pop | include/MaxBinomHeap.hpp:192-210 | `removeTop` does nothing to an empty heap and otherwise removes exactly the maximum, leaving a heap |
| MaxBinomHeaps.Plant | include/MaxBinomHeap.hpp:216-226 | the sentinel `max + 1` replaces `x` and ends as the maximum of a heap |
| MaxBinomHeaps.Delete | include/MaxBinomHeap.hpp:212-229 | `remove` takes out exactly one `x`, leaves a heap, and changes nothing when `x` is absent |
| MaxBinomHeaps.MaxBinomHeap.constructor | include/MaxBinomHeap.hpp:180 | a new heap is empty with `m_max` at `end` |
| MaxBinomHeaps.MaxBinomHeap.Add | include/MaxBinomHeap.hpp:183-190 | with `updateMax` after `merge`, `add` adds exactly `x` and keeps the heap valid |
| MaxBinomHeaps.MaxBinomHeap.AddAsWritten | include/MaxBinomHeap.hpp:183-190 | as written, `add` adds `x` and keeps shape and order; `m_max` names the first root holding the maximum or dangles, and dangles only when the maximum is stored twice |
| MaxBinomHeaps.MaxBinomHeap.GetMax | include/MaxBinomHeap.hpp:233-238 | `runtime_error` exactly on an empty heap, otherwise the greatest stored value |
| MaxBinomHeaps.MaxBinomHeap.Sort | include/MaxBinomHeap.hpp:231 | `sort` always throws `runtime_error` |
| MaxBinomHeaps.MaxBinomHeap.RemoveTop | include/MaxBinomHeap.hpp:192-210 | nothing happens to an empty heap; otherwise exactly the maximum goes |
| MaxBinomHeaps.MaxBinomHeap.Remove | include/MaxBinomHeap.hpp:212-229 | exactly one `x` goes; nothing changes when `x` is absent |
| MaxBinomHeaps.TiedAdds | include/MaxBinomHeap.hpp:187-189 | `add(5)` twice as written leaves `m_max` dangling over the values 5, 5 |
| MaxBinomHeaps.TiedAddsFixed | include/MaxBinomHeap.hpp:183-190 | the same calls with `updateMax` after `merge` leave one root, holding 5, with `m_max` on it, over the values 5, 5 |
| MaxBinomHeaps.MergeOutOfOrder | include/MaxBinomHeap.hpp:80 | `merge` as written on roots of degrees 0, 0, 1, 1 leaves them out of degree order; the corrected `merge` keeps the order |
| MinFiboHeaps.MinFiboHeap.constructor | include/MinFiboHeap.hpp:76 | a new heap is empty with a count of 0 |
| MinFiboHeaps.MinFiboHeap.Add | include/MinFiboHeap.hpp:79-87 | the leaf goes in front of the roots, the count grows, and `m_min` moves to it exactly when it is the only root or holds no more than the minimum |
| MinFiboHeaps.MinFiboHeap.GetMin | include/MinFiboHeap.hpp:129-134 | `runtime_error` exactly on an empty heap, otherwise the least stored value |
| MinFiboHeaps.MinFiboHeap.Size | include/MinFiboHeap.hpp:140 | `size` is the number of stored values |
| MinFiboHeaps.MinFiboHeap.Empty | include/MinFiboHeap.hpp:141 | `empty` is true exactly when nothing is stored |
| MinFiboHeaps.MinFiboHeap.Sort | include/MinFiboHeap.hpp:136 | `sort` always throws `runtime_error` |
| MinFiboHeaps.MinFiboHeap.RemoveTop | include/MinFiboHeap.hpp:89-110 | nothing happens to an empty heap; otherwise exactly the minimum goes; an `out_of_range` leaves `m_min` and `m_size` as they were; binomial trees never overflow |
| MinFiboHeaps.MinFiboHeap.Remove | include/MinFiboHeap.hpp:112-127 | with `m_min` moved to a root that receives the sentinel, exactly one `x` goes and nothing changes when `x` is absent |
| MinFiboHeaps.MinFiboHeap.RemoveAsWritten | include/MinFiboHeap.hpp:112-127 | as written, an `x` at a root other than the minimum leaves the sentinel stored while the old minimum goes; other cases remove exactly `x` |
| MinFiboHeaps.SentinelKept | include/MinFiboHeap.hpp:118-120 | `add(1)`, `add(2)`, `remove(2)` as written leave the heap holding 0 |
| MinFiboHeaps.SentinelRemoved | include/MinFiboHeap.hpp:118-126 | the same calls with `m_min` redirected leave 1 |
| MaxFiboHeaps.MaxFiboHeap.constructor | include/MaxFiboHeap.hpp:194 | a new heap is empty with a count of 0 |
| MaxFiboHeaps.MaxFiboHeap.Add | include/MaxFiboHeap.hpp:197-205 | the leaf goes in front of the roots, the count grows, and `m_max` moves to it exactly when it is the only root or holds more than the maximum |
| MaxFiboHeaps.MaxFiboHeap.GetMax | include/MaxFiboHeap.hpp:247-252 | `runtime_error` exactly on an empty heap, otherwise the greatest stored value |
| MaxFiboHeaps.MaxFiboHeap.Sort | include/MaxFiboHeap.hpp:254 | `sort` always throws `runtime_error` |
| MaxFiboHeaps.MaxFiboHeap.RemoveTop | include/MaxFiboHeap.hpp:207-227 | nothing happens to an empty heap; otherwise exactly the maximum goes; binomial trees never overflow the table |
| MaxFiboHeaps.MaxFiboHeap.Remove | include/MaxFiboHeap.hpp:229-245 | exactly one `x` goes and nothing changes when `x` is absent; at a root of binomial trees the table suffices |
| AvlTrees.AVL.constructor | include/AVLTree.hpp:39-48 | a new tree is empty, ordered and balanced |
| AvlTrees.AVL.Clear | include/AVLTree.hpp:52 | `clear` leaves an empty, ordered and balanced tree |
| AvlTrees.AVL.Find | include/AVLTree.hpp:201-213 | `find` follows the search path; it reports a node exactly when one lies at the path's end, that node holds `x`, and in an ordered tree it reports a node exactly when `x` is stored |
| AvlTrees.SearchPathEnds | include/AVLTree.hpp:201-213 | in an ordered tree the search path ends at a node exactly when `x` is stored, and that node holds `x` |
| AvlTrees.GrowInOrder | include/AVLTree.hpp:54-65 | hanging `x` at the end of its search path inserts it into the sorted contents, leaving them as they were when `x` is already present |
| AvlTrees.SimpleGrown | include/AVLTree.hpp:215-235 | a single rotation at a node two levels heavier on one side, whose heavy child leans the same way, gives a balanced subtree with every pointer linked, one level lower than the heavy side was |
| AvlTrees.DoubleGrown | include/AVLTree.hpp:238-288 | a double rotation that resets every factor, at a node whose heavy child leans the other way, gives a balanced, linked subtree one level lower than the heavy side was |
| AvlTrees.RebalanceGrown | include/AVLTree.hpp:290-304 | `rebalance_checking` on a node with factor 2 or -2 whose heavy child is not even chooses a rotation that balances it |
| AvlTrees.AVL.Update | include/AVLTree.hpp:306-328 | `update` climbs from the new leaf, adjusting factors and rotating, and leaves the tree the climb definition gives |
| AvlTrees.AddedInOrder | include/AVLTree.hpp:54-65 | `add`, with or without the reset of the factors, inserts `x` into the sorted contents and keeps the tree ordered |
| AvlTrees.AddedAvl | include/AVLTree.hpp:54-65 | `add` with the double rotation resetting the lifted node's factor never meets a missing node, and keeps a balanced, linked tree balanced and linked |
| AvlTrees.AVL.Add | include/AVLTree.hpp:54-65 | `add` returns true exactly when `x` was absent, inserts `x` into the sorted contents, keeps the tree ordered, and keeps a balanced tree balanced |
| AvlTrees.AVL.AddAsWritten | include/AVLTree.hpp:54-65 | as written (`double_rotate` never resets the lifted node's factor), `add` still returns true exactly when `x` was absent and inserts `x` into the ordered tree; balance is not promised |
| AvlTrees.RemovedInOrder | include/AVLTree.hpp:92-132 | `rmv` deletes `x` from the sorted contents, changes nothing when `x` is absent, and keeps the tree ordered |
| AvlTrees.RemovedBoth | include/AVLTree.hpp:116-131 | a node with two children is replaced by its in-order predecessor, the rightmost node of its left subtree |
| AvlTrees.RightmostInOrder | include/AVLTree.hpp:116-131 | replacing the rightmost node of a subtree by its left subtree removes that node's value, the last of the subtree |
| AvlTrees.AVL.Rmv | include/AVLTree.hpp:92-132 | `rmv` returns false when `x` is absent and falls off the end without a return value otherwise; `x` leaves the sorted contents and the tree stays ordered |
| AvlTrees.DescendLeft | include/AVLTree.hpp:360-367 | the iterator constructor walks left from a node to the first node of its subtree |
| AvlTrees.Iterator.constructor | include/AVLTree.hpp:358-367 | an iterator made from a null pointer is `end`; one made from a node sits on the first node of that node's subtree |
| AvlTrees.Iterator.Exact | include/AVLTree.hpp:369-370 | copying an iterator keeps the tree and the position |
| AvlTrees.AVL.Begin | include/AVLTree.hpp:420 | `begin` sits on the first node in order |
| AvlTrees.AVL.End | include/AVLTree.hpp:421 | `end` is the null position |
| AvlTrees.SuccessorIndex | include/AVLTree.hpp:382-408 | the successor of a node is the node one place further in order, and there is none exactly at the last node |
| AvlTrees.LinkedClimbable | include/AVLTree.hpp:395-407 | in a tree whose parent pointers are all right, the climb of `++` from any node reaches the right ancestor |
| AvlTrees.Iterator.Climb | include/AVLTree.hpp:395-407 | the climb goes up while the node is its parent's right child, and ends at the parent or, past the root, at null |
| AvlTrees.Iterator.Advance | include/AVLTree.hpp:386-407 | the step of `++` moves the iterator to the successor, and leaves `end` at `end` |
| AvlTrees.Iterator.Next | include/AVLTree.hpp:382-408 | with the copy kept where the iterator was, `operator++` returns the old position and moves the iterator to the successor |
| AvlTrees.Iterator.NextAsWritten | include/AVLTree.hpp:382-408 | as written, the copy `Iterator r(current)` is built through the node constructor, so the returned iterator sits on the first node of the old node's subtree; the iterator itself moves to the successor |
| AvlTrees.Iterator.Deref | include/AVLTree.hpp:413-416 | dereferencing `end` is a `runtime_error`; otherwise the value is the one at the iterator's place in order |
| AvlTrees.AVL.FindIter | include/AVLTree.hpp:431-438 | with the iterator placed on the found node, `find` lands on a node exactly when `x` is stored, and that node holds `x` |
| AvlTrees.AVL.FindIterAsWritten | include/AVLTree.hpp:431-438 | as written, `Iterator(*p)` descends to the first node of the found node's subtree, which lies at the subtree's first place in order |
| AvlTrees.AVL.Rightmost | include/AVLTree.hpp:424-426 | the loop of `last` reaches a node with no right child, the last one in order |
| AvlTrees.AVL.Last | include/AVLTree.hpp:423-429 | with the iterator placed on the rightmost node, `last` is undefined exactly on an empty tree and otherwise sits on the last value in order |
| AvlTrees.AVL.LastAsWritten | include/AVLTree.hpp:423-429 | as written, `Iterator(temp)` descends to the first node of the rightmost node's left subtree; on an empty tree `temp->right` dereferences null |
| AvlTrees.AVL.Walk | include/AVLTree.hpp:382-421 | iterating from `begin` to `end` over a tree with right parent pointers visits exactly the contents in order, ascending when the tree is ordered |
| AvlTrees.TwoThenOne | include/AVLTree.hpp:54-65 | `add(2)`, `add(1)` build the root 2 with left child 1 and factor -1 |
| AvlTrees.TwoThenOneWalk | include/AVLTree.hpp:382-408 | in that tree 1 comes first, its successor is 2, and 2 has none |
| AvlTrees.IteratorsDescend | include/AVLTree.hpp:385 | as written, in the tree 2 over 1, `*` on what `++` returns when stepping from 2, and `*find(2)`, both give 1 |
| AvlTrees.IteratorsStay | include/AVLTree.hpp:431-438 | corrected, the same calls both give 2 |
| AvlTrees.ThirteenClimbs | include/AVLTree.hpp:306-328 | adding 13 to the balanced tree that adding 10, 5, 20, 15, 25 builds climbs to 20, which gets factor -2 over a child leaning the other way, and the double rotation lifts 15 to the root; the factor 15 keeps is -1 as written and 0 when reset |
| AvlTrees.FactorKept | include/AVLTree.hpp:264-287 | that starting tree is balanced, linked and ordered; as written the lifted 15 keeps factor -1 over two subtrees of height 2, which is not balanced, and with the factor reset the result is balanced |
| RedBlackTrees.RedBlackTree.constructor | include/RedBlackTree.hpp:53 | a new tree is empty, ordered and a red-black tree |
| RedBlackTrees.RedBlackTree.Reset | include/RedBlackTree.hpp:67 | `reset` leaves an empty tree |
| RedBlackTrees.UncleSibling | include/RedBlackTree.hpp:29-40 | in an ordered tree, `uncle` picks the grandparent's child on the side opposite the parent, by comparing the grandparent's value with the parent's |
| RedBlackTrees.RedBlackTree.Find | include/RedBlackTree.hpp:131-143 | `find` follows the search path; it reports a node exactly when one lies at the path's end, that node holds `x`, and in an ordered tree it reports a node exactly when `x` is stored |
| RedBlackTrees.SearchPathEnds | include/RedBlackTree.hpp:131-143 | in an ordered tree the search path ends at a node exactly when `x` is stored, and that node holds `x` |
| RedBlackTrees.GrowInOrder | include/RedBlackTree.hpp:69-81 | hanging `x` at the end of its search path inserts it into the sorted contents |
| RedBlackTrees.RedBlackTree.RotateLeft | include/RedBlackTree.hpp:192-208 | for a rotation that reads no stale parent pointer and meets no null child, `rotate_left` leaves the tree the rotation definition gives, which keeps the in-order sequence |
| RedBlackTrees.RedBlackTree.RotateRight | include/RedBlackTree.hpp:210-226 | for a rotation that reads no stale parent pointer and meets no null child, `rotate_right` leaves the tree the rotation definition gives, which keeps the in-order sequence |
| RedBlackTrees.RotateAtInOrder | include/RedBlackTree.hpp:192-226 | a rotation, with or without the handed subtree's parent pointer set, keeps the in-order sequence |
| RedBlackTrees.RedBlackTree.Rebalance | include/RedBlackTree.hpp:163-190 | for runs that read no stale parent pointer and meet no null child, `rebalance_case` leaves the tree its definition gives |
| RedBlackTrees.RedBlackTree.Lift | include/RedBlackTree.hpp:180-189 | for runs that read no stale parent pointer and meet no null child, the outer rotation and recolouring leave the tree their definition gives |
| RedBlackTrees.SameSides | include/RedBlackTree.hpp:163-190 | corrected: a node on the same side of its parent as the parent of the grandparent gets the outer rotation only |
| RedBlackTrees.OppositeSides | include/RedBlackTree.hpp:167-178 | corrected: a node on the other side is rotated up first, then the outer rotation is applied from its new place |
| RedBlackTrees.RebalanceInOrder | include/RedBlackTree.hpp:163-190 | rebalancing keeps the in-order sequence |
| RedBlackTrees.RedBlackTree.Update | include/RedBlackTree.hpp:147-161 | for runs that read no stale parent pointer, `update` leaves the tree the fix-up definition gives |
| RedBlackTrees.RedUncleFix | include/RedBlackTree.hpp:152-157 | a red parent with a red uncle: the grandparent turns red, parent and uncle black, and the fix-up continues at the grandparent |
| RedBlackTrees.BlackUncleFix | include/RedBlackTree.hpp:158-159 | a red parent with a black uncle: the fix-up is `rebalance_case` |
| RedBlackTrees.FixInOrder | include/RedBlackTree.hpp:147-190 | the fix-up keeps the in-order sequence |
| RedBlackTrees.FixRedBlack | include/RedBlackTree.hpp:147-190 | corrected, the fix-up from a red-black tree with one new red leaf never meets a missing node and yields a red-black tree with every parent pointer right |
| RedBlackTrees.AddedInOrder | include/RedBlackTree.hpp:84-96 | `add`, as written or corrected, inserts `x` into the sorted contents and keeps the tree ordered |
| RedBlackTrees.AddedRedBlack | include/RedBlackTree.hpp:84-96 | corrected, `add` on a red-black tree with right parent pointers always completes and gives such a tree again |
| RedBlackTrees.RedBlackTree.Add | include/RedBlackTree.hpp:84-96 | `add` returns true exactly when `x` was absent, inserts `x` into the ordered tree, and with the corrected fix-up keeps a red-black tree red-black |
| RedBlackTrees.RedBlackTree.AddAsWritten | include/RedBlackTree.hpp:84-96 | as written, for insertions that read no stale parent pointer, `add` returns true exactly when `x` was absent and inserts `x` into the ordered tree; the red-black properties are not promised |
| RedBlackTrees.LeftUncleBreaks | include/RedBlackTree.hpp:167-178 | the tree adding 1, 2, 3, 7, 8, 4, 5 builds is a valid red-black tree, and adding 6 to it as written skips the inner rotation and leaves the two sides of 2 with different black heights |
| RedBlackTrees.StaleAfterRotation | include/RedBlackTree.hpp:199-202 | in a valid red-black tree holding 1 to 7, adding 8 as written leaves node 3 with a stale parent pointer |

## Left out

- Memory: node deletion, destructors and leaks are not modelled. Deleted nodes of the orthogonal matrix stay in its arena, unreachable.
- Printing: `print` and `printLn` of every container write to a stream and are left out.
- Element types: every template is instantiated at `int`. Comparison, hashing and equality are those of `int`.
- `size_t` indices are unbounded `nat`. Only the hash table's bucket index and `SizeDec` model 64-bit wrap-around.
- HashTables.Hash.Find: returns the stored value equal to the argument. With `int` elements that is the argument itself.
- FastMatrices: the binary form of `write` and `read` copies raw bytes through a file and is left out. The text form is modelled as a sequence of integer tokens, without the file stream.
- FastMatrices.FastMatrix.Read: assumes the text is the two sizes followed by whole triples with non-negative indices. Malformed text, where extraction fails in the middle of a triple, is not modelled.
- FastMatrices.ReadWrite: states the round trip only when at least one cell was written. With no cell, `read` adds the never-assigned `data`, `row` and `col` once, and ReadEmptyAddsLeftover shows that case.
- OrthogonalMatrices.Matrix.Add: requires the position to be inside the matrix. The source indexes `m_rows` and `m_cols` without checking, which is undefined behaviour outside the bounds. The same holds for Remove, Find, Get, FindByRow and FindByCol.
- OrthogonalMatrices.Matrix.Get: returns the value. The source returns a reference through which the caller may assign.
- OrthogonalMatrices.ScanAsWritten: takes a `fuel` bound of the arena size. The source walk can loop forever on the cyclic lists its add can build; the model stops after the bound instead.
- Iterators: an iterator is a node reference. `operator==` and `operator!=` compare node references, which needs no model of its own.
- SimpleBinaryTrees.SBT: `rmv` and `rmvRecursive` are left out. They call helpers the class does not define (`_find_`, `_is_leaf_`, `_has_only_one_child_`, `_clear_`) and have no return on the path that removes.
- SimpleBinaryTrees.SBT: `printBFS` is left out. It pushes the root unchecked and dereferences it, so it fails on an empty tree.
- Array heaps: `graph` renders the heap through Graphviz and `no_of_childs` serves only it; both are left out, and `get_vector` is the `vec` field itself.
- Array heaps: values are unbounded `int`, so `modi(top, 1)` and the root minus one in `remove` never overflow as they can at the ends of the C++ type.
- ArrayHeaps.ArrayHeap.Sort and MinArrayHeaps.MinArrayHeap.Sort: the loop is BinaryHeaps.HeapSort, which sinks with an explicit size as `heapify(0, --size)` does.
- SimpleBinaryTrees.SBT: a returned `Node*` is modelled as the subtree it heads, so node identity is not captured. Two nodes holding equal subtrees cannot both occur in a search tree.
- Graphs: vertex and edge tags are `int`. The `Vertex` and `Edge` wrappers, their tag comparators and `print` are left out, and `mark`, `unmark` and `marked` are membership in `marks`.
- Graphs: each operation is modelled in its tag-taking form; the iterator-taking overloads it forwards to are its body. The `add_vertex(const Vertex&)` overload performs the same insertion and is not modelled separately.
- Graphs.Graph.AddVertex: returns whether the vertex was inserted. The source also returns the iterator to it.
- Graphs.Graph: `m_no_vertexes` and `m_no_edges` are unbounded integers, so the `size_t` wrap-around of a miscounted edge count below zero is not modelled, and the class invariant does not tie the edge count to the arcs.
- Graphs.Graph.GetTagEdge: requires the arc between two distinct stored vertices to be present. In DIRECTED mode the source compares the lookup with the end of the other vertex's edge set, so a missing arc between distinct vertices is undefined behaviour. The UNDIRECTED branch does not compile (`a->edges.size()`) and is left out.
- Graphs.Graph.VisitBfs and Graphs.Graph.VisitDfs: the visitor callback is the returned sequence of visited vertices. The contract states which vertices are visited, once each, but not the breadth-first or depth-first order.
- Graphs.Graph.DijkstraFrom: the Fibonacci heap of iterators whose tags change in place is a set of queued vertices from which any one may come out. The order in which the heap yields them is not modelled.
- Graphs.Graph.DijkstraFromQueued: states which vertices get entries and that each entry is the weight of a walk, not that each entry is the shortest distance.
- Graphs.Graph.FillKruskallHeap: the `MinFiboHeap` it fills is a sequence in insertion order. The heap itself is modelled in its own module.
- Graphs: `existing_way`, `cycle_with` and `mst_prim` have empty bodies with no return value, and `mst_kruskall` calls `std::pop_heap` on a `MinFiboHeap` and the empty `cycle_with`. They are left out; only `fill_kruskall_heap` is modelled.

- AvlTrees.AVL: `rmvRecursive` is left out. It has no return on the path that removes, and it frees the whole subtree of the removed node.
- AvlTrees.AVL and RedBlackTrees.RedBlackTree: `printBFS` and the traversal printers write to a stream and are left out.
- AvlTrees.AVL.Rmv: the source does not rebalance after a removal, so the contract keeps order and not balance. A removal falls off the end of the function without a return value, modelled as `None`.
- AvlTrees.AVL.Add: requires the insertion to meet no missing node. AddedAvl proves it never does on a balanced tree with right parent pointers.
- AvlTrees.AVL.AddAsWritten: requires the insertion to meet no missing node. Without the factor reset a later insertion can follow a null child, which is undefined behaviour.
- AvlTrees.AVL.Update: requires the climb to meet no missing node; it is the step of Add.
- AvlTrees.AVL.Rightmost: requires a non-empty tree; Last and LastAsWritten report the empty case as undefined.
- AvlTrees.AVL.Walk: requires every parent pointer to be right. `rmv` moves values between nodes without updating parent pointers, after which `++` can follow a stale one.
- AvlTrees.Iterator.Next: requires the parent pointers on the climb to be right, for the same reason. LinkedClimbable gives it for every tree with right parent pointers.
- AvlTrees.Iterator.NextAsWritten: requires the parent pointers on the climb to be right, as Next does.
- AvlTrees.Iterator.Advance: requires the parent pointers on the climb to be right, as Next does.
- AvlTrees.Iterator.Climb: requires the parent pointers on the climb to be right, as Next does.
- RedBlackTrees.RedBlackTree.Add: requires the insertion to meet no missing node. AddedRedBlack proves it never does on a red-black tree with right parent pointers.
- RedBlackTrees.RedBlackTree.AddAsWritten: requires the insertion to read no stale parent pointer. As written, `rotate_left` and `rotate_right` (199-202, 217-220) leave the handed subtree's `parent` naming its old parent, and a later `add` can read it. Because only `clear` deletes nodes (124-129), such a stale pointer still leads to a live node. The run then goes on with defined writes that can unhook a subtree (204-205, 222-223). It is undefined only when it re-reads a null grandparent (181-182) or rotates towards a null child. The model does not follow those defined but corrupting runs: it gives `None` at the stale read, and the precondition excludes them.
- RedBlackTrees.RedBlackTree.Update: requires the fix-up to read no stale parent pointer, as AddAsWritten does; it is the step of Add.
- RedBlackTrees.RedBlackTree.Rebalance: requires the rotation to read no stale parent pointer and meet no null child, as AddAsWritten does; it is a step of Update.
- RedBlackTrees.RedBlackTree.Lift: requires the rotation to read no stale parent pointer and meet no null child, as AddAsWritten does; it is a step of Rebalance.
- RedBlackTrees.RedBlackTree.RotateLeft: requires the rotated node's parent pointer to be right and its right child to exist. A stale pointer gives a defined write into the node it names, which the model does not follow.
- RedBlackTrees.RedBlackTree.RotateRight: requires the rotated node's parent pointer to be right and its left child to exist, as RotateLeft does.
- Binomial and Fibonacci heaps: `print` has an empty body and `graph` renders through Graphviz; both are left out, with `no_of_childs` of `MaxBinomHeap`, which serves only `graph`.
- Binomial and Fibonacci heaps: values are unbounded `int`, so the sentinel `modi(top, 1)`, `max + 1` or `min - 1` never overflows.
- BinomialHeaps.BinomialHeap.Uncounted: the uninitialised `m_size` is the parameter `garbage`.
- BinomialHeaps.BinomialHeap.AddAsWritten: requires `m_size` to be at least 1 once there are roots. With 0, `log2(0)` makes the table size undefined behaviour.
- Forests.Consolidate: requires `m_size` to be at least 1 once there are two roots, for the same reason.
- Forests.Slots: the table size is exact integer arithmetic. The source computes `log2` in `double` (BinomialHeap.hpp:273, MinFiboHeap.hpp:283, MaxFiboHeap.hpp:111), and for counts just above a power of two from 2^49 + 1 on, `log2` rounds down to that power's exponent. The table then has one slot fewer than `Slots` gives: 50 instead of 51 at 2^49 + 1. This needs at least 2^49 stored values, and the double rounding is not modelled.
- Forests.CeilLog2: exact `ceil(log2(m))`, for the same reason as Slots; it differs from the `double` computation only for m above 2^49.
- BinomialHeaps.BinomialHeap.RemoveAsWritten: requires `find` never to return its uninitialised result, whose use is undefined behaviour. RootLists.UninitialisedFind shows an input where it does. It also requires the count to lie in the range of `size_t`, which `m_size` always does.
- BinomialHeaps.BinomialHeap.RemoveTopAsWritten: requires the count to lie in the range of `size_t`, which `m_size` always does. After `out_of_range` or the undefined case only the stored values are stated, since `m_top` then names an erased root.
- BinomialHeaps.BinomialHeap.RemoveTop: assumes the corrected count, `m_size` starting at 0 and raised by `add`. Only then does the count follow the values. RemoveTopAsWritten runs with the count as written.
- BinomialHeaps.BinomialHeap.Remove: assumes the corrected count, as RemoveTop does, besides the corrected `find` and `bubble_key`.
- MaxBinomHeaps.Pop: runs the corrected Merge, which keeps the roots in degree order, where `removeTop` (207) runs the `merge` as written. MergeOutOfOrder shows what the merge as written does.
- MaxBinomHeaps.Delete: runs the corrected Merge, where `remove` (228) reaches the `merge` as written, as Pop does.
- MaxBinomHeaps.MaxBinomHeap.RemoveTop: runs the corrected Merge through Pop, where `removeTop` (207) runs the `merge` as written.
- MaxBinomHeaps.MaxBinomHeap.Remove: runs the corrected Merge through Delete, where `remove` (228) reaches the `merge` as written.
- MinFiboHeaps.MinFiboHeap.Remove: requires the cut cascade never to follow the stale parent pointer a cut node keeps. Neither Fibonacci heap clears it, and the search for the node among its old parent's children is then undefined.
- MinFiboHeaps.MinFiboHeap.RemoveAsWritten: requires the cut cascade never to follow a stale parent pointer, as Remove does.
- MaxFiboHeaps.MaxFiboHeap.Remove: requires the cut cascade never to follow a stale parent pointer, as in MinFiboHeaps.
- FiboTrees.Plant: requires the cut cascade never to follow a stale parent pointer, as in MinFiboHeaps.
- FiboTrees.DeleteAt: requires the cut cascade never to follow a stale parent pointer, as in MinFiboHeaps.
- FiboTrees.Delete: requires the cut cascade never to follow a stale parent pointer, as in MinFiboHeaps.
- TreePaths.Cut: requires the cut cascade never to follow a stale parent pointer, as in MinFiboHeaps.
- Binomial and Fibonacci heaps: `find` returns the path to the node it finds instead of a `Node*`, and its iterator argument is the first step of that path.

## Findings

| source | as written | input that shows it | evidently intended | confidence | as-written member | corrected member |
|---|---|---|---|---|---|---|
| include/ArrayHeap.hpp:236 | `size == m_vec.size()` compares instead of assigning, so `heapify` with the default size does nothing and the vector constructor, `add` and `remove_top` never reorder | a `MaxArrayHeap` built from 1 2 0 keeps 1 2 0, a heap in neither direction, and `get_top` is 1 | assign the size, so that the constructor builds a heap | not executed | ArrayHeaps.ConstructorKeepsOrder | BinaryHeaps.BuildHeap |
| include/ArrayHeap.hpp:259 | `bubble_key` swaps while the value does not rank above its parent, so the value `remove` writes, which ranks above the top, never rises and `remove_top` removes the top | the `MaxArrayHeap` 2 1, `remove(1)`: the vector becomes 3 | swap while the value ranks above its parent, so the written value reaches the root and is removed, leaving 2. `bubble_key` agrees with the reversed order `heapify` sinks by (lines 244-247), so the mismatch is between that direction of `comp` and `modi(top, 1)` with the class name; the correction takes one order for both | not executed | ArrayHeaps.RemoveDropsTop | BinaryHeaps.RemoveAt |
| inc/heaps/min_array_heap.h:236 | `decreaseKey` swaps while the child is greater than its parent and steps to `parent(ii)`, so the root minus one stays put and `removeTop` removes the minimum | the heap 1 2, `remove(2)`: the vector becomes 0 | swap while the child is smaller and step to `parent(m)`, leaving 1 | not executed | MinArrayHeaps.RemoveDropsMin | BinaryHeaps.RemoveAt |
| inc/heaps/min_array_heap.h:39 | `add` sinks only the new value's parent, so a new value below its grandparent stays under it | the heap 1 5 2 6 7, `add(0)`: 0 lands in slot 2 under the root 1 | bubble the new value up to its place | not executed | MinArrayHeaps.AddBreaksOrder | BinaryHeaps.Push |
| inc/sparse_matrix/sparse_matrix.h:157-158 | `find_by_col` starts its walk at `m_rows[col]`, so columns are looked up in the row lists | 2 by 2 matrix; add (0,0), (0,1), (1,0); then `find(0,1)` is false and `find(1,1)` is true | start the column walk at `m_cols[col]` | not executed | OrthogonalMatrices.FindByColAsWrittenMisses | OrthogonalMatrices.Matrix.FindByCol |
| inc/graph/graph.h:271 | `remove_edges_with` clears the vertex's own edge set without lowering `m_no_edges`, so in DIRECTED mode its outgoing arcs, and a loop x-x in either mode, stay counted | the directed graph 1->2, `remove_edges_with(1)`: no arc is left but `no_edges()` is 1 | lower the count by the edges cleared; `remove_vertex` at line 233 calls it and inherits the miscount | not executed | Graphs.RemoveEdgesWithMiscounts | Graphs.Graph.RemoveEdgesWithCounted |
| inc/graph/graph.h:466 | a vertex first reached through a settled vertex gets an entry but is never queued; only the seeds are queued at lines 439-440 | the directed chain 1->2->3->4 with tags 1, `dijkstra_from(1)`: 4 gets no entry | settle the least unmarked entry each round, as the edge-set `get_min_dijkstra` does | not executed | Graphs.DijkstraMissesFar | Graphs.Graph.DijkstraFromQueued |
| include/RedBlackTree.hpp:167-178 | `rebalance_case` makes the inner rotation only when the grandparent's left child exists and the node is its right child, so a node that is the left child of a right child whose grandparent also has a left child gets the outer rotation alone | add 1, 2, 3, 7, 8, 4, 5, then 6: the two sides of 2 differ in black height | rotate the node up first whenever it lies on the other side of its parent than the parent of its grandparent | not executed | RedBlackTrees.LeftUncleBreaks | RedBlackTrees.RedBlackTree.Add |
| include/RedBlackTree.hpp:199-202 | `rotate_left` hands the pivot's left subtree over without setting that subtree's `parent`, and `rotate_right` likewise (lines 217-220) | add 1 to 7 in order, then 8: node 3 still names 4 as its parent | set the handed subtree's parent to the node that receives it | not executed | RedBlackTrees.StaleAfterRotation | RedBlackTrees.RedBlackTree.Add |
| include/AVLTree.hpp:385 | `operator++` returns a copy made through `Iterator(Node*)`, which descends to the first node of the subtree, so it returns the wrong position | `add(2)`, `add(1)`, `begin`, `++` twice: `*` on what the second `++` returns gives 1, not 2 | copy the position unchanged | not executed | AvlTrees.IteratorsDescend | AvlTrees.Iterator.Next |
| include/AVLTree.hpp:435 | `find` wraps the found node with `Iterator(*p)`, which descends to the first node of its subtree; `last` does the same at line 428 | `add(2)`, `add(1)`; `*find(2)` gives 1 | place the iterator on the found node | not executed | AvlTrees.AVL.FindIterAsWritten | AvlTrees.AVL.FindIter |
| include/AVLTree.hpp:264-287 | `double_rotate` sets the factors of the old root and of `pivot_0` but never resets that of `pivot_1`, the node it lifts | add 10, 5, 20, 15, 25, then 13: 15 is lifted to the root keeping factor -1 over two subtrees of height 2 | set `pivot_1`'s factor to 0 | not executed | AvlTrees.FactorKept | AvlTrees.AVL.Add |
| include/BinomialHeap.hpp:74-82 | the constructor leaves `m_size` uninitialised and `add` never raises it, so `merge` sizes its degree table from a stale count | with `m_size` holding 1, `add(1)` then `add(2)`: the one-slot table cannot take the linked tree of degree 1 and `chain_merge` throws `out_of_range` | start the count at 0 and raise it in `add` | not executed | BinomialHeaps.UncountedAdds | BinomialHeaps.BinomialHeap.Add |
| include/BinomialHeap.hpp:306 | `bubble_key` swaps while the value does not rank above its parent, so the sentinel `remove` writes below a root stays there and `remove_top` removes the old top | max heap: `add(1)`, `add(2)`, `remove(1)` leaves the heap holding 3 | swap while the value ranks above its parent | not executed | BinomialHeaps.SentinelLeftBehind | BinomialHeaps.BinomialHeap.Remove |
| include/BinomialHeap.hpp:338 | the result `tmp` of `find_internal`, like that of `find` at line 320, is uninitialised and is returned when every child is skipped because it ranks below `x` | max heap roots 10 over 5, then 7: `find(7)` enters 10, skips 5 and returns the uninitialised pointer before reaching 7 | initialise both results to null | not executed | RootLists.UninitialisedFind | RootLists.FindRootsExact |
| include/MinFiboHeap.hpp:118-120 | the root case of `remove` writes `min - 1` into the root without moving `m_min` to it, so `removeTop` removes the old minimum and the sentinel stays | `add(1)`, `add(2)`, `remove(2)` leaves the heap holding 0 | move `m_min` to the root, as `MaxFiboHeap::remove` does at line 237 | not executed | MinFiboHeaps.SentinelKept | MinFiboHeaps.MinFiboHeap.Remove |
| include/MaxBinomHeap.hpp:187-189 | `add` calls `updateMax` before `merge`, and `basic_merge` may erase the root `m_max` names | `add(5)` twice: `m_max` names the erased root | call `updateMax` after `merge` | not executed | MaxBinomHeaps.TiedAdds | MaxBinomHeaps.MaxBinomHeap.Add |
| include/MaxBinomHeap.hpp:80 | `basic_merge` raises the degree of the tree that grows where it stands, so the multiset ordered by degree is left out of order | roots of degrees 0, 0, 1, 1 (the max heap after `add` of 7 down to 1 and `removeTop`): `merge` leaves them out of degree order | take the grown tree out and insert it again by its new degree | not executed | MaxBinomHeaps.MergeOutOfOrder | MaxBinomHeaps.Merge |
