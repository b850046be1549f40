# cstruct containers in Dafny

A model of the container core of the cstruct C library, with proofs about it:

- **comparator.c**: the byte-wise lexicographic comparators `compare_lex` and `compare_lex_to`.
- **binary_tree.c**: an unbalanced binary search tree. Its payloads are byte strings, ordered by a pluggable comparator. Every operation goes through a *slot*, the `struct binary_tree_node **` link that `binary_tree_find` returns.
- **binary_tree_iterator.c**: a forward or reverse in-order walk driven by an explicit stack. The stack lives in a `buffer`.
- **buffer.c**: a growable array of fixed-size items.
- **linked_list.c**: a circular doubly-linked list, reached through a pointer to its head.
- **block_alloc.c**: a slab allocator. It keeps a list of blocks of 64 item slots, each with a bit mask of free slots.

How the C is modelled:

- A payload is a `seq<Char>`. `Char` is a signed 8-bit byte, so `*ap - *bp` in the comparators is a difference of values in -128..127.
- The tree is the datatype `Tree`. A slot is a path of child directions from the root link: `false` is `children[0]`, `true` is `children[1]`.
- The tree handle is a class whose methods rewrite `root` and `size`. What they do to the links is stated through `SetAt`, `InsertKey`, `InsertSubtree`, `DeleteAt` and `ReplaceKey`. The order lemmas relate those functions to the in-order sequence.
- The list ring is the sequence of its items, read from the head along `next`. Inserting before the head therefore appends.
- Allocator pointers are `Handle`s: a block and a slot index. The byte arithmetic of the addresses is proved separately (`ItemsInBlock`, `SlotOfAddress`).
- Destructor calls and `free` are recorded in ghost logs: `destroyed` for the tree, `freed` for the list, `released` for the allocator.
- Callbacks are function parameters without side effects. A stateful callback threads its state explicitly (`EachS`). A transformer returns the payloads it appends to the output list.

Where a header comment and the code disagree, the model follows the code:

- `compare_lex_to` does not stop at `end`. When both strings have `end` at the same place, it keeps comparing the bytes after it. `CompareLexToSkipsCommonPrefix` states this.
- `list_empty` returns true for a non-NULL list. That behaviour is modelled as written (`EmptyAsWritten`) and also as its name intends (`Empty`); see Findings.

## Model

| member | source | states |
|---|---|---|
| Comparator.CompareLexZeroIff | comparator.c:3-21 | compare_lex is 0 exactly when the two strings have the same length and the same bytes |
| Comparator.CompareLexPrefix | comparator.c:9-14 | a proper prefix compares -1 against its extension, and the extension +1 against it |
| Comparator.CompareLexFirstDifference | comparator.c:15-18 | after a common prefix, the result is the difference of the first pair of differing bytes |
| Comparator.CompareLexAntisymmetric | comparator.c:3-21 | swapping the operands negates the result |
| Comparator.CompareLexTransitive | comparator.c:3-21 | "less than" under compare_lex is transitive |
| Comparator.CompareLexIsStrictWeakOrder | comparator.c:3-21 | compare_lex meets the contract a tree comparator needs |
| Comparator.CompareLexToZeroIff | comparator.c:23-46 | compare_lex_to is 0 exactly for identical strings |
| Comparator.CompareLexToEndRanksLowest | comparator.c:35-39 | at the first position where exactly one string holds `end`, that string is the smaller |
| Comparator.CompareLexToSkipsCommonPrefix | comparator.c:28-45 | a shared prefix, even one containing `end`, does not affect the result: the scan does not stop at `end` |
| Comparator.CompareLexToWithoutEnd | comparator.c:23-46 | when neither string contains `end`, compare_lex_to agrees with compare_lex |
| Comparator.CompareLexToAntisymmetric | comparator.c:23-46 | swapping the operands negates the result |
| Comparator.CompareLexToTransitive | comparator.c:23-46 | "less than" under compare_lex_to is transitive |
| Comparator.CompareLexToIsStrictWeakOrder | comparator.c:23-46 | compare_lex_to, for any `end`, meets the contract a tree comparator needs |
| TreeNodes.CountIsLength | binary_tree.c:37-40 | the node count the handle keeps equals the length of the in-order sequence |
| TreeNodes.PostOrderPermutesInOrder | binary_tree.c:114-124 | prune's children-first destruction order reaches every payload exactly once |
| TreeNodes.InOrderAround | binary_tree.c:61-78 | writing one slot changes the in-order sequence only between what lies before and after that slot |
| TreeNodes.OrderedIffSorted | binary_tree.c:201-212 | the search-tree invariant (left subtree below the node, right subtree above, everywhere) holds exactly when the in-order sequence is strictly increasing |
| TreeNodes.FindPath | binary_tree.c:201-212 | find stops at a slot of the tree that holds NULL or a node comparing equal to the key |
| TreeNodes.FindPathStep | binary_tree.c:204-209 | past a node that does not match, find goes on into children[1] on a positive comparison and children[0] on a negative one |
| TreeNodes.FindPathFinds | binary_tree.c:201-212 | on an ordered tree, find stops at a node exactly when some payload compares equal to the key |
| TreeNodes.SubtreeRoutes | binary_tree.c:204-209 | in an ordered tree, find's comparisons send every payload below a slot down to that slot |
| TreeNodes.RoutedBetween | binary_tree.c:204-209 | a key that find sends to a slot is above everything before the slot and below everything after it |
| TreeNodes.InsertKeyInOrder | binary_tree.c:131-142 | insert into an ordered tree: a present key changes nothing; an absent key is added to the in-order sequence once, at the place that keeps it sorted; the count grows by one exactly then |
| TreeNodes.InsertAbsentInOrder | binary_tree.c:133-140 | the leaf for an absent key lands between the payloads before and after the empty slot find reaches, and the tree stays sorted |
| TreeNodes.GraftInOrder | binary_tree.c:186-187 | hanging the right subtree on the left one's rightmost link keeps the two in-order sequences one after the other |
| TreeNodes.DeleteLeftStep | binary_tree.c:185-186 | after the node is destroyed, re-inserting its left subtree from the root puts it back in the vacated slot |
| TreeNodes.DeleteRightStep | binary_tree.c:187 | re-inserting the right subtree from the root puts it on the rightmost empty link of the left subtree |
| TreeNodes.DeleteAtShape | binary_tree.c:174-189 | delete by re-insertion replaces the node by its left subtree with its right subtree grafted on |
| TreeNodes.DeleteAtInOrder | binary_tree.c:174-189 | delete from an ordered tree removes exactly the payload at the slot from the in-order sequence, keeps it sorted and counts one node fewer |
| TreeNodes.RemoveKeyAbsent | binary_tree.c:169-172 | after remove(k), no payload compares equal to k |
| TreeNodes.SortedUnlinkChildren | binary_tree.c:158-161 | unlinking both children of a node keeps the rest of an ordered tree ordered |
| TreeNodes.ReplaceKeyInOrder | binary_tree.c:151-167 | replace in an ordered tree: an absent key is an insert; a present key's payload is exchanged for k at the same position; the tree stays sorted; the count grows only for an absent key |
| BinaryTree.Key | binary_tree.c:20-24 | the bytes compared are a prefix of the payload, and the whole payload when there is no extractor |
| BinaryTree.DefaultCompare | binary_tree.c:18-26 | the default comparator is 0 exactly when the selected key prefixes are equal |
| BinaryTree.DefaultCompareIsStrictWeakOrder | binary_tree.c:18-26 | the default comparator, with or without an extractor, meets the tree's comparator contract |
| BinaryTree.FirstSomeIsFirst | binary_tree.c:224-243 | the first non-NULL result is the earliest non-NULL visit, and the result is NULL only when every visit is |
| BinaryTree.RecurseIter | binary_tree.c:224-243 | recurse_iter returns the first non-NULL visit over the in-order sequence |
| BinaryTree.NodeDataAsWritten | binary_tree.c:42-54 | node_data on a NULL slot dereferences it; on an empty link it gives NULL |
| BinaryTree.NodeData | binary_tree.c:42-54 | no payload and length 0 for a NULL or empty slot; otherwise the node's payload and its length; as written whenever the slot is not NULL |
| BinaryTree.ReplacedSizeAsWrittenIsWrong | binary_tree.c:151-167 | as written, replace leaves a correct count exactly when the replaced node has two children |
| BinaryTree.ReplaceLeafMiscounts | binary_tree.c:163-165 | replacing the payload of a one-node tree leaves, as written, a count of 3 for one node |
| BinaryTree.BinaryTree.constructor | binary_tree.c:28-35 | an empty tree with the given comparator, or the default one with the given argument |
| BinaryTree.BinaryTree.Size | binary_tree.c:37-40 | the size is the number of payloads in the tree |
| BinaryTree.BinaryTree.Empty | binary_tree.c:259-262 | empty exactly when there are no payloads, and on a valid tree when the size is 0 |
| BinaryTree.BinaryTree.SetNode | binary_tree.c:61-65 | corrected, see Findings: writes the slot and counts the node only when it is not NULL, where the C counts one even for NULL (as written: SetNodeAsWritten) |
| BinaryTree.BinaryTree.SetNodeAsWritten | binary_tree.c:61-65 | writes the slot and counts one node even for NULL |
| BinaryTree.BinaryTree.UnsetNode | binary_tree.c:67-78 | empties the slot, returns what it held, and counts one node fewer exactly when that was a node |
| BinaryTree.BinaryTree.DoDestroy | binary_tree.c:89-99 | empties the slot and, when it held a node, passes that node's payload to the destructor once |
| BinaryTree.BinaryTree.Find | binary_tree.c:201-212 | the loop reaches find's slot without changing the tree; on an ordered tree the slot holds a node exactly when the key is present |
| BinaryTree.BinaryTree.DoInsert | binary_tree.c:101-112 | hangs the subtree at the slot found for its root when that slot is empty; the result says whether it did |
| BinaryTree.BinaryTree.Insert | binary_tree.c:131-142 | returns find's slot; a present key changes nothing; an absent key gets a new leaf holding a copy of it, in sorted position, and the size grows by one |
| BinaryTree.BinaryTree.InsertNew | binary_tree.c:144-149 | true exactly when the key was absent; afterwards the key is present |
| BinaryTree.BinaryTree.UnlinkChildren | binary_tree.c:181-184 | detaches both children of the node and counts the nodes at their roots out |
| BinaryTree.BinaryTree.Relink | binary_tree.c:163-165 | corrected, see Findings: puts a node for k with the old children in the slot, counting only real nodes, where the C adds 3 (as written: RelinkAsWritten) |
| BinaryTree.BinaryTree.RelinkAsWritten | binary_tree.c:163-165 | the same links, but the count grows by 3 whatever the children are |
| BinaryTree.BinaryTree.Delete | binary_tree.c:174-189 | false and no change on an empty slot; otherwise the node's payload goes to the destructor, the size drops by one, and the in-order sequence loses exactly that payload and stays sorted |
| BinaryTree.BinaryTree.Reattach | binary_tree.c:180-187 | the link work of delete on a node gives the delete-by-re-insertion tree, one node fewer, and one destructor call |
| BinaryTree.BinaryTree.Remove | binary_tree.c:169-172 | true exactly when an equal key was present; afterwards none is; the size drops by one exactly then, and the destructor receives the payload of the node find reached |
| BinaryTree.BinaryTree.Replace | binary_tree.c:151-167 | false and an insert when the key is absent; when present, the equal payload goes to the destructor and k takes its place in the in-order sequence, with the size unchanged |
| BinaryTree.BinaryTree.ReplaceAsWritten | binary_tree.c:151-167 | the same links, with the size replace leaves as written |
| BinaryTree.BinaryTree.Get | binary_tree.c:191-194 | an equal payload from the tree and its length, or NULL with length 0 exactly when the key is absent |
| BinaryTree.BinaryTree.MinNode | binary_tree.c:286-293 | NULL exactly on an empty tree; otherwise the slot of the first payload in order |
| BinaryTree.BinaryTree.MaxNode | binary_tree.c:295-302 | NULL exactly on an empty tree; otherwise the slot of the last payload in order |
| BinaryTree.BinaryTree.Min | binary_tree.c:266-269 | corrected, see Findings: the first payload in order, smaller than all others, with its length; none on an empty tree, where the C dereferences NULL (as written: MinAsWritten) |
| BinaryTree.BinaryTree.MinAsWritten | binary_tree.c:266-269 | as written: node_data on min_node's slot is a NULL dereference exactly when the tree is empty, and otherwise gives the first payload in order with its length |
| BinaryTree.BinaryTree.Max | binary_tree.c:271-274 | corrected, see Findings: the last payload in order, greater than all others, with its length; none on an empty tree, where the C dereferences NULL (as written: MaxAsWritten) |
| BinaryTree.BinaryTree.MaxAsWritten | binary_tree.c:271-274 | as written: node_data on max_node's slot is a NULL dereference exactly when the tree is empty, and otherwise gives the last payload in order with its length |
| BinaryTree.BinaryTree.Each | binary_tree.c:245-252 | the first non-NULL visit over the payloads in order |
| BinaryTree.BinaryTree.Prune | binary_tree.c:114-124 | empties the slot, destroying everything below it children first, and counts those nodes out |
| BinaryTree.BinaryTree.Clear | binary_tree.c:126-129 | the tree becomes empty with size 0, every payload destroyed once, in post-order |
| BinaryTree.BinaryTree.Destroy | binary_tree.c:254-257 | the same as clear |
| BinaryTreeIterator.RevInOrderIsReverse | binary_tree_iterator.c:15 | walking children[1] first visits the payloads in exactly the reverse in-order |
| BinaryTreeIterator.EnterStep | binary_tree_iterator.c:15-17 | one push of enter leaves the total of what is still to come unchanged |
| BinaryTreeIterator.PendingEmpty | binary_tree_iterator.c:30-32 | a stack of nodes has nothing left to yield exactly when it is empty |
| BinaryTreeIterator.Iterator.constructor | binary_tree_iterator.c:20-25 | a fresh iterator has the whole tree, in the chosen direction, still to yield |
| BinaryTreeIterator.Iterator.PushNode | binary_tree_iterator.c:16 | pushes one node onto the stack |
| BinaryTreeIterator.Iterator.Enter | binary_tree_iterator.c:13-18 | entering a subtree puts its payloads, in walk order, before what was still to come |
| BinaryTreeIterator.Iterator.NextNode | binary_tree_iterator.c:27-35 | NULL and no change once the walk is over; otherwise the next payload's node, which leaves the walk |
| BinaryTreeIterator.Iterator.Next | binary_tree_iterator.c:37-47 | the next payload in walk order and its length; NULL once the walk is over |
| BinaryTreeIterator.Drain | binary_tree_iterator.c:97-99 | calling next until NULL collects exactly what the iterator had still to yield |
| BinaryTreeIterator.Walk | binary_tree_iterator.c:92-108 | a forward walk yields the in-order sequence, strictly increasing on a valid tree, and a reverse walk yields it backwards |
| Buffer.ReallocShrinkOverruns | buffer.c:23-25 | as written, shrinking below the length leaves more items in use than the new capacity holds |
| Buffer.ReallocShrinkExample | buffer.c:23-25 | 3 items in 4 slots, reallocated to 2, claim 4 items |
| Buffer.Buffer.constructor | buffer.c:3-11 | no items, and the requested capacity |
| Buffer.Buffer.Alloc | buffer.c:13-19 | the capacity only grows, to the requested minimum, and the items stay |
| Buffer.Buffer.Realloc | buffer.c:21-28 | corrected, see Findings: the capacity becomes exactly the request, and the length is cut to the new capacity with the leading items kept, where the C sets it to the old capacity (as written: ReallocLengthAsWritten, ReallocShrinkOverruns) |
| Buffer.Buffer.Resize | buffer.c:30-34 | the length becomes the requested size, earlier items stay, and the capacity grows only when needed |
| Buffer.Buffer.Get | buffer.c:56-62 | the item at the index, or NULL exactly when the index is past the length |
| Buffer.Buffer.RGet | buffer.c:64-70 | the same as get |
| Buffer.Buffer.Head | buffer.c:92-98 | the first item, or NULL exactly when empty |
| Buffer.Buffer.Tail | buffer.c:100-106 | the last item, or NULL exactly when empty |
| Buffer.Buffer.Push | buffer.c:128-140 | appends the item at the old length, growing a full buffer by allocby * item_size first, and leaves earlier items alone |
| Buffer.Buffer.Pop | buffer.c:142-152 | false and no change when empty; otherwise hands back the last item and drops it, with the capacity unchanged |
| Buffer.PushPop | buffer.c:128-152 | a push and then a pop hand the item back and leave the items as they were |
| Buffer.Buffer.Clear | buffer.c:72-75 | no items, same capacity |
| Buffer.Buffer.Size | buffer.c:77-80 | the number of items in use |
| Buffer.Buffer.Empty | buffer.c:82-85 | true exactly when no items are in use |
| LinkedList.Item.constructor | linked_list.c:30-38 | a new item holding a copy of the payload |
| LinkedList.InsertedAfterUndone | linked_list.c:72-84 | inserting after the head keeps the head (or makes a one-item ring), adds one item, and removing it gives the ring back |
| LinkedList.InsertedBeforeUndone | linked_list.c:86-98 | inserting before the head keeps the head, puts the item last, and removing it gives the ring back |
| LinkedList.RingPermutes | linked_list.c:141-154 | a walk round the ring from any item visits every item once |
| LinkedList.RingFind | linked_list.c:232-237 | every item of the ring is met on a walk from any start |
| LinkedList.FirstWhere | linked_list.c:232-237 | the position of the first item whose payload passes, with none passing before it |
| LinkedList.FoldConcat | linked_list.c:148-152 | a stateful walk over two runs is the walk over the second started from the state after the first |
| LinkedList.ExpandCopies | linked_list.c:193-196 | a transformer that passes each payload through copies the list |
| LinkedList.ExpandDrops | linked_list.c:193-196 | a transformer that drops each payload gives an empty list |
| LinkedList.KeptMember | linked_list.c:161-179 | an item survives filtering exactly when it was in the list and passes |
| LinkedList.KeptPasses | linked_list.c:161-179 | when every payload passes, filtering keeps everything |
| LinkedList.KeptDroppedCount | linked_list.c:161-179 | the kept and the removed items together are the whole list |
| LinkedList.KeptIdempotent | linked_list.c:161-179 | filtering twice with the same predicate removes nothing more |
| LinkedList.FilterSecondLapExample | linked_list.c:176-177 | a ring of three whose last alone fails calls the predicate five times |
| LinkedList.FilterLoopEnd | linked_list.c:169-178 | where the loop stops, exactly the passing items are left, in order, the others are freed, and the predicate has been called once per item plus once more per survivor when the last item was removed |
| LinkedList.FilterLoopSecondLap | linked_list.c:176-177 | after the last item of the ring is removed with survivors left, the loop starts a second pass over them |
| LinkedList.List.EmptyAsWritten | linked_list.c:53-56 | true exactly when the list is NOT NULL |
| LinkedList.List.Empty | linked_list.c:53-56 | true exactly when the list is NULL |
| LinkedList.List.Length | linked_list.c:58-70 | the number of items round the ring, 0 for NULL |
| LinkedList.List.ItemInsertAfter | linked_list.c:72-84 | links the item in right after the head, or as the only item |
| LinkedList.List.ItemInsertBefore | linked_list.c:86-98 | links the item in just before the head, that is, last |
| LinkedList.List.InsertAfter | linked_list.c:100-105 | a new item holding the payload, right after the head |
| LinkedList.List.InsertBefore | linked_list.c:107-112 | a new item holding the payload, at the end of the ring |
| LinkedList.List.ItemRemove | linked_list.c:40-51 | unlinks the item and keeps the others in order; the head becomes NULL if it was alone, or moves on if it was the head |
| LinkedList.List.Remove | linked_list.c:114-118 | unlinks the item and frees it |
| LinkedList.List.Destroy | linked_list.c:120-125 | every item is freed, in ring order, and the list is NULL |
| LinkedList.List.Concatenate | linked_list.c:127-134 | the other list's items move, in order, to the end of this one, and the other becomes NULL |
| LinkedList.List.EachS | linked_list.c:141-154 | 0 calls for NULL; otherwise one call per item round the ring from start, threading the state through |
| LinkedList.List.FirstS | linked_list.c:226-239 | the first item round the ring from start whose payload passes; NULL exactly when none does or start is NULL |
| LinkedList.List.Visit | linked_list.c:170-175 | one test: a failing item is removed and freed, a passing one stays |
| LinkedList.List.VisitInPass | linked_list.c:170-175 | the same test, as one step of a pass over the ring |
| LinkedList.List.FilterTurn | linked_list.c:169-177 | one turn of the loop: the test, the step to the successor, and the loop's condition |
| LinkedList.List.FilterAsWrittenTurn | linked_list.c:169-177 | one turn seen from its pass: a second pass removes nothing, and the loop goes past the end only when the last item was removed |
| LinkedList.List.FilterAsWritten | linked_list.c:161-179 | keeps exactly the passing items in order, frees the rest, returns how many it removed, and retests the survivors when the last item was removed |
| LinkedList.List.Filter | linked_list.c:161-179 | corrected, see Findings: the same effect with each item examined exactly once, where the C examines every survivor a second time after removing the last item of the ring (as written: FilterAsWritten, FilterLoopEnd) |
| LinkedList.List.AppendAll | linked_list.c:194 | a transformer's output calls append new items holding its payloads, in order |
| LinkedList.List.MapS | linked_list.c:186-198 | a new list whose payloads are the transformer's output over the ring from start; this list is unchanged |
| LinkedList.List.TransformS | linked_list.c:205-219 | the list becomes the transformer's output over its payloads, every old item is freed, and the count is the old length |
| BlockAlloc.ScanMask | block_alloc.c:72-75 | the scan finds the lowest free slot |
| BlockAlloc.ItemsInBlock | block_alloc.c:17 | the item slots lie after the header, one after another without overlap, inside block_size |
| BlockAlloc.SlotOfAddress | block_alloc.c:91 | every byte of the item in a slot gives that slot back through delete's division |
| BlockAlloc.BlockDeleteAsWrittenInner | block_alloc.c:49-59 | as written, block_delete unlinks correctly the only block or one with neighbours on both sides |
| BlockAlloc.BlockDeleteAsWrittenLosesBlocks | block_alloc.c:51-53 | as written, deleting the head of two or more blocks empties the whole list |
| BlockAlloc.BlockDeleteAsWrittenFaults | block_alloc.c:55-56 | as written, deleting the tail of two or more blocks dereferences NULL |
| BlockAlloc.Flipped | block_alloc.c:92 | toggling one member of a set: it flips, the rest stay |
| BlockAlloc.Block.constructor | block_alloc.c:34-36 | a new block has every slot free |
| BlockAlloc.Allocator.constructor | block_alloc.c:14-20 | no blocks, nothing allocated, and block_size the header plus 64 items |
| BlockAlloc.Allocator.Destroy | block_alloc.c:22-30 | every block is freed, head to tail |
| BlockAlloc.Allocator.BlockNew | block_alloc.c:32-47 | a new block with every slot free becomes the tail; nothing else changes |
| BlockAlloc.Allocator.BlockDelete | block_alloc.c:49-59 | corrected, see Findings: the block is unlinked and freed and the others stay in order, where the C drops every block when it deletes the head of several and writes through NULL when it deletes a tail that is not the head (as written: BlockDeleteAsWritten, BlockDeleteAsWrittenLosesBlocks, BlockDeleteAsWrittenFaults) |
| BlockAlloc.Allocator.New | block_alloc.c:61-78 | a slot that was free is now allocated, and nothing else changes; it is the lowest free slot of the tail, or slot 0 of a new tail when there was none or it was full |
| BlockAlloc.Allocator.TakeSlot | block_alloc.c:72-77 | takes the lowest free slot of the block and hands it out |
| BlockAlloc.Allocator.Delete | block_alloc.c:80-98 | a handle that fails every block's address test (in no block, past the 64 slots, or item_size 0) changes nothing; otherwise its bit flips, so a free slot becomes allocated again; corrected, see Findings: a block left with every slot free is unlinked and freed through the corrected BlockDelete, where the C can lose the other blocks or write through NULL (as written: BlockDeleteAsWrittenLosesBlocks, BlockDeleteAsWrittenFaults) |
| BlockAlloc.ItemInBlockIff | block_alloc.c:85-90 | the address test against block_size (header plus 64 items, line 17) holds for an item exactly when its slot is below 64 and item_size is not 0 |
| BlockAlloc.Allocator.Release | block_alloc.c:92-95 | flips the slot's bit in the block found; corrected, see Findings: frees the block when every slot is free through the corrected BlockDelete, where the C's block_delete can lose the other blocks or write through NULL (as written: BlockDeleteAsWrittenLosesBlocks, BlockDeleteAsWrittenFaults) |

## Left out

- Allocation failure: `malloc` and `realloc` are taken to succeed. `do_create` never checks, and `item_alloc` exits with code 12.
- Destructor, visitor, predicate and transformer callbacks are side-effect-free functions. A stateful callback threads its state as a value. Destructor calls and `free` are ghost logs.
- A list transformer is a function from a payload to the payloads it appends to the output list. The model does not cover a callback that edits the output list any other way.
- LinkedList.List.EachS, FirstS, MapS and TransformS model the `_s` functions. The stateless `list_each`, `list_filter`, `list_first`, `list_map` and `list_transform` only wrap them with a proxy callback.
- `list_count` and `list_count_s` are declared in linked_list.h but never defined.
- `item_alloc` never sets `item->length`. The model keeps only the payload.
- LinkedList.List.Concatenate requires two distinct lists with no item in common. Concatenating a list onto itself would loop for ever.
- Raw addresses in the allocator are `Handle`s (block, slot). `ItemsInBlock` and `SlotOfAddress` cover the address arithmetic.
- BlockAlloc.Allocator.Delete: an address inside a block's header, or one not at the start of an item, is not expressible as a handle.
- The allocator's mask is 64 bits wide, as on a 64-bit target. `HeaderSize` is the 24 bytes of mask, `prev` and `next` there.
- Blocks freed by `block_alloc_destroy` stay in the block list, with their pointers dangling, as in the C.
- BinaryTree.BinaryTree.Delete, Insert, InsertNew, Remove, Replace, Get, Min and Max require a tree that is ordered under a valid comparator. On an unordered tree, delete's re-insertions may land elsewhere, and the model does not describe where.
- Comparators are required to be strict weak orders. The C trusts any function it is given.
- BinaryTree.KeyLength: the extractor's result is at most the payload's length. A larger result would make `compare_lex` read past the payload.
- `unset_node` on a NULL slot: no modelled caller passes one.
- The NULL `isnew` and `length` out-parameters are left out. Every call is modelled as if they were given.
- The const wrappers are left out: `binary_tree_cget`, `cfind`, `cmin`, `cmax`, `cmin_node`, `cmax_node`, `node_cdata`, `buffer_cdata`, `cptr`, `chead`, `ctail`, `cend`. They forward to the modelled functions.
- `buffer_data`, `buffer_ptr`, `buffer_end`, `buffer_destroy` and `binary_tree_iter_destroy` only expose or free memory.
- Buffer.Buffer.Push requires that a full buffer can grow (`allocby * item_size > 0`). Otherwise the C writes past the allocation.
- Buffer items are values of a type parameter. The `memcpy` of `item_size` bytes is an assignment.
- The iterator's stack holds the subtrees as they were when each was pushed. Changing the tree while it is iterated is not modelled.
- The `printf` test drivers are left out. Walk and Drain follow the iterator test's loop.
- dynamic_array.c duplicates buffer.c with different behaviour and is not part of this model.
- Integer widths: `size` fields are unbounded naturals. The comparators return differences of signed 8-bit bytes.

## Findings

| source | as written | input that shows it | evidently intended | confidence | as-written member | corrected member |
|---|---|---|---|---|---|---|
| binary_tree.c:163-165 | replace re-links the old children with `set_node`, which counts a NULL child as a node | a one-node tree holding [1]; replace([1]) leaves size 3 for one node | the size counts nodes, as insert and delete keep it | not executed | BinaryTree.ReplacedSizeAsWrittenIsWrong | BinaryTree.BinaryTree.Replace |
| binary_tree.c:266-274 | min and max hand `node_data` the slot from min_node/max_node, which is NULL on an empty tree, and `node_data` dereferences it | binary_tree_min on an empty tree | NULL with length 0, as get does on a miss | not executed | BinaryTree.BinaryTree.MinAsWritten | BinaryTree.NodeData |
| buffer.c:23-25 | shrinking below the length sets the length to the OLD capacity | 3 items in 4 slots, realloc to 2: length 4 in 2 slots | the length is cut to the new capacity | not executed | Buffer.ReallocShrinkOverruns | Buffer.Buffer.Realloc |
| block_alloc.c:51-53 | block_delete on the head block sets head and tail to NULL | two blocks, every slot of the head freed: the second block and its items are lost | unlink only the head | not executed | BlockAlloc.BlockDeleteAsWrittenLosesBlocks | BlockAlloc.Allocator.BlockDelete |
| block_alloc.c:55-56 | block_delete on a tail that is not the head writes through its NULL `next` | two blocks, every slot of the tail freed | move the tail back to the previous block | not executed | BlockAlloc.BlockDeleteAsWrittenFaults | BlockAlloc.Allocator.BlockDelete |
| linked_list.c:176-177 | after the last item of the ring is removed, `remove` stays set and the loop tests every survivor again | payloads [1], [2], [3], keeping all but [3]: five predicate calls | one test per item | not executed | LinkedList.List.FilterAsWritten | LinkedList.List.Filter |
| linked_list.c:53-56 | list_empty returns `list != NULL` | a NULL list: list_empty is false | true for a NULL list | not executed | LinkedList.List.EmptyAsWritten | LinkedList.List.Empty |
