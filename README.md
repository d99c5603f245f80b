# A verified model of `queue.c`

`queue.c` implements a queue of strings as a singly linked list. A queue
handle (`queue_t`) holds `head`, `tail` and `size`. Each list element
(`list_ele_t`) owns a private copy of a C string and a `next` link. The
operations are:

- create;
- insert at the head and at the tail;
- remove the head, copying its string into a caller buffer of bounded size;
- size query;
- in-place reversal by relinking;
- in-place stable sort in `strcmp` order.

The sort is a hybrid merge sort. It cuts a chain in half with a slow and
a fast cursor and recursively `merge`s the halves. A half with at most 128 `next`
steps is sorted by `insertion_sort_list` instead.

The model keeps the program's form. Elements are a `Node` class with a
mutable `next` field. The queue is a `Queue` class with `head`, `tail` and
`size` fields. Every operation is a method that relinks the same nodes in the
same order as the C code, with the same branches and loops. Each method is
proved against functions on the ghost sequence of nodes in chain order:

- `Queue.Valid` is the representation invariant: `head` starts an acyclic
  chain through exactly those nodes, `size` counts them, `tail` is the last
  of them while the queue is not empty, and every node holds a NUL-free
  string.
- `Queue.Contents` is the strings in the queue, from head to tail.
- `Merged`, `Insert`, `StableSort`, `HybridSort` and `HalfSort` state what
  the list sorts compute.

The lemmas then prove what those functions promise:

- a merge of sorted chains is sorted, an interleaving of its inputs, and
  stable;
- the hybrid sort equals a reference stable insertion sort, whatever the
  threshold;
- a sequence that is sorted and a stable permutation of the input is unique;
- sorting a sorted queue changes nothing;
- reversing twice gives back the original;
- the string read back from the remove buffer is the removed string cut to
  `bufsize - 1` characters.

Files:

- `strings.dfy` (module `Strings`): C strings as the characters before the
  NUL, `strcmp` (ISO C11, section 7.24.4.2), `memset` (section 7.24.6.1) and
  `strncpy` (section 7.24.2.4).
- `chain.dfy` (module `Chains`): `Node` and facts about linked chains and
  reversal.
- `sort_spec.dfy` (module `SortSpec`): the functions that specify the sorts,
  and their lemmas.
- `sort.dfy` (module `Sorting`): `merge`, `merge_sort_list` and
  `insertion_sort_list` as methods on chains.
- `queue.dfy` (module `Queues`): `Queue` and the `q_*` operations.

Behaviour of `queue.c` worth noting:

- `q_remove_head` does not reset `tail` when it removes the last element.
  `tail` then still names the removed node, so the invariant constrains
  `tail` only when `size > 0`.
- The sort threshold counts `next` steps, that is length − 1. A half is
  recursed into when it has more than 129 nodes.
- `merge` recurses once for each node it takes while both chains are
  non-empty (queue.c:206-211), then returns the rest of the other chain whole
  (queue.c:201-204); the model keeps that recursion.
- `q_remove_head` with a NULL `sp` still removes the element but returns
  false (queue.c:136-141), although the header comment at queue.c:113-119
  says only that false means a NULL or empty queue.

`Queues.Queue.Valid`, the representation invariant described above, has no
row below because it is a definition without a contract of its own; every
queue operation requires it and ensures it again.

## Model

| member | source | states |
|---|---|---|
| Queues.Queue.constructor | queue.c:12-22 | `q_new`: a valid empty queue with `head` and `tail` NULL and `size` 0 |
| Chains.Node.constructor | queue.c:54-67 | a new `list_ele_t` holds the given string and `next` link |
| Queues.NewValue | queue.c:59-66 | the `strlen(s)+1` buffer cleared by `memset` and filled by `strncpy` reads back as exactly `s` |
| Queues.QInsertHead | queue.c:47-74 | false and nothing changed for a NULL queue; otherwise true, the strings become `[s] + old`, size grows by one, the new fresh node is the head, `tail` becomes that node only when the queue was empty, and the invariant holds |
| Queues.QInsertTail | queue.c:83-111 | false for a NULL queue; otherwise true, the strings become `old + [s]`, size grows by one, the fresh new node is the tail with `next == NULL`, and it is also the head when the queue was empty |
| Queues.LinkLast | queue.c:105 | linking a node outside the chain after its last node extends the chain by that node |
| Queues.QRemoveHead | queue.c:121-142 | false and no change for a NULL or empty queue; otherwise the strings become `old[1..]`, size drops by one, `tail` is unchanged, and the result is true exactly when `sp` is given; with `sp`, its first `bufsize` characters are the removed string padded by `strncpy` to `bufsize - 1` characters plus a NUL, nothing from `bufsize` on is written, and read back as a C string the buffer holds the first min(len, bufsize-1) characters |
| Queues.QSize | queue.c:148-154 | 0 for a NULL queue, otherwise the number of strings in the queue |
| Queues.QReverse | queue.c:163-191 | the nodes and strings are exactly reversed, size is unchanged, `head` and `tail` swap for a non-empty queue, a queue of at most one element keeps `head` and `tail`, and the invariant holds |
| Queues.ReverseTwo | queue.c:166-171 | the two-element relink gives the reversed chain starting at the old tail |
| Queues.ReverseLong | queue.c:172-185 | the walk with `tmp1`, `tmp2` and `tmp3` gives the reversed chain starting at the old tail |
| Queues.ReversedQueue | queue.c:163-191 | reversing keeps every string NUL-free, reverses the strings, keeps the length, and swaps first and last node |
| Chains.LinkedBackward | queue.c:178-185 | nodes each linked to their predecessor, the first one to NULL, form the chain of the reversed sequence |
| Chains.ReversedTwice | queue.c:163-191 | reversing twice restores the original order |
| Chains.ValuesReversed | queue.c:163-191 | the strings of the reversed nodes are the reversed strings |
| Queues.QSort | queue.c:300-312 | the nodes become `StableSort` of the old nodes, size is unchanged, and the invariant holds with `tail` recomputed to the last node; a queue of at most one element keeps `head` and `tail` |
| Queues.SortChain | queue.c:304-308 | `merge_sort_list` and the walk to the end give the stable sort of the chain and its last node |
| Queues.LastNode | queue.c:305-309 | the walk along `next` stops at the last node of the chain |
| Queues.SortedQueue | queue.c:300-312 | the sorted queue is ascending in `strcmp` order, a stable permutation holding the same multiset of strings, keeps the invariant, and equals the old order when that was already sorted |
| Queues.QFree | queue.c:25-38 | every node is released once, in chain order, and `head` ends NULL |
| Sorting.Merge | queue.c:199-213 | relinking two disjoint chains yields the chain of `Merged` of their nodes |
| Sorting.MergeSortList | queue.c:216-256 | the chain is relinked into `HybridSort` of its nodes |
| Sorting.Middle | queue.c:221-226 | the slow/fast walk stops `slow` on node ceil(n/2) - 1, the last node of the first half |
| Sorting.CutAfter | queue.c:227-228 | cutting after `slow` leaves two disjoint chains: the first ceil(n/2) nodes and the rest |
| Sorting.SortHalves | queue.c:230-255 | each half is sorted as `HalfSort` says and the results merged |
| Sorting.SortHalf | queue.c:237-241 | a half with more than 128 `next` steps is merge sorted, otherwise insertion sorted, as `HalfSort` |
| Sorting.Steps | queue.c:232-236 | the counting loop returns the number of `next` steps, length - 1 |
| Sorting.InsertionSortList | queue.c:258-298 | the chain is relinked into `StableSort` of its nodes |
| Sorting.Length | queue.c:262-268 | the counting loop returns the chain length |
| Sorting.InsertStep | queue.c:275-294 | one outer iteration moves the current node to its `Insert` position in the sorted prefix and leaves `tail` on the last sorted node |
| Sorting.FindPlace | queue.c:275-282 | the scan stops at the first sorted node whose string is greater than the current one, which is where `Insert` puts it, with `prev` just before it |
| Sorting.InsertFront | queue.c:283-286 | a node smaller than the whole sorted prefix becomes the new head |
| Sorting.InsertAfter | queue.c:289-292 | the node is spliced between positions j-1 and j of the sorted prefix |
| SortSpec.Merged | queue.c:199-213 | the merge holds exactly the nodes of both inputs |
| SortSpec.MergedSorted | queue.c:199-213 | merging two ascending sequences gives an ascending sequence |
| SortSpec.MergedInterleaves | queue.c:199-213 | the merge is an interleaving: its nodes from either input appear in that input's order |
| SortSpec.MergedFilter | queue.c:206 | ties go to `l1`: the equal-string nodes of the first input precede those of the second |
| SortSpec.Insert | queue.c:277-293 | insertion adds exactly the one node |
| SortSpec.InsertAt | queue.c:277-282 | insertion puts the node after every node not greater than it, before the first greater one |
| SortSpec.InsertSorted | queue.c:277-293 | inserting into an ascending sequence keeps it ascending |
| SortSpec.InsertFilter | queue.c:277 | the inserted node follows all equal-string nodes already sorted |
| SortSpec.StableSort | queue.c:258-298 | the reference sort is a permutation of its input |
| SortSpec.StableSortCorrect | queue.c:258-298 | the reference sort is ascending and a stable permutation |
| SortSpec.SortedUnique | queue.c:193-197 | two ascending stable permutations of each other are equal |
| SortSpec.StableSortCharacterized | queue.c:193-197 | a sequence is the stable sort of `s` exactly when it is ascending and a stable permutation of `s` |
| SortSpec.StableSortOfSorted | queue.c:300-312 | sorting an ascending sequence leaves it as it is |
| SortSpec.StableSortIdempotent | queue.c:300-312 | sorting twice is sorting once |
| SortSpec.MergeOfSorted | queue.c:255 | merging the stable sorts of the two halves gives the stable sort of the whole |
| SortSpec.HybridSort | queue.c:216-256 | the hybrid sort is a permutation of its input |
| SortSpec.HalfSort | queue.c:237-253 | sorting a half is a permutation of it |
| SortSpec.HybridSortIsStableSort | queue.c:216-256 | the hybrid sort equals the reference stable sort, for any threshold |
| SortSpec.StableValues | queue.c:300-312 | a stable permutation of the nodes permutes their strings |
| Strings.Strcmp | queue.c:206 | `strcmp` is -1, 0 or 1 and 0 exactly for equal strings |
| Strings.StrcmpSwap | queue.c:206 | swapping the arguments negates `strcmp` |
| Strings.LeTotal | queue.c:206 | any two strings are ordered one way or the other |
| Strings.LeAntisymmetric | queue.c:206 | strings each at most the other are equal |
| Strings.LeTransitive | queue.c:206 | the `strcmp` order is transitive |
| Strings.Memset | queue.c:130 | `memset` sets the first `n` characters and writes nothing after them |
| Strings.Strncpy | queue.c:131 | `strncpy` writes the string's characters, then NULs, up to `n`, and nothing after them |
| Strings.PaddedReadBack | queue.c:129-131 | reading back what `strncpy` wrote before a NUL gives the first min(len, n) characters |

## Left out

- Allocation failure (queue.c:14-16, 57-58, 61-64, 91-92, 95-98): allocation in Dafny cannot fail, so `q_new` always returns a queue and inserts into a non-NULL queue always succeed.
- Memory release: `free` has no counterpart under a garbage-collected heap. `QFree` models `q_free` as the walk that releases each node once. The freed queue handle itself is not modelled.
- `harness.h` and `queue.h` are not part of this model. The layouts of `list_ele_t` and `queue_t` are taken from their use in queue.c.
- Integer widths: `size` and `buff_size` are unbounded integers. The model does not capture `int` overflow of `++q->size` or of `strlen(s) + 1` for huge strings.
- QRemoveHead: requires `1 <= bufsize <= sp.Length` when `sp` is given. The C code passes `bufsize - 1` to `strncpy` as a `size_t`, which wraps for `bufsize == 0`, and a buffer shorter than `bufsize` is undefined behaviour in C.
- Strings.Strcmp: returns only the sign of the comparison (-1, 0 or 1), which is all ISO C promises.
- Recursion depth and running time: the stack usage of `merge` and `merge_sort_list` and the speed role of the threshold are not modelled.
- Aliasing between the caller buffer `sp` and a node's string is ruled out by the types: strings stored in nodes are values.
