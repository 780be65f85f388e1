# A Dafny model of the lab0-c string queue

`queue.c` implements a queue of C strings as an intrusive, circular,
doubly-linked list with a sentinel node. This project models every public
operation of that file as a transformation of the sequence of elements the
list holds, head first, and proves the properties the operations promise.

- `options.dfy` (`Options`): a NULL-able pointer as `Option`.
- `cstrings.dfy` (`CStrings`): strings are sequences of non-NUL bytes. The
  module models `strcmp`, proves that `strcmp(a, b) <= 0` is a total order
  and that it is the lexicographic order, and models `strncpy` together with
  reading a NUL-terminated string back out of a buffer.
- `elements.dfy` (`Elements`): `element_t` is an `Element`, with an `id`
  (the node's address) and a `value` (a string or NULL). The module models
  `element_new`, with both `malloc` outcomes given as parameters. It also
  defines sortedness and stability: for every string, the elements holding
  it keep their relative order. It proves that a sorted, stable
  rearrangement is unique, so sorting a sorted list leaves it unchanged.
- `queues.dfy` (`Queues`): the queue handle is `Option<seq<Element>>`, with
  None for a NULL head. The module covers insert and remove at both ends,
  including the truncating copy into the caller's buffer, and `q_size`. It
  proves insert/remove round trips.
- `edits.dfy` (`Edits`): `q_delete_mid` with its fast/slow pointer walk,
  `q_delete_dup` with its `last_dup` flag, `q_swap` and `q_reverse`, each as
  a loop that mirrors the source. Each is related to an independent
  description of its result.
- `shuffle.dfy` (`Shuffle`): `q_shuffle`, with the values `rand()` returns
  passed in as a parameter.
- `mergesort.dfy` (`MergeSort`): `merge` and the bottom-up driver of
  `q_sort`. The driver is modelled over a sequence of runs: each pass of
  the inner loop merges runs pairwise, and the outer loop repeats passes
  until one run remains.

Where the source handles NULL, it is modelled, not excluded: a NULL queue,
an empty queue, a NULL value, a NULL buffer and a failed allocation. Two
things are preconditions instead. Passing NULL to `strcmp` is undefined
behaviour, so sort and delete-duplicates require present values once the
list has two or more nodes. Writing `sp[bufsize - 1]` with `bufsize == 0`
is also undefined, so a remove that would do that is excluded.

`q_delete_dup`'s comment says it returns false only for a NULL queue. The
code also returns false for an empty queue, and the model follows the code.

## Model

| member | source | states |
|---|---|---|
| CStrings.Strcmp | queue.c:360-361 | `strcmp` is zero exactly when the two strings are equal |
| CStrings.StrcmpIsLexicographic | queue.c:360-363 | `strcmp(a, b) < 0` iff `a` is a proper prefix of `b` or is smaller at the first differing byte |
| CStrings.StrcmpAntisymmetric | queue.c:371-373 | swapping the arguments negates the result |
| CStrings.LeqReflexive | queue.c:363 | `strcmp(a, a) <= 0` |
| CStrings.LeqAntisymmetric | queue.c:363 | if each string is `<=` the other, they are equal |
| CStrings.LeqTransitive | queue.c:363 | the `<= 0` order is transitive |
| CStrings.LeqTotal | queue.c:363 | any two strings are comparable |
| CStrings.Strncpy | queue.c:119 | exactly `n` bytes are written: the string's bytes, then NUL padding |
| CStrings.StrncpyRoundTrip | queue.c:406-411 | copying `strlen(s) + 1` bytes and reading back gives `s` |
| Elements.ElementNew | queue.c:395-414 | returns an element iff the node allocation succeeds and, for a non-NULL string, the buffer allocation too; the element's value is `s`, or NULL when `s` is NULL |
| Elements.SortedStableUnique | queue.c:287-292 | two sorted lists with the same per-string order are equal, so sorting a sorted queue changes nothing |
| Queues.InsertHead | queue.c:64-73 | fails and leaves the queue unchanged iff the queue is NULL or allocation fails; otherwise the new element is first and the old elements follow untouched; distinct addresses stay distinct |
| Queues.InsertTail | queue.c:82-91 | as InsertHead, with the new element last |
| Queues.CopyOut | queue.c:119-120 | the buffer holds `bufsize` bytes, reads back as the first `min(len, bufsize - 1)` bytes of the value, and is NUL after that |
| Queues.RemoveHead | queue.c:107-122 | returns no element and leaves the queue unchanged iff the queue is NULL or empty; otherwise returns the first element, the rest remain, and the buffer receives the truncated copy iff the buffer and the value are both present |
| Queues.RemoveTail | queue.c:128-143 | as RemoveHead, for the last element |
| Queues.Size | queue.c:159-168 | the number of elements, 0 for NULL |
| Queues.InsertRemoveHead | queue.c:64-122 | inserting `s` at the head, then removing into a buffer of `len(s) + 1` bytes, returns the new element, the original queue and `s` |
| Queues.InsertRemoveTail | queue.c:82-143 | the same round trip at the tail |
| Edits.MiddleIndex | queue.c:182-185 | the fast/slow walk over `n >= 1` nodes stops with `slow` at index `n / 2` |
| Edits.DeleteMid | queue.c:177-189 | false and unchanged iff NULL or empty; otherwise exactly the element at index `n / 2` is removed and the others keep their order |
| Edits.DeleteDup | queue.c:200-220 | false and unchanged iff NULL or empty; otherwise keeps node `i` iff it equals neither original neighbour, in order |
| Edits.KeepAtSorted | queue.c:197-213 | on sorted input, a node survives iff no other node holds its string |
| Edits.DeleteDupSortedKeepsSingles | queue.c:191-220 | on sorted input the survivors are exactly the elements whose string occurs once, in order |
| Edits.Swap | queue.c:225-242 | the result is the list with adjacent pairs exchanged |
| Edits.SwapPairsAt | queue.c:236-241 | positions `2k` and `2k + 1` trade places |
| Edits.SwapPairsOddLast | queue.c:236 | an unpaired last element stays in place |
| Edits.SwapPairsPermutes | queue.c:238-240 | the swap keeps the same elements |
| Edits.SwapInvolutive | queue.c:225-242 | swapping twice restores the list, for every length |
| Edits.Reverse | queue.c:251-260 | the result holds the same elements with element `i` at position `n - 1 - i` |
| Edits.ReverseInvolutive | queue.c:251-260 | reversing twice restores the list |
| Shuffle.WalkAsWritten | queue.c:275-280 | the walk reaches the drawn node but takes at least half the ring |
| Shuffle.ShortWalk | queue.c:275-280 | the walk reaches the same node in at most half the ring |
| Shuffle.LongWayRound | queue.c:276-277 | with 10 nodes and a draw of 1, the code walks 9 links back instead of 1 forward |
| Shuffle.Round | queue.c:275-281 | one round removes one node from the ring and keeps all the others |
| Shuffle.Shuffle | queue.c:263-284 | the result is a permutation of the same elements, of the same length |
| MergeSort.Merge | queue.c:356-385 | the merged run holds exactly the elements of both runs |
| MergeSort.MergeInterleaves | queue.c:362-382 | the merge interleaves its inputs, keeping each input's internal order |
| MergeSort.MergeSorted | queue.c:356-385 | merging two sorted runs yields a sorted run |
| MergeSort.MergeStable | queue.c:362-375 | for sorted runs and every string, the left run's equal elements come before the right run's |
| MergeSort.Singletons | queue.c:319-325 | the initial runs are the single nodes, in list order |
| MergeSort.MergePass | queue.c:326-348 | a pass halves the number of runs (rounding up) and keeps every element |
| MergeSort.MergePassSorted | queue.c:331-348 | a pass keeps every run sorted |
| MergeSort.MergePassStable | queue.c:331-348 | a pass keeps each string's elements in their order |
| MergeSort.Sort | queue.c:292-351 | no-op for NULL, empty or single-node queues; otherwise the result is sorted, a permutation, stable and of the same length, and equals the input when the input was already sorted |

## Left out

- `q_new`, `q_free` and `q_release_element` (queue.c:24-55, 149-153) manage memory only. Releasing an element is modelled as dropping it from the sequence.
- The list primitives and pointer surgery behind `list_add`, `list_del`, `list_move` and splicing are left out. This includes `q_sort`'s reuse of `prev` to mark run ends (queue.c:319-349). A sequence satisfies the ring's link invariants by construction.
- The `cmp_count` counter and the unused `STACKSIZE` macro (queue.c:9-10) are instrumentation.
- The harness and tracing behind `harness.h` are not part of this model.
- Shuffle: only the permutation property is proved. The seeding `srand(time(NULL))` is left out, because the draws are a parameter. The uniform distribution of Fisher-Yates is not stated.
- Shuffle.Shuffle: uses the corrected walk (see Findings). It lands on the same node as the source's walk, so the result is the same.
- Elements.ElementNew: `int n = strlen(s) + 1` is a 32-bit `int`; for strings of `INT_MAX` bytes or more, `n` is negative or wraps, so the real `malloc` fails or the copy is an unterminated prefix. The model treats string length as unbounded and always promises `value == s` when both allocations succeed.
- Shuffle.Shuffle: `int n = q_size(head)` is likewise a 32-bit `int`; queues of more than `INT_MAX` elements are not modelled.
- Queues.Size: `count` is unsigned but returned as `int`; wrap-around beyond `INT_MAX` elements is not modelled.
- CStrings.Strcmp: returns the difference of the first differing bytes. C only fixes the sign, and the queue only uses the sign.
- MergeSort.Merge: requires every value in both runs to be present. The source never passes a spliced-on remainder to `strcmp`, but a NULL there is unreachable from `q_sort`, where every value is compared at least once.

## Findings

| source | as written | input that shows it | evidently intended | confidence | as-written member | corrected member |
|---|---|---|---|---|---|---|
| queue.c:276-277 | `dir = rnd > (n - i) / 2 ? 0 : 1`, and `dir == 1` walks `n - i - rnd` links through `prev` | 10 nodes left and a draw of 1: the code walks 9 links backwards where 1 link forwards reaches the same node | walk the shorter way round, at most `(n - i) / 2` links; correctness is unaffected, only the cost of the walk | high; not executed | Shuffle.WalkAsWritten, Shuffle.LongWayRound | Shuffle.ShortWalk |
