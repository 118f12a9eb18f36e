# concurrentQueue, sequentially

A Dafny model of `concurrentQueue<T>`, a FIFO queue built on Tim Harris's
linked list with logically deleted ("marked") nodes. The model treats every
operation as running alone, as the library's `single_thread` test case does.
It follows the build the header selects (`SYNC_RECL_METHOD 2`: lock-free, no
reclamation). The reference-counted build is kept wherever it changes the
node's control word.

Two pieces are modelled.

- **The control block** (`control_block.dfy`, module `ControlBlock`). One
  64-bit word packs three fields: the `marker` bit, the successor address
  shifted right by one, and, in the reference-counted build only, a signed
  16-bit `refCount`. Words are naturals below 2^64. The layout is
  parameterised by `numRefCountBits`. The model proves the pack/unpack round
  trips, that each field update leaves the other fields alone, and that
  `addRef`/`decRef` behave as a counter, including the wrap-around of the
  signed bit field and the `rc >= 0` assertion.
- **The list** (`concurrent_queue.dfy`, module `ConcurrentQueue`). The
  nodes after the head sentinel are a sequence of `(value, marked)` cells.
  `_size` is a `size_t` counter modulo 2^64. Each compare-and-swap is a
  compare-then-set. With nothing else running, its expected word equals the
  current one (`ControlBlock.ExpectedMatchesCurrent`). A
  `compare_exchange_weak` may still fail spuriously. Inside a retry loop
  (B2, B3, B4) that only repeats the attempt on an unchanged queue, so the
  model takes the attempt that succeeds. The unlink CAS C4 of `pop_front`
  has no retry, so its outcome is a parameter (see "## Findings").
  - `search`, `push_back`, `pop_front`, `front`, `size`, `empty`, `clear`
    and the constructor are pure functions. `search`, `push_back`,
    `pop_front`, `front` and `clear` each return the new queue and the
    nodes they handed to `onNodeRemoved`, in order.
  - The contents of the queue are `Live`: the values of the unmarked nodes,
    in chain order.
  - The mutex build's `push_back`/`pop_front` are modelled too, to show the
    two builds agree on a queue with no marked node.

`fifo.dfy` (module `Fifo`) puts the operations together. Any sequence of
calls on a valid queue does to the live values what the same calls do to an
abstract FIFO sequence, and gives the same answers. This holds with the
corrected `pop_front`, whichever of its calls have a failing C4. The `single_thread` test
scenario is proved for any number of elements and for the test's own 1000.
`bits.dfy` holds the power-of-two and division facts the layout needs.
`outcomes.dfy` holds `Option` and `Result`: the source's `assert`s become
explicit error results rather than preconditions. The model is of a build
with assertions enabled.

Notes on the source:
- the header comment (`concurrentQueue.hpp:32`) gives a maximum reference
  count of 32,768, but `int refCount: 16` is a signed bit field whose
  largest value is 32767; the model follows the bit field;
- `decRef` does not free the node at zero (the `delete` is commented out);
  `DecRef` only reports that the count reached zero;
- the lock-free `search` ignores its start node and always walks from
  `_head`, so the retry search in `pop_front` is a search from the head;
- `empty()` only tests whether the head has a successor, so it reports a
  chain holding only marked nodes as non-empty (`EmptyIgnoresMarkedNodes`).
  From the constructor, with the corrected `pop_front`, no marked node
  survives an operation (`Valid` is kept). A spurious C4 failure in the
  `pop_front` as written can leave one behind.

## Model

| member | source | states |
|---|---|---|
| ControlBlock.LayoutFillsWord | concurrentQueue.hpp:54-55 | marker, pointer and count widths together fill exactly the 64-bit word |
| ControlBlock.Encode | concurrentQueue.hpp:72-83 | the word view of fields that fit their widths decodes back to those fields |
| ControlBlock.Decode | concurrentQueue.hpp:72-83 | the struct view of any word has every field within its width |
| ControlBlock.EncodeDecode | concurrentQueue.hpp:72-83 | re-packing a word's struct view gives the same word: the two views of the union agree |
| ControlBlock.SameFieldsSameWord | concurrentQueue.hpp:72-83 | two words are equal iff all three fields are equal, so a CAS on the word compares marker, pointer and count at once |
| ControlBlock.PackUnpack | concurrentQueue.hpp:52-53 | unpacking a packed next-pointer returns the address iff its low bit is zero and it fits in numPtrBits+1 bits |
| ControlBlock.Next | concurrentQueue.hpp:96 | every successor address read from a word has a zero low bit and fits the field |
| ControlBlock.SetNext | concurrentQueue.hpp:97-102 | retargeting the successor keeps marker and count, and the successor reads back as given iff the address is storable |
| ControlBlock.ExpectedMatchesCurrent | concurrentQueue.hpp:263-267 | the expected word built from the loaded word equals it iff the caller's belief about the successor is right, so a lone CAS can fail only spuriously |
| ControlBlock.Mark | concurrentQueue.hpp:302-305 | setting the marker makes the node logically removed and keeps successor and count |
| ControlBlock.AlignedIsStorable | concurrentQueue.hpp:31 | an 8-byte aligned address is storable; in the counted build it must lie in the 48-bit address space |
| ControlBlock.AlignmentCheck | concurrentQueueTest.cpp:23-25 | clearing the low three bits leaves the address unchanged iff it is 8-byte aligned |
| ControlBlock.SignedRoundTrip | concurrentQueue.hpp:80 | a count within the signed 16-bit range is stored and read back unchanged |
| ControlBlock.RawRoundTrip | concurrentQueue.hpp:80 | any raw 16-bit field reads as an in-range count that writes back to the same bits |
| ControlBlock.RefCount | concurrentQueue.hpp:80 | the count read from a word lies between -2^(k-1) and 2^(k-1)-1 |
| ControlBlock.WrapSigned | concurrentQueue.hpp:112 | writing one past the largest count reads back as the smallest, and one below the smallest as the largest |
| ControlBlock.AdjustRefCount | concurrentQueue.hpp:111-113 | changing the count keeps marker and successor and stores the new count modulo 2^k |
| ControlBlock.AddRef | concurrentQueue.hpp:106-116 | the count goes up by exactly one, or wraps from the largest to the smallest; marker and successor unchanged |
| ControlBlock.DecRef | concurrentQueue.hpp:117-135 | fails exactly when the decremented count would read negative; otherwise the count drops by one, stays non-negative, marker and successor are kept, and it reports reaching exactly zero; the decrement of the smallest count wraps to the largest |
| ControlBlock.DecRefUndoesAddRef | concurrentQueue.hpp:106-135 | releasing right after acquiring gives back the same word |
| ControlBlock.AddRefsCount | concurrentQueue.hpp:145-146 | n acquisitions without overflow raise the count by n |
| ControlBlock.BalancedRefCounting | concurrentQueue.hpp:145-147 | n acquisitions then n releases succeed and give back the original word |
| ControlBlock.DefaultControlBlock | concurrentQueue.hpp:39 | a fresh node is unmarked with a null successor, and in the counted build holds one reference |
| ControlBlock.FreshCounted | concurrentQueue.hpp:39 | the fresh block of the counted build fits the layout, is unmarked, has a null successor and a count of one |
| ControlBlock.FreshUncounted | concurrentQueue.hpp:49 | the all-zero control block of the other builds has all three fields zero |
| ControlBlock.WrapperCounts | concurrentQueueTest.cpp:29-43 | wrapping, copying and dropping handles reads the counts 1,2,3,2,3,4,1 and restores the original word |
| ControlBlock.SharedNodeCounts | concurrentQueueTest.cpp:28-43 | the same sequence on a fresh node of the counted build |
| ConcurrentQueue.LiveOfUnmarked | concurrentQueue.hpp:199-204 | in a chain without marked nodes the live values are the node values, one per node |
| ConcurrentQueue.Walk | concurrentQueue.hpp:377-389 | left is unmarked, every node between left and right is marked, right is null or unmarked; a front walk passes only marked nodes, a back walk ends at null |
| ConcurrentQueue.ReleaseMarked | concurrentQueue.hpp:407-415 | the released nodes are marked nodes of the gap, all of it when the whole gap is marked, and `_size` drops by the number released |
| ConcurrentQueue.GapIsMarked | concurrentQueue.hpp:377-389 | every node strictly between the walk's left and right is marked |
| ConcurrentQueue.RepairSlices | concurrentQueue.hpp:400-415 | the repaired chain is the old one without the gap, the gap is what is released, and `_size` drops by its length |
| ConcurrentQueue.Repair | concurrentQueue.hpp:391-421 | the chain becomes the nodes up to left followed by right onwards, so exactly the nodes between them are unlinked; the returned pair is adjacent with left at the walk's position, only marked nodes are released, and `_size` drops by their number |
| ConcurrentQueue.RepairShape | concurrentQueue.hpp:391-421 | after the repair left is unmarked, right is its successor, and right is null or unmarked |
| ConcurrentQueue.RepairKeepsLive | concurrentQueue.hpp:400-415 | unlinking the gap leaves the live values unchanged |
| ConcurrentQueue.RepairDecomposes | concurrentQueue.hpp:400-415 | the old chain is the repaired one with the released marked nodes put back after left |
| ConcurrentQueue.FrontWalkToNull | concurrentQueue.hpp:385-386 | a front walk that reaches null has seen no live value |
| ConcurrentQueue.FrontWalkToNode | concurrentQueue.hpp:388-389 | a front walk that stops at a node has found the first live value |
| ConcurrentQueue.RepairQuiescent | concurrentQueue.hpp:391-397 | with no marked node, left and right are adjacent and nothing changes |
| ConcurrentQueue.Search | concurrentQueue.hpp:366-422 | left is the head or an unmarked node, right is its successor, right is null or unmarked |
| ConcurrentQueue.SearchUnlinksMarkedRun | concurrentQueue.hpp:400-415 | the only change is that the marked run after left is unlinked, and exactly those nodes are released, all marked |
| ConcurrentQueue.SearchKeepsLive | concurrentQueue.hpp:400-415 | search leaves the live values unchanged and `_size` drops by the number of nodes released |
| ConcurrentQueue.SearchFromFront | concurrentQueue.hpp:373-397 | a front search returns the head and the first live node, with null iff there is no live value; what it released was the front of the chain |
| ConcurrentQueue.SearchFromBack | concurrentQueue.hpp:385-388 | a back search returns null as right and the last remaining node (or the head) as left; what it released was the tail of the chain |
| ConcurrentQueue.SearchQuiescent | concurrentQueue.hpp:391-397 | on a queue with no marked node search changes nothing and releases nothing |
| ConcurrentQueue.ReleaseKeepsCount | concurrentQueue.hpp:432 | dropping k nodes and k from `_size` keeps `_size` counting the chain |
| ConcurrentQueue.NewQueue | concurrentQueue.hpp:177-182 | a new queue has no live value, is valid and is empty |
| ConcurrentQueue.SearchIsBackSearched | concurrentQueue.hpp:258 | the back search of `push_back` gives null as right, left at the end, the marked tail released, live values and count in step |
| ConcurrentQueue.PushBack | concurrentQueue.hpp:255-272 | the value joins the live values at the back |
| ConcurrentQueue.PushAfter | concurrentQueue.hpp:261-272 | C2 inserts one new unmarked node right after left and changes no other node, the live values gain v at that place, nothing more is released, and `_size` is one more (undone by `onNodeRemoved`) |
| ConcurrentQueue.PushAfterCases | concurrentQueue.hpp:261-267 | after a back search the new unmarked node is appended to the repaired chain |
| ConcurrentQueue.PushBackAppends | concurrentQueue.hpp:255-272 | the live values become the old ones followed by the new value |
| ConcurrentQueue.PushAfterLinksLast | concurrentQueue.hpp:261-267 | the new node, unmarked, is the last node, and the old chain is the one before it plus the released marked tail |
| ConcurrentQueue.PushBackKeepsValid | concurrentQueue.hpp:272 | `_size` rises by one less the nodes released, so it keeps counting the chain |
| ConcurrentQueue.PushBackQuiescent | concurrentQueue.hpp:255-272 | with no marked node, push appends one unmarked node, releases nothing and leaves no marked node |
| ConcurrentQueue.MarkRight | concurrentQueue.hpp:299-305 | C3 sets the marker of right and changes no other node, nor `_size` |
| ConcurrentQueue.MarkAndUnlink | concurrentQueue.hpp:298-318 | after C3 and a successful C4 the chain is the old one without right and otherwise unchanged, that node is handed over marked after the search's releases, `_size` drops by one, and the live values are those of the nodes before and after it |
| ConcurrentQueue.SearchIsFrontSearched | concurrentQueue.hpp:291 | the front search of `pop_front` gives the head as left, the first live node or null as right, the marked front released, live values and count in step |
| ConcurrentQueue.PopFront | concurrentQueue.hpp:286-321 | `pop_front` returns true iff the queue held a live value |
| ConcurrentQueue.PopAfter | concurrentQueue.hpp:292-318 | a node is removed iff right is non-null (T1); then the chain is the old one without right, right is released marked, `_size` drops by one and the live values around it stay; otherwise nothing changes |
| ConcurrentQueue.PopAfterCases | concurrentQueue.hpp:292-318 | with right null nothing more happens; otherwise the first node is unlinked, handed over marked, and `_size` drops by one |
| ConcurrentQueue.PopFrontReleasesMarked | concurrentQueue.hpp:291-296 | only marked nodes are released; with no live value the whole (marked) chain is released and the chain ends empty |
| ConcurrentQueue.PopFrontTakesFirst | concurrentQueue.hpp:299-318 | the live values lose exactly their first element |
| ConcurrentQueue.PopFrontReleasesFirst | concurrentQueue.hpp:310-318 | the node holding the first live value is released last, marked, after the marked nodes in front of it; the old chain is those nodes, it, and the new chain |
| ConcurrentQueue.PopFrontKeepsValid | concurrentQueue.hpp:318 | `_size` drops by the number of released nodes, so it keeps counting the chain |
| ConcurrentQueue.PopFrontQuiescent | concurrentQueue.hpp:289-321 | with no marked node, pop removes exactly the first node, or changes nothing when there is none |
| ConcurrentQueue.PopFrontAsWritten | concurrentQueue.hpp:286-321 | as written, a pop whose C4 fails reports no removal |
| ConcurrentQueue.PopFrontCorrected | concurrentQueue.hpp:286-321 | corrected, a pop reports a removal iff the queue held a live value, whatever C4 does |
| ConcurrentQueue.PopFrontVersionsAgree | concurrentQueue.hpp:310-318 | when C4 succeeds, both versions are the `pop_front` above |
| ConcurrentQueue.MarkedFront | concurrentQueue.hpp:299-305 | after a front search, C3 marks the first node, and the live values lose their first element |
| ConcurrentQueue.PopFrontAsWrittenLosesValue | concurrentQueue.hpp:314-321 | as written, a failed C4 loses the first live value and reports no removal |
| ConcurrentQueue.PopFrontAsWrittenStrandsMarked | concurrentQueue.hpp:191-207 | as written, after a failed C4 on a valid queue of two or more nodes the marked node stays linked and `size()` fails |
| ConcurrentQueue.StrandedAfterRetry | concurrentQueue.hpp:316 | the back search after a failed C4 leaves a marked node linked |
| ConcurrentQueue.BackSearchKeepsLiveTail | concurrentQueue.hpp:377-397 | a back search over a chain whose last node is unmarked releases nothing and keeps the chain |
| ConcurrentQueue.RetryUnlinksMarkedFront | concurrentQueue.hpp:373-415 | a front search over a chain whose only marked node is the first unlinks and releases exactly that node |
| ConcurrentQueue.PopFrontCorrectedTakesFirst | concurrentQueue.hpp:299-318 | the corrected pop takes exactly the first live value, whatever C4 does |
| ConcurrentQueue.PopFrontCorrectedKeepsValid | concurrentQueue.hpp:299-318 | the corrected pop keeps a valid queue valid, whatever C4 does |
| ConcurrentQueue.RetryKeepsValid | concurrentQueue.hpp:310-318 | the corrected retry after a failed C4 leaves no marked node and `_size` counting the chain |
| ConcurrentQueue.RetryOnMarkedFront | concurrentQueue.hpp:373-415 | a front search over a valid chain whose first node has just been marked leaves a valid queue |
| ConcurrentQueue.BackRepair | concurrentQueue.hpp:385-415 | the repair after a back walk leaves left last and right null, releases the marked tail, and keeps live values and `_size` in step |
| ConcurrentQueue.FrontRepair | concurrentQueue.hpp:391-415 | the repair after a front walk keeps the head as left, and right is the first live node, or null iff there is none |
| ConcurrentQueue.Front | concurrentQueue.hpp:233-238 | `front` returns the first live value, or none when there is none |
| ConcurrentQueue.FrontKeepsValues | concurrentQueue.hpp:236 | `front` removes no live value: it only unlinks and releases marked front nodes and keeps `_size` in step |
| ConcurrentQueue.CountNodes | concurrentQueue.hpp:197-204 | the count succeeds iff no remaining node is marked, and then equals the chain length modulo 2^64 |
| ConcurrentQueue.Size | concurrentQueue.hpp:191-207 | `size()` succeeds iff the queue is valid and then returns `_size`, the number of live values; each assertion fails on its own condition |
| ConcurrentQueue.IsEmpty | concurrentQueue.hpp:211-214 | an empty report means no live value; without marked nodes, empty iff no live value |
| ConcurrentQueue.EmptyIgnoresMarkedNodes | concurrentQueue.hpp:213 | a chain of one marked node has no live value and no front, yet is reported non-empty |
| ConcurrentQueue.ReleaseEach | concurrentQueue.hpp:221-227 | every node is released once, in chain order, and `_size` drops by their number |
| ConcurrentQueue.Clear | concurrentQueue.hpp:219-231 | `clear()` releases the whole chain in order and leaves a valid, empty queue of size zero |
| ConcurrentQueue.Increment | concurrentQueue.hpp:272 | `fetch_add(1)` adds one, wrapping from 2^64-1 to zero |
| ConcurrentQueue.OnNodeRemoved | concurrentQueue.hpp:425-433 | `fetch_sub(1)` subtracts one, wrapping from zero to 2^64-1, and is undone by `fetch_add(1)` |
| ConcurrentQueue.LockedPushBack | concurrentQueue.hpp:245-254 | the mutex build's push appends v to the live values, adds no marked node, and keeps `_size` counting the chain |
| ConcurrentQueue.LockedPopFront | concurrentQueue.hpp:278-284 | the mutex build's pop removes and releases the first node iff there is one, otherwise changes nothing; with no marked node it takes the first live value and leaves none marked; it keeps `_size` counting the chain |
| ConcurrentQueue.PushMatchesLocked | concurrentQueue.hpp:245-254 | with no marked node, the lock-free `push_back` gives the mutex build's queue and releases nothing |
| ConcurrentQueue.PopMatchesLocked | concurrentQueue.hpp:278-284 | with no marked node, the lock-free `pop_front` gives the mutex build's queue and result and releases the same node, marked |
| ConcurrentQueue.PopAfterMatchesLocked | concurrentQueue.hpp:278-284 | the same, for any front search result of that queue |
| Fifo.PushBackRefines | concurrentQueue.hpp:239-274 | on a valid queue `push_back` appends its value to the live values and keeps the queue valid |
| Fifo.PopFrontRefines | concurrentQueue.hpp:276-322 | on a valid queue the corrected `pop_front` takes the first live value, if any, reports whether there was one and keeps the queue valid, whether or not C4 fails |
| Fifo.ApplyRefines | concurrentQueue.hpp:191-322 | one call on a valid queue, with the corrected `pop_front`, keeps it valid, changes the live values as an abstract FIFO does, and answers the same |
| Fifo.RunRefines | concurrentQueue.hpp:191-322 | any sequence of calls on a valid queue, with the corrected `pop_front`, behaves like the abstract FIFO on its live values |
| Fifo.NewQueueIsFifo | concurrentQueue.hpp:177-182 | from the constructor on, with the corrected `pop_front`, the queue behaves as a FIFO queue and stays valid |
| Fifo.PushRange | concurrentQueueTest.cpp:80-82 | pushing 0..n-1 onto a new queue leaves exactly those values, in order |
| Fifo.FrontThenPop | concurrentQueueTest.cpp:87-88 | on a valid queue holding i..n-1, `front` reads i, `pop_front` reports a removal, and the queue left is valid and holds i+1..n-1 (its C4 succeeds) |
| Fifo.FrontAndPop | concurrentQueueTest.cpp:85-89 | n rounds of front-then-pop read 0..n-1 in order, every pop succeeds, and the queue ends empty |
| Fifo.SingleThread | concurrentQueueTest.cpp:78-91 | with every C4 succeeding, the sizes read are n (modulo 2^64) and 0, and the i-th front read is i |
| Fifo.SingleThreadTest | concurrentQueueTest.cpp:78-91 | with 1000 elements: size 1000, the i-th front is i, then size 0 |

## Findings

| source | as written | input that shows it | evidently intended | confidence | as-written member | corrected member |
|---|---|---|---|---|---|---|
| concurrentQueue.hpp:314-321 | when the unlink CAS C4 fails, `pop_front` calls `search(leftAndRight.left, false)`. That search ignores its start node, so this is a back search from the head. `pop_front` then returns whether the search's right is non-null, which it never is | a valid queue with a live value, whose C4 fails spuriously (`compare_exchange_weak`). C3 has already marked the first node, yet `pop_front` returns false. With two or more nodes the marked node stays linked, `_size` still counts it, and the next `size()` fails its first assertion | unlink the marked node with a front search from the head, which hands it to `onNodeRemoved`, and return true, since C3 already removed the value | medium; not executed | ConcurrentQueue.PopFrontAsWrittenLosesValue | ConcurrentQueue.PopFrontCorrected |

## Left out

- Builds with `NDEBUG`: there `size()` skips both assertions and returns the raw node count, and `decRef` skips `rc >= 0`. The model keeps the checks as `Failure` results.
- Concurrency: atomics and interleavings. A retry loop (B2, B3, B4) or a `goto search_again` restart is modelled by its successful attempt. Run alone, a spurious CAS failure there only repeats the attempt on an unchanged queue.
- `_concurrencyCount`: a debugging counter that no operation reads.
- `wait_for`, the condition variable and `_cvMutex`, and every `notify_one`: blocking OS synchronisation, with no effect on the queue's contents.
- The mutex build's locking: its lock is not modelled; only its sequential list operations are (`LockedPushBack`, `LockedPopFront`).
- Allocation and `delete`: `allocAligned`'s 8-byte alignment is a precondition (`Aligned`), and freeing is the "released" sequence each operation returns.
- `sharedNode`'s copy and swap mechanics: only its net effect on the count (one `addRef` per handle made, one `decRef` per handle dropped) is modelled.
- ConcurrentQueue: per-node reference counts are not tracked in the list model. In the counted build `onNodeRemoved` calls `decRef`, which is modelled on the word alone (`ControlBlock.DecRef`).
- Node values are stored and compared but their type's own copy and move semantics are not modelled.
- The concurrent test sections (the threaded part of `sharedNode`, and the disabled SPSC/MPMC cases) and `main.cpp`: they only spawn threads and run the test framework.
- ControlBlock.AlignedIsStorable: in the counted build the pointer field has 47 bits, so an address is storable only below 2^48. The source takes this 48-bit virtual address space as given, and so does the lemma.
- ConcurrentQueue.Search: the start node argument is not a parameter, because the lock-free branch never reads it.
