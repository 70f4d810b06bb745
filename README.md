# Paged array sort, modelled in Dafny

This project models the core of `paged-sort`, a program that sorts a
file of ints through `PagedArray`, a small page cache. `PagedArray`
keeps six page buffers of 256 ints each over the file. It works as
follows:

- It replaces pages least recently used first; ties go to the lowest slot.
- It tracks which buffers are dirty.
- It writes a dirty buffer back to the file before the slot is reused,
  and again when the array is destroyed.

The four sorts are quicksort (Lomuto partition), insertion, selection and
bubble. They reach the data only through `operator[]`, which returns a
reference into a page buffer, and `markPageDirty`. The model follows
`src/pagesort.cpp`. The file `pagesort.cpp` at the root of the repository
is the same program without its comments, so the same model covers it.

The project has four modules:

- `CacheModel` (`cache_model.dfy`) is the value-level model of the cache.
  - `SlotFor` is the scan of `loadedPages`.
  - `Lru` is the replacement victim.
  - `ViewOf` is the logical array: the buffered copy of an element whose
    page is resident, the file otherwise.
  - `CoherentOf` says every clean resident buffer equals its page of the
    file.
  - `FlushSlot` is the file after `savePageToDisk`.
  - The lemmas say how each step of the cache moves these.
- `PagedArrays` (`paged_array.dfy`) holds the class `PagedArray`.
  - Its fields are the C++ members: `pages` (a 6 x 256 `array2`),
    `loadedPages`, `dirtyPages`, `accessCounter` and `lastAccessed`.
  - The file is `disk`, addressed in ints rather than bytes.
  - `output` is the output buffer of the `fstream`: at most one int
    written but not yet in the file. The next seek, or the closing of the
    file, pushes it out.
  - `Formed()` is the invariant every step keeps. `Valid()`, the
    invariant between operations, adds that the stream holds nothing.
  - A ghost field `contents` is the logical array. `Valid()` ties it to
    `ViewOf` of the fields.
  - `Access` is `operator[]`. It returns the slot and offset of the
    reference, and its callers read or write `pages[slot, offset]`
    explicitly.
- `Sorts` (`sorts.dfy`) holds the four sorts and `partition`, written
  against `Access`, buffer reads and writes, and `MarkPageDirty`, in the
  order of the C++ statements.
- `SortDriver` (`driver.dfy`) is the sorting step of `main`. It chooses
  the sort from the algorithm code, runs it, then runs `writeToFile`
  followed by a flush of the stream (the correction under Findings), and
  the destructor.

Facts the model makes precise:

- **Coherence is the working invariant.** While it holds, these keep it
  and keep the logical array:
  - every access, hit or miss;
  - every write through a reference followed by `markPageDirty` of that
    index.

  Between a write and its `markPageDirty` the cache is briefly
  incoherent: the written buffer is clean but differs from the file. This
  is why the sorts write and mark in the helpers `SwapAt`, `CopyAt` and
  `PutAt`, whose contracts keep coherence.
- **Two references in one statement are safe only after the first
  access.** Examples are `std::swap(arr[i], arr[j])`,
  `arr[j + 1] = arr[j]` and `arr[j] < arr[min_idx]`. Both references stay
  valid when at least one access has happened or both elements share a
  page (`MostRecentNotVictim`).

  On a fresh cache the counter and every timestamp are 0. The first page
  loaded goes to slot 0 with timestamp 0, and the next miss evicts slot 0
  again (`FreshCacheReusesFirstSlot`). A reference into it would then
  point into another page.

  Every sort starts with a single read, or with a comparison of elements
  0 and 1, which share a page, so no sort takes two references while the
  counter is still 0.
- **The last int writeToFile writes waits in the stream.** Each write
  reaches the file at the next seek, and nothing seeks after the last
  one. In `main` the text conversion (`src/pagesort.cpp:368`) reads the
  file before the destructor closes the stream at the closing brace on
  line 369. So the text output can miss that int (see Findings).
  - `WriteToFile` models the code as written, and `LastWriteHeld`
    exhibits the missing int.
  - `WriteToFileFlushed` adds the flush the program needs, and `SortFile`
    uses it. The file the text conversion reads is then a sorted
    rearrangement of the original numbers, and the destructor leaves the
    same file.

  By `SortOutcomeUnique`, the four sorts give the same file.

## Model

| member | source | states |
|---|---|---|
| `CacheModel.SlotFor` | src/pagesort.cpp:73-78 | the scan finds the first slot holding the page, or none exactly when no slot holds it |
| `CacheModel.SlotForExact` | src/pagesort.cpp:104-110 | in a table with no page held twice, the first slot holding a page is the only one, so the hit and `markPageDirty` find the same slot |
| `CacheModel.LruAmong` | src/pagesort.cpp:31-36 | after looking at the first n slots, the loop holds a slot with the least timestamp among them, and no earlier slot has that timestamp |
| `CacheModel.Lru` | src/pagesort.cpp:30-38 | the victim has the least timestamp of all six, and ties go to the lowest index because the comparison is a strict `<` |
| `CacheModel.StampKeepsOrder` | src/pagesort.cpp:75 | stamping a slot with the counter and then incrementing the counter keeps every timestamp below the counter, and no two slots share a timestamp other than the initial 0 |
| `CacheModel.MostRecentNotVictim` | src/pagesort.cpp:80-87 | once a stamp above 0 has been handed out, the slot stamped last is never the next victim |
| `CacheModel.FreshCacheReusesFirstSlot` | src/pagesort.cpp:27-28 | with the counter and all timestamps at 0, the first miss takes slot 0 and the second miss takes slot 0 again |
| `CacheModel.PagePosition` | src/pagesort.cpp:70-71 | element i is at offset i % 256 of page i / 256 |
| `CacheModel.PageOf` | src/pagesort.cpp:89-90 | a page read from the file holds its 256 ints in file order |
| `CacheModel.FlushKeepsView` | src/pagesort.cpp:40-46 | saving a slot never changes the logical array, and each cell of the file afterwards holds either its old value or the logical value |
| `CacheModel.FlushKeepsCoherent` | src/pagesort.cpp:40-46 | saving a slot and clearing its dirty flag keeps the slot table well formed and a coherent cache coherent |
| `CacheModel.LoadKeepsView` | src/pagesort.cpp:86-92 | loading a page that no slot holds into a clean slot keeps every page in at most one slot, and on a coherent cache it keeps the logical array and coherence |
| `CacheModel.MissKeepsView` | src/pagesort.cpp:80-92 | the whole miss (save the victim, then load the page into it) keeps the slot table well formed, keeps the logical array and coherence on a coherent cache, and moves each file cell only towards its logical value |
| `CacheModel.SaveNext` | src/pagesort.cpp:63-65 | saving slot i after slots 0..i-1 adds exactly the pages of slot i, if it was dirty, to the file |
| `CacheModel.WriteCell` | src/pagesort.cpp:76-92 | writing x through the reference returned for element i changes the logical array at i to x and nowhere else |
| `CacheModel.MarkedSlotMayDiffer` | src/pagesort.cpp:95-111 | writing into a resident buffer and then marking its slot dirty keeps the cache coherent |
| `CacheModel.CleanViewIsStore` | src/pagesort.cpp:61-67 | a coherent cache with no dirty slot presents exactly the file |
| `CacheModel.StoreLogicalValue` | src/pagesort.cpp:115-117 | writing the logical value of a resident element at its own position of the file keeps the logical array and coherence |
| `PagedArrays.PagedArray.constructor` | src/pagesort.cpp:49-59 | every slot is empty and clean, every timestamp and the counter are 0, the buffers are zero-filled, and the logical array is the file |
| `PagedArrays.PagedArray.FindLRUPage` | src/pagesort.cpp:30-38 | returns `Lru(lastAccessed)`: a slot with the least timestamp, no earlier slot tied with it |
| `PagedArrays.PagedArray.SavePageToDisk` | src/pagesort.cpp:40-46 | a dirty slot's buffer overwrites its page of the file, a clean slot writes nothing, and the slot is clean afterwards |
| `PagedArrays.PagedArray.Close` | src/pagesort.cpp:61-67 | an int the stream holds reaches the file first. Afterwards no slot is dirty, each page that was dirty holds its buffer, every other file cell is as that first push left it, the stream holds nothing, and on a coherent cache the file equals the logical array |
| `PagedArrays.PagedArray.SaveAll` | src/pagesort.cpp:63-65 | saving the slots in order leaves no slot dirty and each page that was dirty holding its buffer, every other file cell unchanged, and on a coherent cache the file equal to the logical array |
| `PagedArrays.PagedArray.Access` | src/pagesort.cpp:69-93 | a hit changes only that slot's timestamp and the counter. A miss saves the LRU victim, then gives it the page, a fresh timestamp and the page's data. Every file cell keeps its value or takes its logical value, and a coherent cache keeps its logical array |
| `PagedArrays.PagedArray.LoadPage` | src/pagesort.cpp:80-92 | the miss path alone: victim `Lru`, flushed first, reassigned, stamped and loaded from the flushed file |
| `PagedArrays.PagedArray.ReadPage` | src/pagesort.cpp:89-90 | the buffer of the slot takes the page of the file, and every other buffer is unchanged |
| `PagedArrays.PagedArray.MarkPageDirty` | src/pagesort.cpp:95-111 | sets the dirty flag of the slot holding the page and nothing else, and does nothing when the page is not resident |
| `PagedArrays.PagedArray.FlushOutput` | src/pagesort.cpp:116 | the int the stream holds reaches its position in the file, the stream then holds nothing, and the logical array and coherence are kept |
| `PagedArrays.PagedArray.ReadElement` | src/pagesort.cpp:115 | `(*this)[i]` read as an int is logical element i, whose page is then resident. A hit changes neither the slot table nor the file. On a coherent cache the logical array is kept and each file cell keeps its value or takes its logical value |
| `PagedArrays.PagedArray.WriteToFile` | src/pagesort.cpp:113-119 | as written: the stream still holds the last int, the logical value of element n-1. On a coherent cache the file holds the logical array below n-1, which does not change. When every page written was resident, the file from n-1 on is unchanged |
| `PagedArrays.PagedArray.WriteToFileFlushed` | src/pagesort.cpp:113-119 | with a flush after the loop, file cells 0..n-1 end up equal to the logical array, which does not change, and the stream holds nothing |
| `PagedArrays.PagedArray.WriteElement` | src/pagesort.cpp:115-117 | one iteration moves the loop state `Writing` from i to i+1: the int held before is now in the file and the stream holds element i. On a coherent cache the file holds the logical array below i, which does not change. When every page written was resident, the slot table is unchanged and the file from i on is as it was |
| `Sorts.SwapPermutes` | src/pagesort.cpp:207 | exchanging two positions keeps the multiset of the array |
| `Sorts.PermutedKeepsBounds` | src/pagesort.cpp:226-229 | a bound that all elements of a range obey survives any rearrangement of the range |
| `Sorts.SortedPermutationUnique` | src/pagesort.cpp:350-361 | two sorted sequences with the same elements are equal |
| `Sorts.SortOutcomeUnique` | src/pagesort.cpp:350-361 | any two sorted rearrangements of the first n elements are the same array, so the four algorithms agree |
| `Sorts.ReadAt` | src/pagesort.cpp:247 | `arr[i]` read as a value gives the logical element and keeps the logical array and coherence |
| `Sorts.TwoRefs` | src/pagesort.cpp:277 | two references taken one after the other both designate their own elements once the counter is past 0, or when the elements share a page |
| `Sorts.ReadPair` | src/pagesort.cpp:300 | comparing `arr[a]` with `arr[b]` reads the two logical elements |
| `Sorts.WriteThrough` | src/pagesort.cpp:250 | a write through a reference changes the logical array at that element only |
| `Sorts.SwapAt` | src/pagesort.cpp:207-209 | swap and mark both indices: the logical array has the two elements exchanged and the cache stays coherent |
| `Sorts.SwapThrough` | src/pagesort.cpp:207 | `std::swap` through the two references exchanges the two logical elements, and the cache is coherent once both slots are marked dirty |
| `Sorts.CopyAt` | src/pagesort.cpp:250-253 | `arr[dst] = arr[src]` and mark: the logical element dst takes the value of src, and the cache stays coherent |
| `Sorts.PutAt` | src/pagesort.cpp:257-260 | `arr[dst] = key` and mark: the logical element dst becomes key, and the cache stays coherent |
| `Sorts.ScanStep` | src/pagesort.cpp:204-211 | one iteration of partition's loop keeps low..i below the pivot, i+1..j-1 not below it, and low..high-1 a rearrangement |
| `Sorts.PartitionScan` | src/pagesort.cpp:201-211 | after the loop, low..i are below the pivot, i+1..high-1 are not, and only low..high-1 were rearranged |
| `Sorts.Partition` | src/pagesort.cpp:193-216 | returns p in low..high holding the old `arr[high]`, with smaller elements before it, the rest after it, low..high rearranged and everything else untouched |
| `Sorts.JoinAroundPivot` | src/pagesort.cpp:226-230 | two sorted sides around a partition pivot form one sorted range |
| `Sorts.SortAroundPivot` | src/pagesort.cpp:226-230 | partitioning and then sorting both sides in place yields a sorted rearrangement of low..high |
| `Sorts.QuickSort` | src/pagesort.cpp:218-231 | low..high ends sorted and rearranged, with every other position unchanged |
| `Sorts.CloseHole` | src/pagesort.cpp:257 | storing key in the hole, once the hole has reached its place, leaves 0..i sorted |
| `Sorts.ShiftHole` | src/pagesort.cpp:249-255 | shifting a greater element up moves the hole down one place and keeps order around it |
| `Sorts.ShiftStep` | src/pagesort.cpp:249-256 | one inner iteration of insertionSort keeps the loop state: order around the hole and a rearrangement of 0..i once key fills the hole |
| `Sorts.ShiftIfGreater` | src/pagesort.cpp:249-253 | tests `arr[j] > key`. When it holds, the element shifts up and the hole moves down one place, keeping the loop state. Otherwise the logical array is unchanged |
| `Sorts.ShiftGreater` | src/pagesort.cpp:248-256 | the inner loop stops at the first element, going down, that does not exceed key, and keeps the loop state |
| `Sorts.InsertIntoPrefix` | src/pagesort.cpp:247-260 | with 0..i-1 sorted, one outer step leaves 0..i sorted and rearranged |
| `Sorts.InsertionSort` | src/pagesort.cpp:237-262 | 0..n-1 ends sorted and rearranged, with every other position unchanged |
| `Sorts.MinIndex` | src/pagesort.cpp:275-280 | returns the first position of a least element of i..n-1, with the logical array unchanged |
| `Sorts.SelectStep` | src/pagesort.cpp:281-285 | swapping the least remaining element into i keeps 0..i sorted, no element of it exceeding any later one, and 0..n-1 rearranged |
| `Sorts.SelectMin` | src/pagesort.cpp:275-285 | one outer iteration of selectionSort exchanges position i with a least element of i..n-1 |
| `Sorts.SelectionSort` | src/pagesort.cpp:265-287 | 0..n-1 ends sorted and rearranged, with every other position unchanged |
| `Sorts.CarryLargest` | src/pagesort.cpp:300-306 | comparing and, if out of order, swapping neighbours j and j+1 carries the largest of 0..j+1 to j+1 |
| `Sorts.OrderNeighbours` | src/pagesort.cpp:300-306 | the logical array has j and j+1 exchanged exactly when `arr[j] > arr[j+1]` |
| `Sorts.BubblePass` | src/pagesort.cpp:299-307 | pass i moves the largest element of 0..n-i-1 to n-i-1, rearranging only that range |
| `Sorts.BubbleStep` | src/pagesort.cpp:298-308 | after pass i the suffix n-i-1..n-1 is sorted, and no earlier element exceeds an element of it |
| `Sorts.BubbleSort` | src/pagesort.cpp:290-309 | 0..n-1 ends sorted and rearranged, with every other position unchanged |
| `SortDriver.AlgorithmOf` | src/pagesort.cpp:350-365 | "QS", "IS", "SS" and "PS" name quicksort, insertion, selection and bubble sort, and every other code is unrecognised |
| `SortDriver.SortFile` | src/pagesort.cpp:346-369 | an unrecognised code fails. Otherwise, with writeToFile followed by a flush, the file read by the text conversion and the file left by the destructor are the same sorted rearrangement of the original numbers |
| `SortDriver.DirtyLastElement` | src/pagesort.cpp:69-111 | `arr[255] = 2` and `markPageDirty(255)` on a fresh array over one page: the page is resident, the file is unchanged, and the logical array ends with 2 |
| `SortDriver.LastWriteHeld` | src/pagesort.cpp:113-119 | over a page of 1s ending in 0, after `arr[255] = 2`, its mark and `writeToFile(256)`, the file still ends 1, 0, although the logical array ends 1, 2. After the destructor the file ends 1, 2 |

## Left out

- Argument parsing, `convertToBinary`, `convertToText`,
  `getTotalNumbersInFile` and the temporary file in `main` are I/O
  plumbing. The model is the sequence of ints the binary file holds, and
  the count is its length.
- The file is a `seq<int>` addressed in elements. Byte offsets,
  `sizeof(int)` and the `reinterpret_cast` layout are not modelled.
- Stream failures are not modelled: the failure to open the file and the
  `exit` that follows.
- Buffering inside `std::fstream` is modelled only as the one int that
  `writeToFile` leaves in `output` until the next seek or close. The
  other writes, the page saves of `savePageToDisk`, are taken to reach
  the file at once. Each page save is followed by a seek or by the close
  before anything reads the file, so no reader can tell the difference.
- The file is assumed to hold whole pages of 256 ints. A short read of a
  partial last page leaves the stream in a failed state in which later
  reads and writes do nothing; that behaviour is not modelled.
- The program's integer widths are not modelled:
  - `accessCounter` and the timestamps are unbounded naturals, not
    64-bit counters that could wrap;
  - the stored values are unbounded ints;
  - 32-bit overflow in `page * PAGE_SIZE * sizeof(int)` is left out.
- Indices must lie in `0 <= index < |disk|`. The program never passes
  another index, and a negative or out-of-range index is a caller error
  that C++ does not check.
- Quicksort's recursion depth is a stack limit, not behaviour, and is
  not modelled.
- The C++ operands of `arr[a] < arr[b]` and of `std::swap(arr[a], arr[b])`
  may be evaluated in either order. The model takes the left reference
  first. Both references stay valid either way, so the result is the
  same.
- Sorts.TwoRefs: requires that the counter be past 0 or that both
  elements share a page. The C++ states no such condition, but without it
  the first reference can be evicted by the second access, so the model
  does not cover that case. `SwapAt`, `CopyAt`, `ReadPair` and the sort
  helpers inherit the condition, and every sort meets it.
- Sorts.QuickSort: like every sort, requires a coherent cache. The
  constructor makes the cache coherent, and every step of the sorts keeps
  it so. A cache in which a clean buffer disagrees with the file is not a
  state the program reaches.
- The inner loops of the sorts are separate methods: `PartitionScan`,
  `InsertIntoPrefix`, `ShiftGreater`, `MinIndex`, `BubblePass`, `SelectMin` and
  `OrderNeighbours`. `Access` puts its miss path in `LoadPage` and the
  page read in `ReadPage`, and the body of `writeToFile`'s loop is
  `WriteElement`. Each method runs the same statements in the same order
  as the C++ code it stands for.
- More single statements have their own methods:
  - `ShiftIfGreater` is one test and shift of insertionSort's inner loop;
  - `SwapThrough` is the `std::swap` of `SwapAt`;
  - `ReadElement` is the read `(*this)[i]`;
  - `SaveAll` is the destructor's loop.
- WriteElement: pushes the previous iteration's held int out before the
  access rather than at the `seekp` after it. The file ends the same: on
  a miss the access seeks before it touches the file, and a hit touches
  neither the file nor the stream.

## Findings

| source | as written | input that shows it | evidently intended | confidence | as-written member | corrected member |
|---|---|---|---|---|---|---|
| src/pagesort.cpp:113-119 | `writeToFile` ends with a 4-byte write that stays in the `fstream` buffer, because nothing seeks after it. `main` runs the text conversion (line 368) before the destructor closes the stream (line 369) | 256 numbers in descending order with `-a QS`: the one page is never evicted, so file cell 255 still holds the original minimum when the text conversion reads it, and the output ends with the minimum instead of the maximum. In the model: a page of 1s ending in 0, `arr[255] = 2`, its mark, then `writeToFile(256)` | the text conversion reads the whole sorted array, for example through a `file.flush()` at the end of `writeToFile` | not executed; rests on the usual buffering of small writes in `std::filebuf` | `PagedArrays.PagedArray.WriteToFile`, `SortDriver.LastWriteHeld` | `PagedArrays.PagedArray.WriteToFileFlushed` |
