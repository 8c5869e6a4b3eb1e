# OS/161 kernel core, verified

A Dafny model of the parts of this OS/161 kernel that are hard to get right, with proofs of what they promise.
Every module follows one component and keeps its form: arrays and lists that are changed in place are arrays, fields
of classes or linked nodes here, loops are loops, and what the methods compute is tied to specification functions and
predicates about which the theorems are stated.  Protocols between threads are state machines over their steps.

| component | files |
|---|---|
| 64-bit multiplication and division from 16-bit digits | `Words`, `Nonlinear`, `Digits`, `Shifts`, `AlgorithmD`, `QDivRem`, `Multiply`, `SignedDivision` |
| the kernel heap | `Sequences`, `HeapBlocks`, `HeapState`, `PageRefPool`, `KHeap`, `HeapRuns` |
| frames and copy-on-write paging | `Wrappers`, `Multisets`, `FrameTable`, `PageTable`, `RefCounts`, `Paging` |
| thread lists, semaphores, locks, condition variables, migration | `ThreadList`, `WaitChannel`, `Semaphore`, `LockCv`, `LockCvCalls`, `Migration`, `MigrationRuns` |
| the deadlock detector and the process table | `WaitsFor`, `Hangman`, `PidRecords`, `PidTable` |
| printf, atoi, program arguments | `Numerals`, `Formats`, `Directives`, `Printf`, `Atoi`, `UserMemory`, `ArgBuf` |

`dafny verify dfyconfig.toml` checks everything.

## How the model is built

- Numbers are unbounded, and widths are written out where they matter: words that wrap are taken modulo 2^16, 2^32 or
  2^64.  Algorithm D (section 4.3.1 of The Art of Computer Programming, volume 2) is proved for any base of at least 2
  and any digit counts and then used with base 2^16 and at most four digits.
- In the heap, a page record's two links are kept in sequences indexed by the record, a pointer to a record is its
  number, and heap memory is a map from word addresses to words, through which the free lists are really threaded.
  The heap's meaning is the map `live` from addresses to requested sizes.  `alloc_kpages` is a parameter: the page that
  it returns, or 0.  `HeapRuns` closes the loop with a set of available pages, from which heap pages, whole-page
  allocations and pages of records are drawn.  Its steps are the critical sections of `kmalloc` and `kfree`, split also
  where `allocpagerefpage` drops the lock, and the calls to `alloc_kpages` and `free_kpages` between them.
- `free_kpages` is called with the lock released when another thread was faster to get a page of records; that is a
  step of its own, and so is the second look at the root.
- In paging, an address space is a number, a page table chain is a sequence, and what an address space sees is the
  multiset of page number, valid bit and contents over its valid entries.  Each fault, fork and exit is one step.  A run
  carries the set of address spaces that exist; a new one is a pointer that kmalloc has just returned, so it is not among
  them, and it is proved that it then has no entries.
- `find_page` ignores the page number (kern/vm/vm.c:61); the model follows the code: a fault finds the first valid entry
  of the address space in the chain of the page's hash, and every entry is in the chain of its own hash.
- In `Semaphore` and `LockCv` a thread's every access to shared state is a step of its own, spinning for a spinlock
  included, and a run is any sequence of turns of any threads.  The runs of `P` and `V` and of the lock operations are
  therefore interleaved at every point.
- In `MigrationRuns` every locked section of `thread_consider_migration` is a step, with the stale counts, the share and
  the victims kept between sections, on any number of processors.  Between sections, threads become runnable, and a
  processor that is not migrating switches to the next thread of its queue; a processor that migrates does so in its
  timer interrupt and does not switch.
- The process table takes processes to have one thread each, so that a process that waits does nothing else; that is
  what makes the waiter of a child unique.  Records carry a serial number, which tells apart records that had the same
  pid at different times.
- Arguments of printf are values; asking for an argument that was not passed is undefined in C and gives 0 or "(null)"
  here.
- User memory is a map of the mapped bytes, pointers in it are four bytes with the most significant first, and copying
  fails exactly at an unmapped byte.

Where the code does not do what its documentation or the C standard leads one to expect, the model follows the code and
a lemma says exactly when the two agree: `FrameTable.AllUnusedLinked`, `SignedDivision.QuotientOverflow`,
`Numerals.FitsExactly` (the comment promises a character to spare), `Formats.LeftZeroFill`, `ArgBuf.CopyInOutcome`,
`Paging.ContainsPages`, `HeapRuns.AllReturned` (pages of records stay allocated) and `PageRefPool.BlockedIs` (an assertion that can fail, as
`HeapRuns.Machine.Shortage` shows).

## Model

| member | source | states |
|---|---|---|
| `AlgorithmD.EstimateDigit` | common/gcc-millicode/qdivrem.c:182-210 | for every base and any digits, the loop of step D3 ends with the quotient of the three leading dividend digits by the two leading divisor digits, capped at the base minus 1; with a normalised divisor it lowers its first guess at most twice |
| `AlgorithmD.GuessTooBig` | common/gcc-millicode/qdivrem.c:205-210 | the test that lowers the guess holds exactly when the guess is above the three-by-two quotient, although it is made on wrapped half words |
| `AlgorithmD.StartBound` | common/gcc-millicode/qdivrem.c:193-204 | with the leading divisor digit at least half the base, the first guess is at most 2 too large (Theorem B of section 4.3.1) |
| `AlgorithmD.EstimateBounds` | common/gcc-millicode/qdivrem.c:193-210 | for any base and any number of lower digits the estimate is the true digit or one more |
| `AlgorithmD.TrueDigitOrOneMoreMeans` | common/gcc-millicode/qdivrem.c:193-210 | what that predicate says in terms of division: the estimate is u/v or u/v+1, and below the base |
| `AlgorithmD.WindowEstimate` | common/gcc-millicode/qdivrem.c:193-210 | the same for the digits in the window of the dividend that a step looks at |
| `AlgorithmD.SubtractDigit` | common/gcc-millicode/qdivrem.c:217-221 | one digit of multiply-and-subtract: digit and borrow account for exactly the difference, both stay digits |
| `AlgorithmD.SubtractTop` | common/gcc-millicode/qdivrem.c:222-223 | the top digit: the borrow is set exactly when the difference is negative |
| `AlgorithmD.MultiplySubtract` | common/gcc-millicode/qdivrem.c:217-223 | step D4 in place on the array, any digit count: the window's value drops by qhat times the divisor, plus a power of the base if it borrows; nothing outside the window changes |
| `AlgorithmD.AddBack` | common/gcc-millicode/qdivrem.c:230-238 | step D6 in place: the divisor is added to the window, with the carry out accounted for |
| `AlgorithmD.DivideStep` | common/gcc-millicode/qdivrem.c:182-240 | one round of D3 to D6: quotient digit and remainder of the window by the divisor are exact, one add-back at most is made, and the leading digit is 0 afterwards |
| `AlgorithmD.ProgramD` | common/gcc-millicode/qdivrem.c:182-240 | the whole loop of D2 to D7 for any base and any digit counts: quotient digits and remainder digits are those of the dividend, and the used-up leading digits are 0 |
| `AlgorithmD.LongDivision` | common/gcc-millicode/qdivrem.c:182-240 | appending a digit: why the digits found one by one make up the quotient |
| `Shifts.ShiftLeftDigit` | common/gcc-millicode/qdivrem.c:270-279 | one digit of a left shift, made with OR of two disjoint halves |
| `Shifts.ShiftRightDigit` | common/gcc-millicode/qdivrem.c:247-258 | one digit of a right shift, made with OR of two disjoint halves |
| `Shifts.ShiftedLeftValue` | common/gcc-millicode/qdivrem.c:270-279 | digit-wise left shift multiplies the number by a power of two, less what falls out at the top |
| `Shifts.ShiftedRightValue` | common/gcc-millicode/qdivrem.c:247-258 | digit-wise right shift divides the number, rounding down |
| `QDivRem.Shl` | common/gcc-millicode/qdivrem.c:270-279 | in place, the digits' value is multiplied by 2^d, less what falls out at the top |
| `QDivRem.ShiftRight` | common/gcc-millicode/qdivrem.c:247-258 | in place, the digits' value is divided by 2^d |
| `QDivRem.NormalisingShift` | common/gcc-millicode/qdivrem.c:169-172 | the shift count that makes the leading digit at least half the base and no more than a digit |
| `QDivRem.Normalise` | common/gcc-millicode/qdivrem.c:169-175 | step D1: dividend and divisor are scaled by the same power of two and nothing is lost |
| `QDivRem.SkipZeros` | common/gcc-millicode/qdivrem.c:152-158 | leading zero digits are skipped, the value stays, and the digit counts add up |
| `QDivRem.ShortDivide` | common/gcc-millicode/qdivrem.c:123-150 | the path for a one-digit divisor gives quotient and remainder |
| `QDivRem.NormalisedDivide` | common/gcc-millicode/qdivrem.c:163-240 | D1 to D7 on the arrays give the quotient, and the remainder times the scaling factor |
| `QDivRem.LongDivide` | common/gcc-millicode/qdivrem.c:152-262 | the path for longer divisors gives quotient and remainder |
| `QDivRem.Divide` | common/gcc-millicode/qdivrem.c:67-263 | for every pair of 64-bit numbers: a trap exactly for divisor 0, otherwise q and r with u = q*v + r and 0 <= r < v |
| `Multiply.ThreeProducts` | common/gcc-millicode/muldi3.c:183-241 | the identity behind three multiplications instead of four |
| `Multiply.Difference` | common/gcc-millicode/muldi3.c:196-208 | absolute difference and sign |
| `Multiply.AddShifted` | common/gcc-millicode/muldi3.c:209-240 | adding a half-word-shifted word to a register pair, with the hand-made carry, keeps track of the exact value |
| `Multiply.SubtractShifted` | common/gcc-millicode/muldi3.c:209-240 | the same for subtracting, with the hand-made borrow |
| `Multiply.LMulQ` | common/gcc-millicode/muldi3.c:183-241 | the 64-bit result is the exact product of any two 32-bit words, although the sums in between wrap |
| `Multiply.MulDi3` | common/gcc-millicode/muldi3.c:99-164 | for all 64-bit signed a and b the result is congruent to a*b modulo 2^64 |
| `SignedDivision.TruncDivides` | common/gcc-millicode/divdi3.c:44-62 | quotient and remainder that truncate toward zero satisfy the definition in section 6.5.5 of ISO/IEC 9899:1999 |
| `SignedDivision.TruncUnique` | common/gcc-millicode/divdi3.c:44-62 | and nothing else does |
| `SignedDivision.DivDi3` | common/gcc-millicode/divdi3.c:44-62 | the truncated quotient, reduced to 64 bits; a trap exactly for divisor 0 |
| `SignedDivision.ModDi3` | common/gcc-millicode/moddi3.c:45-62 | the truncated remainder, for all operands; a trap exactly for divisor 0 |
| `SignedDivision.QuotientOverflow` | common/gcc-millicode/divdi3.c:44-62 | the returned quotient is the truncated one if and only if it is not the least number divided by -1 |
| `SignedDivision.DivisionIdentity` | common/gcc-millicode/moddi3.c:45-62 | (a/b)*b + a%b is a modulo 2^64, the overflowing case included |
| `HeapBlocks.BlockInPage` | kern/vm/kmalloc.c:989-1008 | a block of a page lies within the page and its number can be read off its offset |
| `HeapBlocks.BlocksApart` | kern/vm/kmalloc.c:989-1008 | blocks with different numbers do not overlap |
| `HeapBlocks.PopBlock` | kern/vm/kmalloc.c:924-942 | taking the first block: its first word tells the next one, it is NULL exactly for the last block, and what remains is a free list |
| `HeapBlocks.PushBlock` | kern/vm/kmalloc.c:1116-1138 | putting a block in front gives a free list; the check against the head never fails |
| `HeapBlocks.ThreadPush` | kern/vm/kmalloc.c:1010-1014 | linking a record in front of a list |
| `HeapBlocks.ThreadUnlink` | kern/vm/kmalloc.c:822-845 | unlinking a record from any position of a list |
| `HeapState.TakeSound` | kern/vm/kmalloc.c:922-953 | taking a block keeps the whole heap consistent, and the block was not live |
| `HeapState.GiveSound` | kern/vm/kmalloc.c:1109-1138 | giving a block back keeps the whole heap consistent |
| `HeapState.PrepareSound` | kern/vm/kmalloc.c:989-1008 | threading a fresh page disturbs nothing |
| `HeapState.LinkSound` | kern/vm/kmalloc.c:1010-1014 | adding the page to both lists keeps the heap consistent |
| `HeapState.DropSound` | kern/vm/kmalloc.c:822-845 | removing a page without live blocks from both lists keeps the heap consistent |
| `HeapState.OnPage` | kern/vm/kmalloc.c:1072-1091 | a live pointer is on a heap page exactly if it is one of that page's blocks; whole-page allocations are on none |
| `HeapState.LiveBlocks` | kern/vm/kmalloc.c:1170-1223 | live allocations are pairwise disjoint, at least as large as asked for, aligned to their block size and inside one page |
| `HeapState.PageLayout` | kern/vm/kmalloc.c:914-955 | nfree is the length of the repetition-free list threaded through the page, the offset is invalid exactly when nfree is 0, and every block is either on the list or live |
| `HeapState.OwnListOnly` | kern/vm/kmalloc.c:341-346 | a page record is on the list of its own block size and on no other |
| `HeapState.PageIsUsed` | kern/vm/kmalloc.c:1138-1148 | every page on the lists has a live block, so a page leaves them exactly when its last live block is freed |
| `HeapState.OnlyBlock` | kern/vm/kmalloc.c:1138-1148 | a live block is the only one of its page exactly if nfree plus one is the number of blocks |
| `HeapState.WriteSound` | kern/vm/kmalloc.c:1170-1223 | writing inside a live allocation cannot damage the heap |
| `PageRefPool.FirstClear` | kern/vm/kmalloc.c:271-294 | the bitmap search finds the first free record |
| `PageRefPool.Pool.constructor` | kern/vm/kmalloc.c:192-213 | no record is in use at first |
| `PageRefPool.Pool.Reserve` | kern/vm/kmalloc.c:256-298 | the first part of allocpageref: the first record not in use, across all roots, is marked, and -1 is returned exactly when all are in use; counts and bitmaps agree and no root's page changes |
| `PageRefPool.Pool.SetPage` | kern/vm/kmalloc.c:218-251 | the root of the record gets its page, for good, and nothing else changes |
| `PageRefPool.Pool.Free` | kern/vm/kmalloc.c:303-337 | exactly this record becomes free, unless the assertion on a root without a page fails, which it does exactly if an earlier root has records in use and no page |
| `PageRefPool.BlockedIs` | kern/vm/kmalloc.c:316-320 | that is: exactly if an earlier root has no page at all, because then all 256 of its records are in use |
| `KHeap.BlockType` | kern/vm/kmalloc.c:851-867 | the smallest block size that the request fits in |
| `KHeap.FillDeadbeef` | kern/vm/kmalloc.c:43-53 | every word of the block is overwritten and nothing else |
| `KHeap.ThreadPage` | kern/vm/kmalloc.c:998-1008 | the loop threads all blocks of a page into one free list, last block first |
| `KHeap.Unlink` | kern/vm/kmalloc.c:830-845 | the list walk of remove_lists unlinks the record and changes no other link |
| `KHeap.Heap.constructor` | kern/vm/kmalloc.c:341-346 | the empty heap is consistent |
| `KHeap.Heap.FindRoom` | kern/vm/kmalloc.c:914-920 | finds a page of the block size with a free block if there is one |
| `KHeap.Heap.TakeBlock` | kern/vm/kmalloc.c:922-953 | the heap, as a map from addresses to sizes, gains one address that was not in it |
| `KHeap.Heap.PreparePage` | kern/vm/kmalloc.c:989-1008 | a record on no list is filled in; memory outside its page is untouched |
| `KHeap.Heap.LinkPage` | kern/vm/kmalloc.c:1010-1014 | the record goes to the front of both lists |
| `KHeap.Heap.TryBlock` | kern/vm/kmalloc.c:910-955 | the first critical section: a block from a page with room, or nothing changed and every page of that size full |
| `KHeap.Heap.UseRecord` | kern/vm/kmalloc.c:989-1018 | a fresh page is added under a marked record and a block of it is taken |
| `KHeap.Heap.BeginRefill` | kern/vm/kmalloc.c:978-1018 | the section that marks a record, from any consistent heap that other threads left: which of "all in use", "its page is missing" and "a block" comes when, and what each does |
| `KHeap.Heap.ObtainPage` | kern/vm/kmalloc.c:226-290 | the section after alloc_kpages was called without the lock for a page of records: the page is installed and a block taken; or another thread was faster and the page is to be given back; or there is no page and the record stays marked for ever |
| `KHeap.Heap.RefillAlone` | kern/vm/kmalloc.c:957-1018 | these sections without others in between: a block exactly if a record and, where needed, a page for it can be had |
| `KHeap.Heap.SubpageKmalloc` | kern/vm/kmalloc.c:873-1018 | refines adding a fresh address to the map; NULL exactly if every page of the best-fitting size is full and no page, no record or no page for the record can be had; memory outside a page that was added is unchanged |
| `KHeap.Heap.GiveBlock` | kern/vm/kmalloc.c:1109-1138 | the block is overwritten but for its link and put in front of its page's list; memory outside the block is unchanged |
| `KHeap.Heap.RemoveLists` | kern/vm/kmalloc.c:822-845 | the record leaves both lists and every other record stays |
| `KHeap.Heap.FindPage` | kern/vm/kmalloc.c:1072-1090 | finds the page of a live sub-page block, and nothing for a whole-page allocation |
| `KHeap.Heap.SubpageKfree` | kern/vm/kmalloc.c:1024-1160 | refines removing the address from the map; the page is given back and its record freed exactly when its last live block went; the assertion in freepageref fails exactly if in that case an earlier root has no page |
| `KHeap.LastBlockIs` | kern/vm/kmalloc.c:1138-1148 | the test of nfree against the number of blocks holds exactly for the last live block of the page |
| `KHeap.Heap.FreeRecord` | kern/vm/kmalloc.c:303-337 | a record that is on no list is given back |
| `KHeap.Heap.WholeKmalloc` | kern/vm/kmalloc.c:1186-1199 | a request of 2048 bytes or more gets whole pages |
| `KHeap.WholePages` | kern/vm/kmalloc.c:1190-1191 | the rounded-up page count in 32-bit arithmetic, which is 0 exactly for size 0 and for sizes where the sum wraps |
| `KHeap.Heap.Kmalloc` | kern/vm/kmalloc.c:1169-1206 | NULL exactly when memory is short (as spelled out for the sub-page sizes) and then nothing changed, or one new address of the requested size, which is a whole-page allocation exactly from 2048 bytes on; contents of all live allocations are kept |
| `KHeap.Heap.Kfree` | kern/vm/kmalloc.c:1211-1223 | exactly the freed address leaves the map; contents of all others are kept, and a freed sub-page block is overwritten; the alignment assertion never fails, and the one in freepageref exactly under the condition above |
| `KHeap.Heap.Store` | kern/vm/kmalloc.c:1169-1223 | a client's write inside its allocation keeps the heap consistent and every other allocation's contents |
| `HeapRuns.Machine.Execute` | kern/vm/kmalloc.c:873-1223 | any critical section of any thread keeps the heap and its records consistent and accounts for every page; allocations that it does not free or write to stay, with size and contents; pages of records never decrease; the kernel halts exactly at the assertion in freepageref |
| `HeapRuns.Machine.Run` | kern/vm/kmalloc.c:873-1223 | the same over every interleaving of critical sections, the two that allocpagerefpage makes by dropping the lock included |
| `HeapRuns.AvailableNotOwned` | kern/vm/kmalloc.c:967-984 | a page that is available is not in the heap: it is on no heap page's record and in no whole-page allocation |
| `HeapRuns.AllReturned` | kern/vm/kmalloc.c:218-250 | with no live allocation and no request on its way, the available pages and the pages of records are all pages; the latter are as many as there are roots with a page, at most 16; so everything is back if and only if no root has a page |
| `HeapRuns.PagedIs` | kern/vm/kmalloc.c:218-250 | pages of records are counted by the roots that have one |
| `HeapRuns.Machine.FirstUse` | kern/vm/kmalloc.c:218-250 | one kmalloc and its kfree on the fresh heap: one page is gone for good |
| `HeapRuns.Machine.Shortage` | kern/vm/kmalloc.c:316-320 | the assertion in freepageref can fail: after 256 requests that got no page for records, one more request and its kfree halt the kernel |
| `FrameTable.Frames.constructor` | kern/vm/frametable.c:26-65 | after bootstrap the free list is the stretch of frames that the loop links, in order, and the table is consistent |
| `FrameTable.AllUnusedLinked` | kern/vm/frametable.c:45-65 | that every unused frame is on the free list holds if and only if the kernel occupies no frame or all but one; otherwise frames at the top are never listed |
| `FrameTable.TopFrameLeftOut` | kern/vm/frametable.c:45-65 | for instance with 128 frames, 32 of them the kernel's: frame 127 is left unused and not listed |
| `FrameTable.TopFrameLost` | kern/vm/frametable.c:26-65 | and in the frame table made so it is not a managed frame |
| `FrameTable.Frames.OnlyManaged` | kern/vm/frametable.c:73-164 | which no allocation or release ever makes used or listed |
| `FrameTable.Frames.Conserved` | kern/vm/frametable.c:73-164 | used frames and listed frames are disjoint and their number never changes |
| `FrameTable.Frames.Alloc` | kern/vm/frametable.c:73-126 | hands out the first listed frame, which was unused and unreferenced, or nothing exactly when the list is empty or more than one page is asked for |
| `FrameTable.Frames.Free` | kern/vm/frametable.c:134-164 | drops one reference; the frame goes to the front of the list exactly when it was the last |
| `FrameTable.Frames.RefMod` | kern/vm/frametable.c:180-185 | changes one reference count and nothing else |
| `FrameTable.TakeFirst` | kern/vm/frametable.c:97-104 | the list stays acyclic, in range and free of used frames when its head is taken |
| `FrameTable.GiveBack` | kern/vm/frametable.c:152-161 | and when a frame is put back |
| `RefCounts.TakeReference` | kern/vm/vm.c:118-145 | a fresh frame gets its first reference |
| `RefCounts.ShareReference` | kern/vm/vm.c:91-110 | a frame that no writable entry names may be shared |
| `RefCounts.DropReference` | kern/vm/frametable.c:134-164 | a kernel holder gives up its reference |
| `RefCounts.HandOver` | kern/vm/vm.c:75-83 | an entry takes over a reference from its maker |
| `RefCounts.Retarget` | kern/vm/vm.c:149-183 | an entry leaves a shared frame for its own copy |
| `RefCounts.Release` | kern/vm/addrspace.c:161-197 | an entry goes and its reference with it |
| `RefCounts.DirtyIsAlone` | kern/vm/vm.c:149-183 | a frame named by a writable entry is named once and held by nobody |
| `PageTable.HptHash` | kern/vm/vm.c:381-387 | the hash is a bucket number |
| `PageTable.XorTwice` | kern/vm/vm.c:381-387 | exclusive or undoes itself, so pages of one address space keep different keys |
| `PageTable.SameBucket` | kern/vm/vm.c:381-387 | two pages of an address space share a bucket only if their keys differ by a multiple of the table size, and never if both keys are below it |
| `PageTable.TableUpdate` | kern/vm/vm.c:75-83 | what a table-wide collection becomes when one chain changes |
| `PageTable.ChainsInsert` | kern/vm/vm.c:75-83 | an entry put at the head of the chain of its hash leaves every entry in the chain of its hash |
| `PageTable.SightMove` | kern/vm/vm.c:149-183 | pointing an entry at its own copy changes nothing of what any address space sees, in the order in which its entries are found |
| `PageTable.SightBag` | kern/vm/vm.c:56-67 | what is seen in order determines what is seen at all |
| `PageTable.FoundIsSeen` | kern/vm/vm.c:56-67 | what find_page finds is the first valid page that the address space sees in the chain |
| `Paging.AsCheckValidAddr` | kern/vm/addrspace.c:49-64 | the first region that contains the address |
| `Paging.ContainsPages` | kern/vm/addrspace.c:57-59 | a region contains exactly the addresses in its pages if and only if it is empty or ends below the top of memory; one that reaches the top contains nothing |
| `Paging.FindPage` | kern/vm/vm.c:56-67 | the first valid entry of the address space in the chain, whatever its page number |
| `Paging.Vm.constructor` | kern/vm/vm.c:34-49 | empty page table over a fresh frame table |
| `Paging.Vm.WritableIsAlone` | kern/vm/vm.c:118-228 | in every consistent state a writable entry's frame has one reference and no other entry names it |
| `Paging.Vm.FreeIsUnreferenced` | kern/vm/frametable.c:73-164 | no listed frame is named by any entry or held by the kernel |
| `Paging.Vm.AllocPage` | kern/vm/frametable.c:73-126 | a zeroed frame that nothing names or holds; every address space sees what it saw |
| `Paging.Vm.FreePage` | kern/vm/frametable.c:134-164 | one kernel reference goes; every address space sees what it saw |
| `Paging.Vm.InsertPage` | kern/vm/vm.c:75-83 | the entry goes to the front of the chain of its hash, its owner sees one page more and every other address space what it saw, in the same order |
| `Paging.Vm.SetDirty` | kern/vm/vm.c:191-228 | changing the writable bit changes nobody's view |
| `Paging.Vm.CreateSharedPage` | kern/vm/vm.c:91-110 | a read-only entry for a frame, with its reference counted, or nothing changed |
| `Paging.Vm.CreatePage` | kern/vm/vm.c:118-145 | an entry for a fresh zero page, or nothing changed, exactly when memory is short |
| `Paging.Vm.ReadOnWrite` | kern/vm/vm.c:149-183 | it succeeds exactly if the frame has one reference or a frame is free; then the entry is writable, over the same frame exactly in the first case and over its own copy otherwise; nobody's view changes; on failure nothing does |
| `Paging.Vm.ReleaseEntry` | kern/vm/addrspace.c:161-197 | unlinking an entry releases its frame and removes exactly what its owner saw through it |
| `Paging.Vm.Store` | kern/vm/vm.c:311-338 | a write through a writable entry changes what its owner sees at that page and nobody else's view |
| `Paging.Vm.AsDestroy` | kern/vm/addrspace.c:154-213 | no entry carries the address space afterwards, exactly its references are gone, and other views are unchanged |
| `Paging.Vm.ShareEntry` | kern/vm/vm.c:196-222 | one entry is made read-only and shared with the new address space |
| `Paging.Vm.CopyPageTable` | kern/vm/vm.c:191-228 | it succeeds exactly if as many entries as the original has can be allocated; then the copy sees exactly what the original saw and all entries of both are read-only |
| `Paging.Vm.CopyEntry` | kern/vm/vm.c:204-223 | one entry of the walk: shared and paid for if it is the original's, skipped otherwise, or no entry can be had and the walk has not paid for all |
| `Paging.CopyStep` | kern/vm/vm.c:196-222 | sharing one entry advances the walk although the new entry may be in the chain being walked |
| `Paging.Vm.AsCopy` | kern/vm/addrspace.c:111-147 | fork: succeeds exactly for an address space whose regions and entries can all be allocated, with the same outcome; a fork that runs out of memory part way is undone, reference counts included |
| `Paging.Vm.VmFault` | kern/vm/vm.c:255-349 | error codes and effects of a fault in every case: hit, copy on write (no memory exactly if the frame is shared and none is free), demand-zero page, no region, no memory; the loaded entry is the one in the table, a new one at the head of the chain where it is looked for; every entry stays in the chain of its hash; other views are unchanged |
| `Paging.Vm.FaultTwice` | kern/vm/vm.c:255-349 | after a fault has loaded an entry, a second fault at the address loads that entry, or makes it writable, over the same frame if the first fault made it, and adds no page |
| `Paging.Vm.StoreThenFault` | kern/vm/vm.c:255-349 | what is stored after a write fault is what the search finds at the address after a later fault |
| `Paging.LoadedIsFirst` | kern/vm/vm.c:56-67 | the entry that a fault has loaded is the first valid one of its address space in the chain |
| `Paging.Vm.Execute` | kern/vm/vm.c:255-349 | any step of any address space or of the kernel keeps reference counts exact, writable entries alone and every entry in the chain of its hash; only live address spaces have entries; which address spaces live afterwards, and what fork, exit, store and a demand-zero fault do to the view they touch |
| `Paging.Vm.Run` | kern/vm/vm.c:118-349 | isolation over whole runs: an address space that no step touches sees exactly what it saw before, in the same order, and finds the same contents at every page; one that is not live sees nothing |
| `Paging.SeesNothing` | kern/vm/addrspace.c:154-213 | an address space sees nothing exactly if it has no entry |
| `ThreadList.InsertAfterNode` | kern/thread/threadlist.c:105-120 | pointer surgery inserts the node at its place in the chain |
| `ThreadList.InsertBeforeNode` | kern/thread/threadlist.c:125-140 | the same on the other side |
| `ThreadList.RemoveNode` | kern/thread/threadlist.c:145-157 | pointer surgery removes the node, whose links become NULL |
| `ThreadList.List.constructor` | kern/thread/threadlist.c:60-72 | the two sentinels form the empty list |
| `ThreadList.List.IsEmpty` | kern/thread/threadlist.c:91-97 | the count is 0 exactly for the empty sequence |
| `ThreadList.List.AddHead` | kern/thread/threadlist.c:162-170 | refines prepending to a sequence; the count is exact |
| `ThreadList.List.AddTail` | kern/thread/threadlist.c:172-180 | refines appending |
| `ThreadList.List.RemHead` | kern/thread/threadlist.c:182-198 | refines taking the first element, NULL exactly for the empty list |
| `ThreadList.List.RemTail` | kern/thread/threadlist.c:200-216 | refines taking the last element, NULL exactly for the empty list |
| `ThreadList.List.InsertAfter` | kern/thread/threadlist.c:218-224 | refines insertion behind an element |
| `ThreadList.List.InsertBefore` | kern/thread/threadlist.c:226-232 | refines insertion in front of an element |
| `ThreadList.List.Remove` | kern/thread/threadlist.c:234-240 | refines removal of an element |
| `WaitChannel.Sleep` | kern/thread/thread.c:607-619 | going to sleep appends the thread to the channel, which holds exactly the sleeping threads, once each |
| `WaitChannel.WakeOne` | kern/thread/thread.c:1025-1049 | the first sleeper leaves the channel |
| `WaitChannel.WakeAll` | kern/thread/thread.c:1054-1082 | all sleepers leave the channel |
| `Semaphore.KeepsExclusive` | kern/thread/synch.c:88-135 | the spinlock has one holder, the thread that is between taking and releasing it |
| `Semaphore.KeepsTake` | kern/thread/synch.c:110-120 | P decrements a count that is still positive |
| `Semaphore.KeepsBound` | kern/thread/synch.c:88-135 | a step keeps the count of units at most the number of threads on their way to take or hand on one, while anybody sleeps |
| `Semaphore.StepInvariant` | kern/thread/synch.c:88-135 | all of it, for every step of every thread |
| `Semaphore.RunInvariant` | kern/thread/synch.c:88-135 | and over every interleaving of any threads |
| `Semaphore.NoLostWakeup` | kern/thread/synch.c:88-135 | over every interleaving the count is initial + ups - downs, and whenever the spinlock is free and a thread sleeps, the count is at most the number of woken threads that have not rechecked |
| `Semaphore.SleepersNeedUnits` | kern/thread/synch.c:88-135 | when all threads are outside or asleep, a sleeper means that the count is 0 |
| `Semaphore.CallsAccounted` | kern/thread/synch.c:88-135 | over every interleaving each call of P takes exactly one unit and each call of V adds exactly one, once it gets past that point: ups and downs plus the calls still on their way are the calls made; that calls come to their end is PTakesUnit to SpinlockIsFreed |
| `Semaphore.PTakesUnit` | kern/thread/synch.c:88-121 | with the spinlock free and a unit there, five turns of P leave the thread outside, the spinlock free, one unit less and everything else as it was |
| `Semaphore.PSleeps` | kern/thread/synch.c:101-116 | without a unit P sleeps behind the other sleepers, with the spinlock free |
| `Semaphore.WokenTakesUnit` | kern/thread/synch.c:101-121 | a woken thread takes a unit and returns, or goes back to sleep behind the others |
| `Semaphore.VAddsUnit` | kern/thread/synch.c:122-135 | five turns of V add one unit, wake exactly the first sleeper, free the spinlock and change nothing else |
| `Semaphore.SpinlockIsFreed` | kern/thread/synch.c:88-135 | from every reachable state, once the holder of the spinlock has had three turns, whatever else ran in between, the spinlock has been free |
| `Semaphore.WokenInOrder` | kern/thread/thread.c:1025-1049 | first come, first served: a sleeper with p others in front is woken by the next p + 1 calls of V, whatever else runs |
| `Semaphore.WokenFromSleep` | kern/thread/thread.c:1025-1049 | only the first sleeper is woken, and only by a V |
| `LockCv.Others` | kern/thread/thread.c:1025-1082 | a step moves no other thread, except that a release wakes exactly the first sleeper, a signal exactly the first waiter and a broadcast every waiter |
| `LockCv.StepInvariant` | kern/thread/synch.c:184-317 | every step of every thread keeps each spinlock and the lock with one owner, both channels exact and a free lock contended |
| `LockCv.RunInvariant` | kern/thread/synch.c:184-317 | over every interleaving |
| `LockCv.MutualExclusion` | kern/thread/synch.c:184-223 | at most one thread has the lock in every run |
| `LockCv.FreeLockIsContended` | kern/thread/synch.c:184-223 | a free lock with sleepers has a woken contender, or a releaser about to wake one |
| `LockCv.FreeLockHasWoken` | kern/thread/synch.c:184-223 | and with the spinlock free it has a woken contender |
| `LockCv.WaiterIsOnChannel` | kern/thread/synch.c:283-317 | a signal or broadcast finds every thread that gave up the lock in cv_wait on the channel |
| `LockCv.WaiterIsWoken` | kern/thread/synch.c:283-317 | such a thread leaves the wait only by being woken by a signal, when it is first, or by a broadcast |
| `LockCv.NoLostSignal` | kern/thread/synch.c:283-317 | run level: from the moment a waiter gives up the lock, whenever any thread signals or broadcasts, the waiter has been woken since or is on the channel; a broadcast wakes it |
| `LockCv.WokenInOrder` | kern/thread/thread.c:1025-1049 | first come, first served on both channels: a sleeper with p others in front is woken by the next p + 1 releases, a waiter by the next p + 1 signals, whatever else runs |
| `LockCv.Forward` | kern/thread/thread.c:1025-1049 | a step moves a sleeper or waiter forward by one if it is a wakeup on its channel and never back |
| `LockCv.ChannelStep` | kern/thread/thread.c:1025-1082 | a step appends its own thread to a channel, takes its first one, takes all, or leaves it |
| `LockCv.WokenFromSleep` | kern/thread/thread.c:1025-1082 | only sleepers are woken: the first by a release or a signal, any by a broadcast |
| `LockCv.WorkAccounted` | kern/thread/synch.c:184-317 | calls do what they are for, over every interleaving: an acquire or a wait takes the lock once, a release or a wait gives it up once, a wait sleeps once, a signal or broadcast wakes once; done plus still to be done is exactly what was asked for |
| `LockCvCalls.AcquireTakes` | kern/thread/synch.c:184-206 | lock_acquire of a free lock: five turns take it, free the spinlock and change nothing else |
| `LockCvCalls.AcquireSleeps` | kern/thread/synch.c:184-206 | of a held lock: the thread sleeps behind the others, with the spinlock free |
| `LockCvCalls.WokenTakes` | kern/thread/synch.c:184-206 | a woken sleeper takes the lock, or sleeps again behind the others |
| `LockCvCalls.ReleaseWakes` | kern/thread/synch.c:208-223 | lock_release: the lock and the spinlock are free, exactly the first sleeper is woken, and nothing else changes |
| `LockCvCalls.WaitSleeps` | kern/thread/synch.c:283-289 | cv_wait: the lock is released in the same way and the thread sleeps behind the other waiters |
| `LockCvCalls.WaitReturns` | kern/thread/synch.c:283-299 | a woken waiter takes the lock and returns |
| `LockCvCalls.SignalWakes` | kern/thread/synch.c:302-309 | cv_signal wakes exactly the first waiter and changes nothing else |
| `LockCvCalls.BroadcastWakes` | kern/thread/synch.c:311-317 | cv_broadcast wakes every waiter and changes nothing else |
| `LockCvCalls.SpinlockIsFreed` | kern/thread/synch.c:184-317 | from every reachable state, once the holder of a spinlock has acted three times (the lock's) or five times (the condition variable's), whatever else ran in between, the spinlock has been free |
| `LockCvCalls.LockSpinlockIsFreed` | kern/thread/synch.c:184-223 | the holder of the lock's spinlock never spins, so three turns of its own are enough |
| `LockCvCalls.CvSpinlockCanBeFreed` | kern/thread/synch.c:283-317 | from every reachable state at most eight turns, of the two spinlocks' holders alone, free the condition variable's spinlock |
| `Migration.Scheduler.Count` | kern/thread/thread.c:863-873 | total and own queue lengths |
| `Migration.Scheduler.TakeVictims` | kern/thread/thread.c:880-887 | the last threads of the own queue, in order; that so many are there is MigrationRuns.NeverPopsEmpty |
| `Migration.Scheduler.SendTo` | kern/thread/thread.c:894-938 | one receiver's locked section, from any state of the queues, refines the section function: the victims are taken in order, exactly those other than curthread are appended to the queue and curthread goes behind the rest; nobody is lost, t_cpu follows the queue, the receiver is not raised above its share, and the victims list is never popped empty |
| `Migration.Scheduler.SendAll` | kern/thread/thread.c:889-939 | with room for all of them every victim but curthread is sent |
| `Migration.Scheduler.PutBack` | kern/thread/thread.c:946-952 | leftovers go back to the end of the own queue |
| `Migration.Scheduler.ConsiderMigration` | kern/thread/thread.c:854-957 | without interference: the share is the least that suffices for the total; refines the whole-run function; the multiset of queued threads is conserved, each is on the queue that its t_cpu names, curthread stays, this processor ends with its share (one more exactly if curthread was a victim), no other one is raised above it |
| `Migration.RoomIs` | kern/thread/thread.c:875-895 | how much the other queues can take follows from the total |
| `Migration.RoundedUp` | kern/thread/thread.c:875-875 | the rounded-up average is the least share with which so many processors hold the total |
| `Migration.TotalIs` | kern/thread/thread.c:863-873 | the total is the number of queued threads |
| `MigrationRuns.SendKeeps` | kern/thread/thread.c:900-938 | a receiver's section: what is appended and what remains are the victims, without curthread, within the share, and with enough victims left for what is still to be sent |
| `MigrationRuns.StepFine` | kern/thread/thread.c:854-957 | any locked section of any processor, any thread that becomes runnable and any switch keeps the invariant: each thread at most once on the queue or among the victims of the processor that its t_cpu names, current threads in place, stale counts not above what is there, and no more to send than victims |
| `MigrationRuns.StartFine` | kern/thread/thread.c:854-861 | it holds of any queues when nobody migrates |
| `MigrationRuns.RunFine` | kern/thread/thread.c:854-957 | and over every interleaving of any number of processors that migrate at once |
| `MigrationRuns.Conserved` | kern/thread/thread.c:854-957 | over every interleaving the multiset of threads on queues and among victims changes only by threads that become runnable and threads that are run |
| `MigrationRuns.OnePlace` | kern/thread/thread.c:854-957 | over every interleaving a ready thread is in one place, once, and that is where its t_cpu says |
| `MigrationRuns.CurrentStays` | kern/thread/thread.c:903-928 | over every interleaving a processor's current thread belongs to it and is on no other one's queue or victims list |
| `MigrationRuns.NeverPopsEmpty` | kern/thread/thread.c:880-902 | over every interleaving the own queue still holds what the stale count promised, and the victims suffice for what is still to be sent |
| `MigrationRuns.NotAboveShare` | kern/thread/thread.c:894-938 | over every interleaving a sender changes no queue but the receiver's, only by appending, and not above its share |
| `MigrationRuns.ShareOfCount` | kern/thread/thread.c:875-880 | over every interleaving the share is the least that suffices for the total that was counted, and the processor goes on exactly if it counted that much of its own, to send what is above |
| `MigrationRuns.RunInOrder` | kern/thread/thread.c:854-957 | a thread with p others in front on a run queue gets to run, or is taken to be sent, by the time that the processor has switched p + 1 times, whatever else happens |
| `MigrationRuns.RunsAlone` | kern/thread/thread.c:854-957 | with nothing in between, the locked sections of one processor make up exactly what ConsiderMigration does |
| `WaitsFor.AcyclicEnds` | kern/thread/hangman.c:50-68 | in a waits-for graph without cycles every chain ends |
| `WaitsFor.EndsAcyclic` | kern/thread/hangman.c:50-68 | and if every chain ends there is no cycle |
| `WaitsFor.WaitClosesCycle` | kern/thread/hangman.c:109-129 | recording a wait closes a cycle exactly when the lockable's holder already leads to the waiting actor |
| `WaitsFor.AcquireAcyclic` | kern/thread/hangman.c:131-157 | acquiring keeps the graph acyclic |
| `WaitsFor.ReleaseAcyclic` | kern/thread/hangman.c:159-182 | releasing keeps the graph acyclic |
| `Hangman.Detector.Check` | kern/thread/hangman.c:50-68 | terminates because the graph is acyclic, and finds the target exactly if the holders lead to it |
| `Hangman.Detector.Wait` | kern/thread/hangman.c:109-129 | reports a deadlock exactly when the new edge would close a cycle; panics exactly when the actor already waits |
| `Hangman.Detector.Acquire` | kern/thread/hangman.c:131-157 | succeeds exactly when the actor waits for the free lockable, and then it holds it and waits for nothing |
| `Hangman.Detector.Release` | kern/thread/hangman.c:159-182 | succeeds exactly for the holder that waits for nothing |
| `Hangman.Detector.Run` | kern/thread/hangman.c:50-182 | over every sequence of calls the recorded graph is acyclic, and a run that ends with a report ends at a wait that closes a cycle |
| `PidTable.Search` | kern/proc/pid.c:248-262 | for any table size and any pid range with at least as many pids: the search stops at the first pid of a free slot, going around, in fewer than twice as many steps as there are slots, across wraparound, so the loop assertion never fails |
| `PidTable.StepsDown` | kern/proc/pid.c:217-227 | each step of the search comes one closer to a given free slot |
| `PidTable.Table.constructor` | kern/proc/pid.c:126-148 | the kernel's record alone, and the first pid next |
| `PidTable.Table.Drop` | kern/proc/pid.c:196-210 | the record is gone, every other one is as it was, and the number of processes and the ledger of records stay right |
| `PidTable.Table.Alloc` | kern/proc/pid.c:232-280 | EAGAIN exactly when the table is full; otherwise the first pid from nextpid on whose slot is free, with a record that names the caller, pid and serial number, as parent and nextpid moved behind it, or ENOMEM |
| `PidTable.Table.Start` | kern/proc/pid.c:282-285 | a child whose record is present and not exited may start to run, which ends the time in which it can be unallocated |
| `PidTable.Table.Unalloc` | kern/proc/pid.c:286-308 | the record of a child that has not run is dropped |
| `PidTable.Table.DisownSlot` | kern/proc/pid.c:326-331 | the child loses its parent and is dropped exactly if it has exited |
| `PidTable.Table.Disown` | kern/proc/pid.c:314-333 | the same for a given child |
| `PidTable.Table.DisownAll` | kern/proc/pid.c:352-363 | the loop does so for every child and for nobody else |
| `PidTable.Table.SetExitStatus` | kern/proc/pid.c:343-382 | children are disowned; the record stays with its status if the parent runs and is dropped otherwise; a waiting parent is woken |
| `PidTable.Table.WaitBegin` | kern/proc/pid.c:392-465 | which error comes when, in the order of the checks; WNOHANG, with which it never sleeps; reaping an exited child; or going to sleep |
| `PidTable.Table.Reap` | kern/proc/pid.c:446-462 | the exited child's record is dropped |
| `PidTable.Table.WaitEnd` | kern/proc/pid.c:441-465 | after the un-looped cv_wait the very record that was waited for is present and exited, and its status is returned |
| `PidTable.Table.Execute` | kern/proc/pid.c:232-465 | any turn of any process keeps the table's invariants |
| `PidTable.Table.Run` | kern/proc/pid.c:232-465 | over every run; records that were dropped stay dropped |
| `PidTable.ParentIsAlive` | kern/proc/pid.c:232-465 | a non-null parent pid names a present process that has not exited and is the very one that made the record, even under pid reuse; an exited record has a running parent |
| `PidTable.WaiterFindsChild` | kern/proc/pid.c:441-444 | a woken waiter's record is present, exited, its child, and was never dropped |
| `PidTable.OneWaiterEach` | kern/proc/pid.c:428-442 | no two processes wait for the same record |
| `PidTable.DroppedOnce` | kern/proc/pid.c:178-210 | every record ever made is in the table or was dropped, never both and never twice |
| `PidRecords.OccupiedUpdate` | kern/proc/pid.c:178-210 | nprocs counts the occupied slots |
| `PidRecords.PutFamily` | kern/proc/pid.c:178-188 | a new record keeps records in their slots and parents in place |
| `PidRecords.DropFamily` | kern/proc/pid.c:196-210 | and so does dropping one that does not run |
| `PidRecords.ExitWaits` | kern/proc/pid.c:372-378 | an exit keeps waiters and records in agreement |
| `Numerals.TextLength` | common/libc/printf/__printf.c:76-84 | a numeral has at most k digits exactly if the number is below the k-th power of the base |
| `Numerals.Fits` | common/libc/printf/__printf.c:84-84 | every 64-bit value in base 8, 10 or 16 fits NUMBER_BUF_SIZE with its terminator |
| `Numerals.FitsExactly` | common/libc/printf/__printf.c:76-84 | and the largest one in octal fills it: there is no character to spare |
| `Numerals.ValueText` | common/libc/printf/__printf.c:430-462 | a numeral in any base up to 16 stands for its number |
| `Formats.OutputConcat` | common/libc/printf/__printf.c:570-592 | a format prints its parts one after the other |
| `Formats.Literal` | common/libc/printf/__printf.c:503-510 | text without % prints as itself |
| `Formats.ModifiersCollect` | common/libc/printf/__printf.c:181-233 | modifiers print nothing and are collected |
| `Formats.Directive` | common/libc/printf/__printf.c:497-563 | a directive prints its argument in the field that its modifiers make, uses up exactly that argument (none for %% and letters that are no conversion) and resets the state |
| `Formats.WidthIs` | common/libc/printf/__printf.c:206-231 | the digits of a number set the field width to it |
| `Formats.PaddedLength` | common/libc/printf/__printf.c:366-404 | a field is as wide as asked for, or as its text |
| `Formats.IntDirective` | common/libc/printf/__printf.c:259-290 | any directive for an int prints sign and decimal numeral in its field |
| `Formats.DecimalText` | common/libc/printf/__printf.c:259-290 | %d prints the decimal numeral, with a minus sign exactly for negative ints |
| `Formats.WideDecimalText` | common/libc/printf/__printf.c:376-386 | %Nd right-aligns that text |
| `Formats.LeftZeroFill` | common/libc/printf/__printf.c:400-403 | %-0Nd fills with zeros on the right, where section 7.19.6.1 of ISO/IEC 9899:1999 has the 0 flag ignored; the two agree if and only if the text fills the field |
| `Directives.FieldIs` | common/libc/printf/__printf.c:180-233 | any flags, width and size set exactly the fields of the state that they are for |
| `Directives.AlignRight` | common/libc/printf/__printf.c:383-386 | for every conversion: without - and 0, spaces before the text of the bare directive |
| `Directives.AlignLeft` | common/libc/printf/__printf.c:400-403 | for every conversion: with -, the fill behind it |
| `Directives.ZeroFill` | common/libc/printf/__printf.c:392-395 | for every conversion: with 0 alone, zeros between sign and prefix and the digits |
| `Directives.SignedText` | common/libc/printf/__printf.c:253-287 | %d, %ld, %zd and %lld print sign and decimal numeral of every number of their size |
| `Directives.UnsignedText` | common/libc/printf/__printf.c:288-343 | %u, %o, %x and %p of any size print digits that stand for the number in base 10, 8, 16 and 16, behind 0x for %p and %#x and 0 for %#o |
| `Directives.StringText` | common/libc/printf/__printf.c:533-543 | %s prints its string, and (null) for the null pointer |
| `Directives.CharacterText` | common/libc/printf/__printf.c:544-561 | %c prints the character of the argument's low byte, and nothing for 0 |
| `Directives.OtherText` | common/libc/printf/__printf.c:544-561 | %% and letters that are no conversion print themselves |
| `Directives.PieceAlone` | common/libc/printf/__printf.c:497-563 | a piece of a format prints by itself, uses up its own argument, and looks at no other |
| `Directives.EachPrintsItsOwn` | common/libc/printf/__printf.c:570-592 | each piece of a format prints, at its place, what it prints of its own argument alone |
| `Directives.KthPrintsKth` | common/libc/printf/__printf.c:570-592 | of directives that all take an argument the k-th prints the k-th |
| `Directives.TwoNumbers` | common/libc/printf/__printf.c:289-310 | for instance %u%u |
| `Printf.Snp.Send` | common/libc/printf/snprintf.c:73-93 | the longest prefix that fits is stored, and nothing behind it changes |
| `Printf.Convert` | common/libc/printf/__printf.c:418-462 | the digit loop fills the buffer from the right, never runs out of it, and leaves the numeral and a terminator |
| `Printf.LastDigit` | common/libc/printf/__printf.c:440-455 | one digit of the conversion |
| `Printf.Printer.constructor` | common/libc/printf/__printf.c:571-586 | the initial state |
| `Printf.Printer.Print` | common/libc/printf/__printf.c:144-150 | sent text is appended and counted |
| `Printf.Printer.EndField` | common/libc/printf/__printf.c:155-169 | the state is reset |
| `Printf.Printer.Modifier` | common/libc/printf/__printf.c:180-233 | a digit that is part of the width is written behind the width's numeral, a leading 0 sets the fill character; refines the modifier function, of which Directives.FieldIs says what a whole directive collects |
| `Printf.Printer.GetNum` | common/libc/printf/__printf.c:240-311 | the number of the argument's width that is congruent to the argument, from minus half to half of the range for %d and from 0 on otherwise, as magnitude and sign |
| `Printf.Printer.SetBase` | common/libc/printf/__printf.c:323-343 | the digits that will be printed stand for the number in the base of the conversion, with the prefix that the directive calls for; see Directives.UnsignedText |
| `Printf.Printer.FillOut` | common/libc/printf/__printf.c:348-357 | that many fill characters |
| `Printf.Printer.PrintStuff` | common/libc/printf/__printf.c:365-404 | spaces before the prefixes, zeros after them, fill on the right behind the text: the layout function |
| `Printf.Printer.PrintNum` | common/libc/printf/__printf.c:413-491 | sign, base prefix and numeral in the field |
| `Printf.Printer.Send` | common/libc/printf/__printf.c:496-563 | one character of the format does what the format function says |
| `Printf.VPrintf` | common/libc/printf/__printf.c:570-592 | the whole output goes to the sink in order and its length is returned |
| `Printf.VSnprintf` | common/libc/printf/snprintf.c:98-142 | stores the longest fitting prefix of the output and a terminator, touches nothing behind it, touches nothing at all for length 0, and returns the full length (section 7.19.6.5 of ISO/IEC 9899:1999) |
| `Atoi.Atoi` | common/libc/stdlib/atoi.c:49-101 | blanks, optional sign, longest run of digits, in unsigned 32-bit arithmetic, read as an int |
| `Atoi.ReadDigits` | common/libc/stdlib/atoi.c:71-92 | the accumulator is the value of the digits modulo 2^32 |
| `Atoi.ParsedIs` | common/libc/stdlib/atoi.c:49-101 | the value of blanks, sign, digits and anything behind them |
| `Atoi.NoNumber` | common/libc/stdlib/atoi.c:49-101 | text without a digit where the number should be is 0 |
| `Atoi.BlanksAre` | common/libc/stdlib/atoi.c:56-59 | the characters that are skipped are the space and the tab |
| `Atoi.RoundTrip` | common/libc/stdlib/atoi.c:49-101 | reading what %d printed gives the int back, for every int, after blanks and before any text that does not start with a digit |
| `Atoi.ReadBack` | common/libc/stdlib/atoi.c:49-101 | in particular for the text alone |
| `UserMemory.CopyInWord` | kern/vm/copyinout.c:152-179 | a word is read exactly if its bytes are mapped |
| `UserMemory.CopyOutWord` | kern/vm/copyinout.c:188-215 | a word is written exactly if its bytes are mapped, and reads back |
| `UserMemory.CopyInStr` | kern/vm/copyinout.c:234-288 | found, too long or fault, whichever comes first; with no room at all it is a fault |
| `UserMemory.CopyOutStr` | kern/vm/copyinout.c:234-321 | a string is written exactly if its bytes are mapped |
| `ArgBuf.Buffer.constructor` | kern/syscall/runprogram.c:91-134 | an empty buffer of the given size |
| `ArgBuf.Buffer.Fetch` | kern/syscall/runprogram.c:185-200 | one string is read behind the others |
| `ArgBuf.Buffer.CopyIn` | kern/syscall/runprogram.c:165-207 | on success the buffer holds the packed strings of the argv; on failure, exactly what stopped it |
| `ArgBuf.CopyInOutcome` | kern/syscall/runprogram.c:165-207 | for a readable argv: success exactly when the strings fit, and otherwise E2BIG if and only if no number of arguments fills the buffer to the last byte; in that case the answer is EFAULT |
| `ArgBuf.ExactlyFull` | kern/syscall/runprogram.c:185-195 | two one-letter arguments and a two-byte buffer: EFAULT instead of E2BIG |
| `ArgBuf.Buffer.CopyOut` | kern/syscall/runprogram.c:255-323 | on success the stack holds the same strings in the same order behind argc pointers and a NULL; the pointer array ends where the strings begin; nothing else changes; it succeeds exactly if that space is mapped; the loop comes out even |
| `ArgBuf.StringBase` | kern/syscall/runprogram.c:277-279 | the strings start at an aligned address and end at most three bytes below the old stack top |
| `ArgBuf.Transfer` | kern/syscall/runprogram.c:165-323 | both together: the new program finds the strings that the old one passed, exactly if the old argv is readable and fits the buffer and the new stack has room for it; E2BIG exactly as for copying in |

## Left out

- Hardware: the TLB, interrupts, context switch assembly, memory barriers.  `as_copy` clears writable bits without
  flushing the TLB, so isolation is stated on page table entries.
- `as_complete_load`, `as_define_region`, `as_prepare_load` and the loading of programs.
- The heap's debug modes (guard bands, labels, consistency checks) and its statistics.
- Before the frame table is set up `alloc_kpages` takes memory from `ram_stealmem`; the model starts after that.
- `thread_make_runnable` and the run queues in the blocking protocols: a woken thread is simply one whose turn may come.
- `thread_fork`, `thread_exit`, the scheduler's choice of the next thread and idle processors.
- Hangman's report text, which is printed on the way to a panic.
- `pid_alloc` and `pid_wait` inside `fork` and `waitpid`, which copy results to user space.
- Formatted output to the console, `snprintf` with real variable argument lists, and `%` widths or character counts that
  overflow an int.
- `argbuf_fromuser`, which tries a small buffer before a large one, and `argbuf_fromkernel`.
- `bswap64` and the one-branch arithmetic helpers.
- Devices, file systems, the virtual file system layer, system call dispatch and user programs.
- KHeap.Heap.SubpageKmalloc: runs its critical sections one right after the other; HeapRuns.Machine.Run has them interleaved with anything else.
- Paging.Vm.VmFault: takes the fault as one step and leaves out what is written to the TLB.
- ArgBuf.Buffer.CopyOut: assumes that the stack top is high enough for the arguments, as it is for the fixed top that the caller passes, and does not describe memory after a failed copy.
- Migration.Scheduler.TakeVictims: requires that the queue still holds what was counted, which MigrationRuns.NeverPopsEmpty proves over every interleaving.
- Migration.Scheduler.ConsiderMigration: runs its sections one right after the other; MigrationRuns has them interleaved with anything else.
