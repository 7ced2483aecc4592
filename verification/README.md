# Verified model of the Vaelen kernel

Vaelen is a small 32-bit kernel written in C. This project models the parts of it that hold real
state machines and arithmetic, and proves what they keep over every run.

| file | models |
|---|---|
| Machine.dfy | word size, bytes and the string terminator |
| KernelHeap.dfy, HeapAllocator.dfy | the heap of kernel/mm.c: block lists and runs; then `kmalloc_ap` and `kfree` on linked headers |
| BitWords.dfy, PageFrames.dfy | the frame bitmap, frame allocation and the ownership of frames by page entries |
| PageTables.dfy | `mm_get_page`: a two-level table built in heap blocks |
| Scheduling.dfy, ScheduleCalls.dfy | the task state machine with timer ticks; then schedule calls with ticks inside their scans |
| Scheduler.dfy | the linked task list that runs the state machine |
| RandomNumbers.dfy | `rand` and `srand` |
| Numerals.dfy | `itoa`, `atoi`, `strtol` |
| ByteStrings.dfy | `memmove`, `strlen`, `strncmp`, `strstr` |
| Keyboard.dfy | scancode decoding and the ring between interrupt handler and reader |
| Screen.dfy | the 80x25 text screen |
| Tokenizer.dfy | the shell's in-place word splitting and `echo` |
| LineEditor.dfy | the shell's line input, its echo on the screen and the history ring |

`dafny verify dfyconfig.toml` checks everything.

## How to read it

Code that changes state is a class or a method over arrays, and its contract ties the new state to a
function or relation on values (`KernelHeap.Step`, `Scheduling.Next`, `Keyboard.Next`, `Screen.Put`,
`Tokenizer.Words`). The lemmas about those values then speak of every run.

- Heap. Headers are a map from address to the four fields of `mem_block_t`; payload words live in a
  map of their own. Each call says which header cells it may write, and
  `HeapAllocator.CallSparesPayloads` shows that none of them overlaps a payload that stays live; page
  tables add the converse, that clearing a new table overlaps no header. The block list is
  canonical: it is determined by the allocated blocks alone, which yields the restoration results.
- Exhaustion. When no hole fits, the code falls back to a placement pointer that starts at the heap
  start. `HeapAllocator.Heap.Kmalloc` follows that branch and shows that it either panics or links the
  first header to itself, after which no block list is represented. A request whose 32-bit sum wraps
  gets a block smaller than itself. Runs therefore consist of calls that do neither.
- Frames. Frame 0 doubles as "no frame". `PageFrames.FrameZeroIsNobodys` says exactly when that
  loses a frame.
- Scheduler. Records are numbered in the order of creation, so the list head has the greatest number
  and identity does not depend on pid wrap. A schedule call is a series of single visits followed by
  the switch, and ticks may fall between any two of them: ScheduleCalls says what such a call picks
  and when it leaves the current task READY. `Scheduling.AtomicNext` is the undisturbed call.
  The linked list carries out both kinds. The context switch is opaque and "No tasks to run" is a final state.
- Keyboard. Each step of the reader and each handler run is indivisible; the interrupt stub disables
  interrupts.
- Screen. A byte of 128 or more fills the attribute byte with ones, because `char` is signed.
- Line input. The characters to come are a parameter; a call that runs out of them is still waiting.
- Names against behaviour: `mm_find_smallest_hole` is first fit and ignores alignment; the code is
  followed.

## Model

| member | source | states |
|---|---|---|
| KernelHeap.BlockListIsCanonical | kernel/mm.c:209-243 | Two block lists that tile the same range, with no two free neighbours, and have the same allocated blocks are equal: splitting and coalescing leave no trace of history |
| KernelHeap.TakeKeepsTiling | kernel/mm.c:209-221 | Taking a free block that is large enough, split or whole, keeps the list a gap-free tiling of the heap without two neighbouring free blocks |
| KernelHeap.ReleaseKeepsTiling | kernel/mm.c:226-243 | Freeing a block, with coalescing on neither, either or both sides, keeps the tiling and leaves no two free neighbours |
| KernelHeap.UsedAfterTake | kernel/mm.c:209-223 | An allocation adds exactly one block to the allocated ones |
| KernelHeap.UsedAfterRelease | kernel/mm.c:226-243 | A free removes exactly the freed block from the allocated ones |
| KernelHeap.RunKeepsInv | kernel/mm.c:179-243 | In every run of allocations that find a hole and frees of live pointers, the list tiles the heap and the allocated blocks are exactly the live pointers, each at least as large as requested |
| KernelHeap.LivePayloadsAreSeparate | kernel/mm.c:155-224 | Live payloads lie inside the heap, overlap no block header and are pairwise disjoint |
| KernelHeap.PayloadAvoidsHeader | kernel/mm.c:155-224 | A live payload lies inside the heap and overlaps no header of the list |
| KernelHeap.LiveBlocksStayPut | kernel/mm.c:179-243 | Between its allocation and its free, whatever happens to other pointers, a block keeps its address and size |
| KernelHeap.AllFreedRestoresHeap | kernel/mm.c:180-187 | Once nothing is live, in whatever order it was freed, the heap is one free block of 16 MB less 16 bytes at 0xD0000000 again |
| KernelHeap.FreeUndoesMalloc | kernel/mm.c:209-243 | Freeing the pointer an allocation just returned restores the exact previous state, split or not |
| KernelHeap.HeapForgetsHistory | kernel/mm.c:179-243 | Any two runs that leave the same blocks allocated leave identical block lists |
| HeapAllocator.Heap.FindHole | kernel/mm.c:155-165 | Following the links returns the first free block of at least the needed size, or none exactly when there is none |
| HeapAllocator.Heap.TakeHole | kernel/mm.c:209-223 | The link writes of a split or whole allocation turn a memory that represents the old list into one that represents the new list, forward and backward links alike |
| HeapAllocator.Heap.PlaceBlock | kernel/mm.c:193-207 | Without a hole: a panic exactly when the placement sum exceeds the heap end, else a header over the first one, linked to itself, so that no memory list is left; only the first header's cell is written |
| HeapAllocator.Heap.Kmalloc | kernel/mm.c:167-224 | For every 32-bit size: null exactly for 0 bytes; a block exactly when some free one has at least size + 16 bytes modulo 2^32; the block is the first such one in address order, the pointer is its address plus 16, it is cut to size bytes with a free rest when at least size + 24 are there and handed out whole otherwise; a panic exactly when no block fits and 0xD0000000 plus size plus 16, modulo 2^32, exceeds the heap end; otherwise the first header has been overlaid. No cell but the headers of the old and new list is written, unless the sum wrapped and a smaller block was handed out |
| HeapAllocator.Heap.KmallocAp | kernel/mm.c:179-224 | The same call as one step of the heap that runs are made of |
| HeapAllocator.StepGrants | kernel/mm.c:191-223 | Every allocation step takes the first fit, cuts it by the 24-byte rule and makes its payload live |
| HeapAllocator.Heap.Kfree | kernel/mm.c:226-243 | Freeing a live pointer performs one step of the heap on the links: the allocated blocks lose exactly the one 16 bytes before the pointer, and no cell but the old list's headers is written; freeing null changes nothing |
| HeapAllocator.HeaderWritesSparePayloads | kernel/mm.c:179-243 | No header a call may write overlaps a payload that is live before and after the call |
| HeapAllocator.CallSparesPayloads | kernel/mm.c:179-243 | So every header cell that a call changed in memory lies outside all payloads that stay live |
| HeapAllocator.Heap.ReleaseLinks | kernel/mm.c:228-242 | Marking a block and joining it to free neighbours through `prev` and `next` leaves both link directions consistent with the coalesced list |
| HeapAllocator.WrappedRequestsUnderallocate | kernel/mm.c:191-192 | The block found for a request holds the requested bytes exactly when size + 16 does not wrap around 2^32 |
| BitWords.OrMask | kernel/mm.c:18-20 | Or-ing with 1 << k sets bit k of a 32-bit word and no other |
| BitWords.AndNotMask | kernel/mm.c:22-24 | And-ing with the complement of 1 << k clears bit k and no other |
| BitWords.MaskDoubles | kernel/mm.c:18-28 | The masks are 1, 2, 4 and so on, so bit 0 is the lowest of the word |
| PageFrames.FrameBits | kernel/mm.c:26-28 | Frame b is bit b % 32 of word b / 32 |
| PageFrames.OneBitChanges | kernel/mm.c:18-28 | A word update that changes one bit adds or removes exactly one frame number of the represented set |
| PageFrames.FrameAllocator.SetBit | kernel/mm.c:18-20 | The set of frames gains exactly the given one |
| PageFrames.FrameAllocator.UnsetBit | kernel/mm.c:22-24 | The set of frames loses exactly the given one |
| PageFrames.FrameAllocator.FirstFree | kernel/mm.c:30-35 | The least clear bit, or -1 exactly when all bits are set |
| PageFrames.FrameAllocator.AllocFrame | kernel/mm.c:135-145 | Panics exactly when the entry has no frame and every bit is set; otherwise gives the entry the least clear frame, sets that bit, counts it and sets the entry's flags; on a panic and for an entry that has a frame nothing at all changes |
| PageFrames.FrameAllocator.FreeFrame | kernel/mm.c:147-153 | Clears the bit, the entry's frame and one count and leaves its flags as they are; an entry without a frame is left alone |
| PageFrames.FrameTable.AllocEntry | kernel/mm.c:135-145 | Allocating for an entry of a table of page entries is one step of the run, or panics and changes nothing |
| PageFrames.FrameTable.FreeEntry | kernel/mm.c:147-153 | Freeing an entry of a table of page entries is one step of the run |
| PageFrames.RunKeepsFrames | kernel/mm.c:135-153 | In every run over page entries no two entries hold the same non-zero frame, owned frames keep their bits set, used_blocks moves with the number of set bits modulo 2^32, and set bits without an owner never change apart from frame 0 |
| PageFrames.FrameZeroIsNobodys | kernel/mm.c:136-144 | An allocation leaves the entry without a frame exactly when bit 0 was clear; bit 0 is then set, counted and owned by nobody |
| PageFrames.FreeUndoesAlloc | kernel/mm.c:135-153 | Freeing right after allocating restores bits, counter and entry exactly when bit 0 was already set |
| PageTables.EntriesAreDistinct | kernel/mm.c:120-126 | Two addresses get the same entry exactly when their page numbers agree, across tables because heap payloads are disjoint |
| PageTables.EntriesInARow | kernel/mm.c:124 | The entries of one table lie four bytes apart in page order, the first at the start of the table |
| PageTables.PageHasTableIff | kernel/mm.c:121-124 | A page is in the flat map exactly when the slot of its 4 MB holds a table, and its entry is the word at the table plus 4 times the page's place in it |
| PageTables.ZeroTableEntries | kernel/mm.c:128 | A new table gives exactly the 1024 pages of its 4 MB an entry, all of them zero, and no other page changes |
| PageTables.LowBitsSet | kernel/mm.c:129 | The physical slot has bits 0 to 2 set and is otherwise the table's address |
| PageTables.TableInstalled | kernel/mm.c:125-130 | A zeroed table from the heap adds 1024 zero entries to the flat map, and the zeroing changes no live payload word, no existing entry and no header byte |
| PageTables.OwnedEntriesSpared | kernel/mm.c:120-130 | Header writes that spare live payloads spare every existing page entry |
| PageTables.PageDirectory.GetPage | kernel/mm.c:120-133 | Null exactly when the page has no table and none is to be made; the heap failing exactly when one is to be made and no free block has 4112 bytes; otherwise the table of the address's 4 MB plus 4 times the page's place in it, the flat map unchanged or extended by zero entries only, and tables_physical extended by the new table with bits 0 to 2 set; header writes of the allocation overlap no existing entry and the zeroing overlaps no header |
| Scheduling.RunKeepsInv | kernel/task.c:81-148 | Under every interleaving of create, fork, yield, sleep, wake, exit, timer ticks and single scan visits, at most one task is RUNNING and it is the current one, the scan's candidate stays eligible, the current task is neither zombie nor asleep outside schedule calls, and pids count creations modulo 2^32 |
| Scheduling.ZombiesAreFinal | kernel/task.c:81-86 | In every run a zombie's state and exit code never change again |
| Scheduling.StateChanges | kernel/task.c:81-148 | In every run a task stops being READY or RUNNING exactly by its own sleep or exit, becomes RUNNING exactly by the switch that picks it, goes from RUNNING to READY exactly by the switch that preempts it, and wakes exactly by its last countdown or a wake; pid and priority never change |
| Scheduling.CallsChangeOne | kernel/task.c:81-104 | A sleeper holds the ticks it asked for, an exited task is a ZOMBIE with its code, a woken one is READY with no ticks; no other record changes |
| Scheduling.SwitchChangesTwo | kernel/task.c:126-142 | A switch makes the picked task RUNNING and a RUNNING predecessor READY; no other record changes, and none does when the current task is picked again or the system halts |
| Scheduling.NewTasks | kernel/task.c:20-79 | A created task is READY with the given priority, a forked one a READY copy of the current task; the n-th has pid n modulo 2^32; no other record changes |
| Scheduling.CountdownsChangeSleepers | drivers/timer.c:12-21 | Ticks and scan visits change nothing but the ticks of sleepers, by one, and the last one makes them READY |
| Scheduling.SleepsExactly | kernel/task.c:117-122 | A sleeper that nobody wakes has n - c ticks to go after c < n countdown events, ticks and scan visits counted together, and the n-th makes it READY; a sleep of 0 never ends by itself |
| Scheduling.SleepCallLasts | kernel/task.c:92-97 | The caller of task_sleep(n) sleeps for exactly n countdown events, the visit of its own scan included |
| Scheduling.SleeperStep | drivers/timer.c:12-21 | A tick or scan visit counts a sleeper down by one and nothing else but a wake touches it |
| Scheduling.VisitKeepsBest | kernel/task.c:110-124 | In an undisturbed scan each visit keeps the candidate the greatest (priority, creation order) among the visited tasks that were eligible at its start; ScheduleCalls.ScanFinds covers scans with ticks |
| Scheduling.ScanPicksBest | kernel/task.c:106-148 | An undisturbed schedule call runs the greatest eligible task of scan start, or halts exactly when there is none; ScheduleCalls.CallPicks and StartBestIsPickedIff cover calls with ticks |
| Scheduling.BestIsUnique | kernel/task.c:112-116 | At most one task is the greatest eligible one, so the choice is determined |
| Scheduling.BeatsByPid | kernel/task.c:24-53 | Before pids wrap, creation order is pid order, so the choice is by greatest (priority, pid) |
| Scheduling.AtomicCurrentAlwaysRuns | kernel/task.c:81-148 | In every run of undisturbed operations a non-null current task is RUNNING as long as the system has not halted; ScheduleCalls.CurrentRunsInCalmRuns covers runs with ticks inside calls |
| ScheduleCalls.FoundIsWorn | kernel/task.c:117-122 | As the scan finds it, a task has gone through exactly the ticks that fell while it was unvisited, and never through the scan's own countdown |
| ScheduleCalls.ScanFinds | kernel/task.c:110-124 | Whatever ticks fall into a scan, its candidate is the greatest (priority, creation order) among the visited tasks that were eligible on their own visit, and every unvisited task is as the ticks left it |
| ScheduleCalls.CallPicks | kernel/task.c:106-148 | In every run a schedule call switches to the greatest task eligible on its own visit, which beats or is every task eligible at scan start, never to one only the scan itself woke; it halts exactly when there is none |
| ScheduleCalls.StartBestIsPickedIff | kernel/task.c:106-139 | The greatest eligible task of scan start is the one picked exactly when it beats every task that ticks woke ahead of its visit |
| ScheduleCalls.WokenTaskOvertakes | kernel/task.c:110-124 | It is not always picked: a tick in mid-scan wakes a better task just before its visit |
| ScheduleCalls.YieldKeepsCurrentIff | kernel/task.c:88-90 | In every run a yield keeps the current task exactly when it beats every other task eligible on its visit |
| ScheduleCalls.ForkedChildWaits | kernel/task.c:58-79 | Until the next schedule call the forked child stays READY with the parent's priority and the parent stays current |
| ScheduleCalls.ForkLosesTheProcessor | kernel/task.c:58-79 | In every run the first schedule call after a fork, whatever ticks fall before it or into its scan, neither halts nor selects the parent |
| ScheduleCalls.CallLeaves | kernel/task.c:126-142 | After a schedule call the current task is RUNNING if it was switched to, as it was if a yielder was picked again, READY if a sleeper was; an exited task is never picked |
| ScheduleCalls.SleepLeavesReadyIff | kernel/task.c:92-97 | After a call of task_sleep(n) that does not halt the current task is READY instead of RUNNING exactly when n >= 1, at least n ticks fell between the state write and the caller's own visit, and the caller beats every other task eligible on its visit |
| ScheduleCalls.SleeperLeftReady | kernel/task.c:92-97 | It happens: a run from boot whose only task sleeps for one tick, which falls before its visit, ends with the current task READY |
| ScheduleCalls.CurrentRunsInCalmRuns | kernel/task.c:81-148 | In every run where each task_sleep(n) has n = 0 or fewer than n such ticks, a non-null current task is RUNNING whenever no schedule call is under way |
| ScheduleCalls.YieldingIsNotSharing | kernel/task.c:106-139 | In every run, whatever else happens, a current task that makes no sleep or exit call stays current and RUNNING for as long as no task that it does not beat is eligible, however often it yields: there is no round robin |
| ScheduleCalls.RuleOutlastsSleepers | kernel/task.c:106-139 | In particular, with only yields, ticks and schedule calls, it rules at least until the countdown event, tick or visit of that task, that ends the first sleep among the tasks it does not beat |
| ScheduleCalls.InterruptedCallPicks | kernel/task.c:106-148 | A run that stands at the start of a schedule call goes on with that call under any number of ticks before each visit and before the switch, and the result is the pick of CallPicks |
| Scheduler.TaskNode.CountDown | drivers/timer.c:14-19 | One countdown event on a task record |
| Scheduler.TickList | drivers/timer.c:9-22 | The handler's walk counts every task of the list down exactly once |
| Scheduler.TickOne | drivers/timer.c:13-21 | One round of the handler's walk counts one task of the list down and goes on to the next older one |
| Scheduler.VisitOne | kernel/task.c:111-124 | One round of the scan on the linked list is one visit of the state machine |
| Scheduler.ScanList | kernel/task.c:106-124 | Without a tick in between, the scan over the linked list ends with the candidate the state machine switches to |
| Scheduler.Kernel.Create | kernel/task.c:20-56 | Puts one fresh READY record without a parent in front of the list and counts it; the list stays acyclic, in descending creation order |
| Scheduler.Kernel.Fork | kernel/task.c:58-79 | Puts a READY copy of the current record, which becomes its parent, in front of the list; null exactly when there is no current task |
| Scheduler.Kernel.Wake | kernel/task.c:99-104 | Wakes a SLEEPING task and leaves any other alone |
| Scheduler.Kernel.TimerTick | drivers/timer.c:9-22 | One tick of the state machine, and timer_ticks counted up modulo 2^32 |
| Scheduler.Kernel.Schedule | kernel/task.c:106-148 | Scan and switch on the list without a tick in between are the undisturbed schedule call, halting included |
| Scheduler.Kernel.InterruptedSchedule | kernel/task.c:106-148 | With any given numbers of timer interrupts before each visit and before the switch, the linked list goes through exactly those events of the state machine, so the results on interrupted calls hold of it |
| Scheduler.Kernel.InterruptedRound | kernel/task.c:111-124 | Ticks and then one visit on the list are the same events of the state machine |
| Scheduler.Kernel.Dispatch | kernel/task.c:126-142 | Marks the chosen task RUNNING, a RUNNING predecessor READY, and makes the chosen one current; returns at once for the current task |
| Scheduler.Kernel.Sleep | kernel/task.c:92-97 | The sleep operation of the state machine, undisturbed by ticks |
| Scheduler.Kernel.Exit | kernel/task.c:81-86 | The exit operation of the state machine, undisturbed by ticks |
| Scheduler.Kernel.Yield | kernel/task.c:88-90 | The yield operation of the state machine, undisturbed by ticks |
| Scheduler.Kernel.GetByPid | kernel/task.c:158-165 | A record with the pid, null exactly when there is none, and before wrap the one created pid-th |
| RandomNumbers.Generator.Rand | lib/stdlib.c:26-29 | One step of the recurrence modulo 2^32 and 15 bits of the new seed |
| RandomNumbers.BlockShape | lib/stdlib.c:27 | 2^k steps multiply by 1 modulo 2^(k+2) and add an odd multiple of 2^k |
| RandomNumbers.BlockShifts | lib/stdlib.c:27 | 2^k steps shift the state by 2^k modulo 2^(k+1) |
| RandomNumbers.Generator.Srand | lib/stdlib.c:31-33 | The next call starts from the given seed |
| RandomNumbers.SeedsAgreeIff | lib/stdlib.c:24-29 | For every k, two calls agree modulo 2^k exactly when their numbers do |
| RandomNumbers.EveryValueTurnsUp | lib/stdlib.c:24-29 | For every k, every value modulo 2^k turns up within 2^k calls |
| RandomNumbers.SeedsRepeatIff | lib/stdlib.c:24-33 | From every seed, two calls leave the same seed exactly when their numbers agree modulo 2^32 |
| RandomNumbers.EverySeedIsVisited | lib/stdlib.c:24-33 | From every seed, every 32-bit value is the seed within 2^32 calls |
| RandomNumbers.EveryOutputIsReturned | lib/stdlib.c:26-29 | From every seed, every value from 0 to 32767 is returned within 2^32 calls |
| RandomNumbers.OutputsRepeatIff | lib/stdlib.c:26-29 | From every seed the outputs repeat with period d exactly when d is a multiple of 2^31 |
| RandomNumbers.FirstOutputs | lib/stdlib.c:24-29 | The first outputs from seed 1 are 16838, 5758 and 10113 |
| Numerals.DigitsHaveValue | lib/string.c:135-144 | The rendered digits, read left to right in the base, give the number back |
| Numerals.DigitAlphabet | lib/string.c:136-137 | Digits are written as 0 to 9 and then lower-case letters; letters are read in either case |
| Numerals.DigitCountIff | lib/string.c:135-138 | A number has at most n digits exactly when it is below base^n |
| Numerals.RenderedLength | lib/printf.c:9-11 | At most 32 characters in any base and at most 11 in bases 8, 10 and 16, so printf's 32-byte buffer holds them with the NUL; none exactly for a base outside 2 to 36 |
| Numerals.EmitDigits | lib/string.c:135-138 | The do-while loop writes the digits in reverse and nothing else |
| Numerals.ReverseRange | lib/string.c:140-144 | The in-place swap loop reverses exactly the given range |
| Numerals.Itoa | lib/string.c:123-146 | The buffer holds sign and digits in reading order, then a NUL, the rest untouched; an empty string for a base outside 2 to 36 |
| Numerals.Strtol | lib/stdlib.c:35-53 | The value of the longest digit run after blanks and one optional sign, and the index where it stops |
| Numerals.Atoi | lib/string.c:110-121 | The base-10 reading of the same text |
| Numerals.ReadingIsUnique | lib/stdlib.c:38-50 | Blanks, sign and digit run are determined by the text and the base |
| Numerals.PaddedNumberReads | lib/stdlib.c:38-52 | Any blanks, one optional plus or minus and some digits up to the first other character read as that number, negative exactly after a minus |
| Numerals.CaseDoesNotMatter | lib/stdlib.c:43-47 | Any text reads the same with its letters in upper case |
| Numerals.StrtolUndoesItoa | lib/stdlib.c:35-53 | For bases 2 to 36 and non-negative ints, and in base 10 for every int above INT_MIN, reading what was rendered gives the number back and stops at the terminator |
| Numerals.OverflowFreeIff | lib/stdlib.c:41-50 | Every intermediate result of reading a run of digits fits a 32-bit long exactly when the whole number does |
| Numerals.NoOverflowOnTheWay | lib/stdlib.c:48 | On such a text every intermediate result stays within the range of a 32-bit long |
| Numerals.NegativeReadsUnsigned | lib/string.c:131-133 | Outside base 10 a negative number reads back as the number plus 2^32 |
| ByteStrings.Memmove | lib/string.c:20-29 | For any overlap in one buffer the destination equals the old source and every other byte is unchanged |
| ByteStrings.Strlen | lib/string.c:40-44 | The distance to the first NUL |
| ByteStrings.Strncmp | lib/string.c:51-57 | Zero when the strings agree on n bytes or are equal and shorter, otherwise the difference of the first two differing bytes, whose sign is their order |
| ByteStrings.Strstr | lib/string.c:100-108 | The first occurrence, or null exactly when the needle occurs nowhere |
| Keyboard.DeliveredIsPrefix | drivers/keyboard.c:30-74 | With interrupts between any two reader steps, the characters read are a prefix of the accepted ones in order, and the count never exceeds 256 |
| Keyboard.DroppedIffFull | drivers/keyboard.c:55-59 | A decoded character is dropped exactly when the count is 256 |
| Keyboard.NothingIsLost | drivers/keyboard.c:30-74 | While the ring never fills, the accepted characters are the decoded scancode stream under its shift and caps state, and the reader sees a prefix of it |
| Keyboard.KeyTypes | drivers/keyboard.c:11-59 | In every run each key of each row types its character, the shifted one exactly when one of shift and caps lock is on, unless 256 characters are waiting |
| Keyboard.OtherCodesAreSilent | drivers/keyboard.c:33-55 | No other scancode types anything |
| Keyboard.EveryPrintableIsTyped | drivers/keyboard.c:11-25 | Every character from space to tilde is on a key |
| Keyboard.ShiftHeldIff | drivers/keyboard.c:33-40 | In every run shift is on exactly from a press until the next release of either key |
| Keyboard.CapsOddIff | drivers/keyboard.c:41-44 | In every run caps lock is on exactly after an odd number of presses |
| Keyboard.AcceptKeepsInv | drivers/keyboard.c:55-59 | Storing a character overwrites no slot that is still to be read, even in the middle of a read |
| Keyboard.Driver.Handler | drivers/keyboard.c:30-60 | The handler is the decode-and-accept step |
| Keyboard.Driver.FetchChar | drivers/keyboard.c:70 | Fetches the next accepted character |
| Keyboard.Driver.GetChar | drivers/keyboard.c:66-74 | Without an interrupt in between, the reader takes the oldest accepted character not read yet, and waits exactly on an empty ring |
| Keyboard.Driver.CheckChar | drivers/keyboard.c:67-69 | Goes on exactly when the ring is not empty |
| Keyboard.Driver.AdvanceHead | drivers/keyboard.c:71 | Advances the head, the slot still counted |
| Keyboard.Driver.LowerCount | drivers/keyboard.c:72 | Gives the slot back to the handler |
| Screen.Display.Putchar | drivers/vga.c:32-59 | For every byte the 80x25 buffer, cursor and colour still show the last 25 rows of the unbounded terminal fed the same byte, every write in bounds |
| Screen.Display.WriteBytes | drivers/vga.c:61-65 | The same for every string of bytes |
| Screen.Display.Scroll | drivers/vga.c:21-30 | Every row moves up by one and the last one is blank in the current colour |
| Screen.Display.ClearScreen | drivers/vga.c:73-82 | The last 25 rows are blank and the cursor is at their start |
| Screen.Display.SetColor | drivers/vga.c:17-19 | Only the colour of later writes changes |
| Screen.Display.constructor | drivers/vga.c:9-15 | A blank screen in colour 7 with the cursor at its start |
| Screen.HistoryIsKept | drivers/vga.c:21-65 | Rows above the cursor never change and never go away in the terminal, whatever is written |
| Screen.TextRunsOn | drivers/vga.c:45-53 | Character k of text without control characters stands k cells after the cursor, 80 to a row, across wraps and scrolls |
| Screen.TextAdvances | drivers/vga.c:45-53 | Such text moves the cursor by its length in cells |
| Screen.LinesStack | drivers/vga.c:33-53 | After text and a newline, character k of further text stands k cells from the start of the row after the one where the first text ended |
| Screen.NewlineStartsRow | drivers/vga.c:33-35 | A newline goes to column 0 of the next row, a new blank one below the last; old rows stay |
| Screen.ReturnStartsRow | drivers/vga.c:36-37 | A carriage return goes to column 0 and changes nothing else |
| Screen.ClearBlanks | drivers/vga.c:73-82 | Clearing blanks exactly the 25 visible rows and goes to the start of the first |
| Screen.CellBytes | drivers/vga.c:43-46 | A cell holds the character in its low byte and the colour in its high one, 0xFF for characters of 128 and more |
| Screen.ShowsCells | drivers/vga.c:43-46 | Column x of screen row y is word 80y + x of the buffer |
| Screen.BackspaceErases | drivers/vga.c:40-44 | Backspace undoes the cursor move of the last character and blanks its cell; at column 0 it does nothing |
| Screen.BlankAheadStays | drivers/vga.c:32-59 | Whatever is written but a carriage return, the cells from the cursor on stay blank once they are |
| Screen.BackspaceUndoesIff | drivers/vga.c:40-53 | With blanks ahead a backspace undoes a character exactly when it did not wrap |
| Screen.TabStops | drivers/vga.c:38-39 | A tab goes to the next multiple of 8, at most 8 cells on, and writes nothing |
| Tokenizer.WordsAreTheSplit | kernel/shell.c:410-416 | The functional split is exactly the list of maximal blank-free words in order |
| Tokenizer.Tokenize | kernel/shell.c:405-417 | The pointers are the first 31 words of the line in order, each a NUL-terminated string in the final buffer, and only blanks of the line were overwritten |
| Tokenizer.CutGrows | kernel/shell.c:413-415 | Cutting off a further word damages no earlier one |
| Tokenizer.SplitUndoesJoin | kernel/shell.c:220-226 | Words joined by single spaces split into the same words |
| Tokenizer.ScatteredWords | kernel/shell.c:410-416 | Words apart by any spaces and tabs, with any of them before and behind, are what the line splits into |
| Tokenizer.RejoinedWordsSplitTheSame | kernel/shell.c:405-417 | Joining the words of any line, up to any number, and splitting again gives them back |
| Tokenizer.Echo | kernel/shell.c:220-226 | Prints the arguments after the first joined by single spaces, and a newline |
| LineEditor.OneCharacter | kernel/shell.c:43-51 | Characters from space to tilde are added at the end, a backspace takes the last one away, everything else is ignored |
| LineEditor.SurvivorStands | kernel/shell.c:33-51 | A typed character that no later backspace reaches stands in the line at the place where it was typed |
| LineEditor.LineIsSurvivors | kernel/shell.c:33-51 | Every character of the line is such a survivor, so the line is the surviving characters in order |
| LineEditor.EndIsUnique | kernel/shell.c:32-54 | The input alone determines how many characters a call takes and whether it ends by a newline, by a full buffer or waits for more |
| LineEditor.TypedLineComesBack | kernel/shell.c:29-54 | Printable text shorter than the buffer, typed and entered, comes back as the line, whatever follows it |
| LineEditor.ScreenShowsLineIff | kernel/shell.c:43-51 | While a line is typed the screen is as if the edited line had been written in one go, exactly when no backspace took away a character after which the cursor wrapped |
| LineEditor.MarginKeepsErased | kernel/shell.c:43-47 | It is not always so: at the right margin the screen keeps a character that the line has lost |
| LineEditor.BlankAheadOfEcho | kernel/shell.c:33-51 | The echo keeps the cells ahead of the cursor blank, so the condition of ScreenShowsLineIff carries over from line to line |
| LineEditor.EnterEchoes | kernel/shell.c:34-36 | The newline that enters a line moves the screen to the start of the next row |
| LineEditor.Shell.CopyLine | kernel/shell.c:38 | The history slot holds the line, cut at 511 characters, and NULs behind it; every other slot is unchanged |
| LineEditor.Shell.Record | kernel/shell.c:37-41 | A further line is recorded, and the ring holds the last 50 recorded lines |
| LineEditor.Shell.TypeLine | kernel/shell.c:32-52 | The buffer and the echo follow the typed characters up to the newline, the full buffer or the end of the input |
| LineEditor.Shell.GetLine | kernel/shell.c:29-54 | For every stream of characters: the buffer holds the edited line, NUL-terminated once the call ends; a line is recorded exactly when it is non-empty and ended by a newline; the ring holds the last 50 recorded lines; the screen has been sent exactly the echo |

## Left out

- HeapAllocator.Heap.Kmalloc: models headers as whole records, so the bytes of a header laid over another one are not modelled beyond the record; after a wrapped request has been given a block too small for it, nothing is said of the heap
- HeapAllocator.Heap.Kfree: a pointer that is not live is the caller's error, as in C
- Scheduler.Kernel.Create: name, contexts, stacks, page directory and the heap calls behind the record are not modelled; nothing in the scheduler reads them
- Scheduler.Kernel.Fork: the copied stack, contexts and the page directory are not modelled
- Scheduler.Kernel.Sleep: like Yield and Exit, runs its schedule call without ticks; Scheduler.Kernel.InterruptedSchedule is the call with them
- ScheduleCalls.ScanFinds: each scan visit and the switch are indivisible, while in the source a tick can also fall between the test of sleep_ticks and its decrement (kernel/task.c:117-118) or between the state writes of the switch (kernel/task.c:136-142)
- Numerals.Atoi: computes the exact integer, as Numerals.Strtol does
- Numerals.Strtol: computes the exact integer; signed overflow of a 32-bit long is undefined in C and not modelled: Numerals.OverflowFreeIff says exactly when it does not arise, and Numerals.NoOverflowOnTheWay that it never does on rendered numbers
- Numerals.Itoa: INT_MIN in base 10 negates with signed overflow in C; the model takes the two's complement result
- `mm_init`, `mm_init_paging` and `mm_clone_directory`: bit and counter set-up at boot, a loop whose bound grows as it allocates, and a clone that keeps shared frames
- Paging registers, the context switch, boot code, descriptor tables, interrupt stubs and all port I/O, the hardware cursor included: machine state
- LineEditor.Shell.GetLine: the number of recorded lines is unbounded; after 2^31 of them the source's int overflows
- `shell_run`, command dispatch and the other shell commands: easy or fixed text
- `printf`: formatting over members that are modelled
- drivers/ata.c, fs/vfs.c, fs/ramfs.c and arch/x86_64/syscall.c: device I/O, stubs and thin dispatch
- The remaining string functions, character classes, `malloc` wrappers and `timer_sleep`: easy members
