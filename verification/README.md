# A model of the SeliOS kernel

SeliOS is a small 32-bit kernel. This project models the parts of it that keep state under invariants, and proves
what those invariants are for:

- **The heap** (`alloc.c`): a circular, address-ordered free list that splits tails, joins neighbours on both sides
  and grows by whole pages. `FreeList.dfy` is the list as a sequence of blocks, `HeapState.dfy` the words in memory
  and what each write does to them, `Heap.dfy` the class with `malloc`, `free` and `morecore`, `HeapTheorems.dfy` what
  follows over runs.
- **Frames and page tables** (`memory.c`, `paging.c`): the bitmap as a set of frames (`Frames.dfy`); the kernel's
  tables, in which all present directory slots share one table (`PageTables.dfy`), and user directories, which refine
  a flat map from page to frame (`UserTables.dfy`); the C functions that write both (`Paging.dfy`); sequences of
  `map_user_page` calls (`UserRuns.dfy`).
- **Threads** (`thread.c`, `switch_task.s`, `interrupt.s`, `interrupt_handler.c`, `program.c`): registers, stacks and a
  ring of threads. `Machine.dfy` has the steps and the invariant, `ThreadRuns.dfy` the theorems over runs,
  `Threads.dfy` the instruction sequences and C functions, `ThreadStorage.dfy` the blocks threads get from the heap,
  `Tasks.dfy` the tasks, the main thread and the flag between them.
- **The screen and the line editor** (`utils.c`, `terminal.c`): the 80x25 frame buffer as a window on an unbounded
  page (`TextPage.dfy`, `Screen.dfy`), and the editor whose buffer and screen must agree (`Editor.dfy`,
  `EditorRuns.dfy`, `Terminal.dfy`).
- **The initial RAM disk** (`make_initrd.c`, `initrd.c`, `string.c`): the packer and the reader, which undo each other
  (`CStrings.dfy`, `Image.dfy`, `Packer.dfy`, `Initrd.dfy`, `RoundTrip.dfy`).

`Wrappers.dfy` holds the one option type that several modules use. `dafny verify dfyconfig.toml` checks everything.

## How the source is rendered

- C objects that are updated in place are classes or arrays; each method is proved against a function or a predicate
  on values, and the theorems are about those. Ghost fields (`free`, `live`, `arena`, `granted`, `backing` of the heap,
  `ring`, `stacks`, `pending`, `open` of the processor, `page` of the screen) are tied to the real fields by `Valid()`.
- Integers are unbounded; where 32-bit arithmetic matters it is written out (`UnitsFor`, `PagesFor`, `Count`,
  `Memcpy`). Heap addresses count 8-byte header units, all other addresses count bytes.
- `HeapState.Sound` is the heap's invariant: the list is one cycle through `base`, in address order with one wrap,
  fully coalesced; free and live blocks are disjoint and together make up the granted pages; headers of live blocks
  hold their sizes. `Machine.Inv` is the scheduler's: one ring of all threads, disjoint stacks and thread blocks, a
  whole frame in place for every unfinished interrupt of every thread, and a whole switch frame behind the saved `esp`
  of every thread that is not running.
- The first thread in `State.ring` is the one whose stack is in use. `thread_yield` called by a task is two steps:
  `Advance` sets `open`, and then `current_thread` is one thread ahead of the stack until `Switch` changes it;
  interrupts may come in between. `Yield` is `thread_yield` called by a handler, which nothing interrupts.
- A task's test of the flag, its print, and the two halves of its `thread_yield` are acts of their own
  (`Tasks.Loop`); so are they for the terminal (`Editor.Event`).
- Setting flag bits is written as arithmetic: `a | 3` is `Or3(a)` and `a | 7` is `Or7(a)`; the colour byte
  `((bg & 15) << 4) | (fg & 15)` is `Attr(fg, bg)`.
- What a string does to the screen is said twice: `PutAll` and `Glyphs` compute the page, and `Displayed` describes it
  byte by byte and cell by cell; `ShowsAll` does the same for several strings and clears.

## What the source does not meet, and exactly when it does

- `thread_yield` with a single thread in the ring loads the esp of the last switch, read before the current one is
  saved: it returns to its caller exactly when the two are equal (`SelfYield`), and never right after `init_threads`
  (`SelfYieldAfterInit`).
- A task calls `thread_yield` with interrupts on. When the timer comes after `current_thread` has been advanced and
  before the stack has changed, with matrix mode turned on meanwhile, its handler's `thread_yield` takes the next thread
  for the running one and saves the task's esp there (`TornYieldLoses`, with a run that gets there in `TearTask`). The
  kernel stays sound exactly when that does not happen (`RunExactly`, `StepKeepsExactly`), and it does not as long as no
  key turns the flag on between a task's test and the change of stack (`KeysThatWait`).
- All heap pages share one page table with the kernel's low pages. The VGA page keeps its translation exactly up to
  184 heap pages, the kernel image up to 256, the heap itself up to 1024 (`GrowthDisturbs`, `HeapUnitsApart`), and a
  booted kernel with that much RAM gets there in one request (`FillFromBoot`).
- `create_user_page_directory` puts the new directory on a workbench at 0xC0500000 whose table entry is the one of the
  kernel's first page at 0xC0100000, which is hidden from then on (`DirectoryWorkbenchHidesKernel`). The directory goes
  on sharing the kernel half exactly while no call of `map_page` fills a new slot there (`SharingPersists`). The
  workbench of `map_user_page` hides the kernel's page at 0xC0200000 in the same way (`TableWorkbenchHidesKernel`).
- `map_user_page` does not look at whether `allocate_frame` failed. The mapping still works, through frame 0, but the
  next such failure wipes it (`MapUserSeparate`, `ExhaustedMappingIsLost`). Over any calls every page is where its last
  mapping put it exactly when the slots that share a table ask for the same (`LastMappingWins`), as they do when at most
  one was opened after the frames ran out (`EnoughFrames`).
- A failed `morecore` keeps the pages it had mapped (`Outcome`), so that the final single free block spans all pages
  exactly when no call was made with some frames left, but too few, and no block large enough (`AllFreedAfterRun`).
- `malloc` rounds requests above 0xFFFFFFF8 bytes down to one unit (`UnitsAreLeast`), and `morecore` asks for no page
  at all when its rounding wraps (`PagesCover`).
- Tab is a colour code for the screen but a character for the line editor, and a task that saw the flag on prints even
  when `q` has brought the prompt back since. Line and screen agree after every event of a run exactly when no Tab was
  accepted and no task printed on a line being typed (`RunAgrees`, with a run of the second kind in
  `LateOutputParts`). Backspace takes the cursor below zero exactly when the Tabs since the prompt have used up the
  screen before the line and what tasks have printed since (`BackspaceUnderflows`, with a run that gets there in
  `TabsTakeCursorBelowZero`).
- `initrd_read` adds offset and size in 32 bits: a read inside the file gives the right number of bytes exactly when
  the sum does not wrap (`CountIsExact`).

## Model

| member | source | states |
|---|---|---|
| `FreeList.Canonical` | src/kernel/alloc.c:96-111 | two fully coalesced, address-ordered lists that hold the same units are the same list |
| `FreeList.InsertKeepsOrder` | src/kernel/alloc.c:97-110 | putting a block in its place and joining it to the neighbours it touches leaves the list ordered and fully coalesced |
| `FreeList.InsertAddsUnits` | src/kernel/alloc.c:101-110 | joining neither loses nor invents a unit: the list holds its old units and the block's |
| `FreeList.TakeKeepsOrder` | src/kernel/alloc.c:74-81 | handing out a block's tail, or a whole block, keeps the list ordered and fully coalesced |
| `FreeList.TakeRemovesUnits` | src/kernel/alloc.c:74-81 | exactly the units of the tail leave the list, and they were in it |
| `FreeList.TakeThenInsert` | src/kernel/alloc.c:74-111 | taking a block out and giving the same units back restores the very list |
| `FreeList.UnitsCount` | src/kernel/alloc.c:96-111 | the sizes in the list add up to the number of units it holds |
| `HeapState.RoomForRequest` | src/kernel/alloc.c:68 | the units asked for have room for the request after the header exactly up to 0xFFFFFFF8 bytes |
| `HeapState.UnitsAreLeast` | src/kernel/alloc.c:68 | the units asked for are the fewest with room for the request after the header, for 1 to 0xFFFFFFF8 bytes, and one for an empty request or one whose sum wraps |
| `HeapState.PagesCover` | src/kernel/alloc.c:30-32 | the pages asked for cover the request exactly when the rounding does not wrap around 32 bits, and are then the fewest that do; when it wraps no page is asked for at all |
| `HeapState.WholeWalk` | src/kernel/alloc.c:85-87 | one trip round the ring that found every node too small has seen every free block |
| `HeapState.FirstFitIs` | src/kernel/alloc.c:73-88 | the block that serves a request is large enough, and none from freep on to it, round the ring once, is |
| `HeapState.RingInsert` | src/kernel/alloc.c:101-110 | after the writes of free, memory is again one cycle through base, in address order with one wrap, of the joined list |
| `HeapState.RingTakeAll` | src/kernel/alloc.c:75-76 | unlinking an exact fit leaves one ordered cycle through base without that block |
| `HeapState.RingTakeTail` | src/kernel/alloc.c:77-81 | splitting off a tail leaves the same cycle with one smaller block |
| `HeapState.CarvedSound` | src/kernel/alloc.c:74-83 | serving a request keeps the whole heap invariant, and no live block's words change |
| `HeapState.FreedSound` | src/kernel/alloc.c:92-111 | what the writes of free achieve: they keep the whole heap invariant, and the other live blocks keep their words |
| `HeapState.ReservedSound` | src/kernel/alloc.c:49-50 | new pages above everything granted can be counted as one live block without breaking the invariant |
| `HeapState.OutcomeFromBase` | src/kernel/alloc.c:69-72 | the first call, which sets up the empty ring, has the same outcome as any other |
| `Alloc.Heap.FindPlace` | src/kernel/alloc.c:97-99 | the scan ends within one trip, at the node just below the block's place in address order |
| `Alloc.Heap.Free` | src/kernel/alloc.c:92-112 | the block leaves the live ones and is inserted into the list in its place; the invariant and all other live words are kept |
| `Alloc.Heap.GrowPage` | src/kernel/alloc.c:37-43 | one page more at heap_end, backed by a frame that was free; or no frame was left and nothing changed |
| `Alloc.Heap.GrowPages` | src/kernel/alloc.c:36-46 | all pages asked for if there were frames for them, else as many as there were frames, which stay mapped |
| `Alloc.Heap.Morecore` | src/kernel/alloc.c:29-54 | NULL exactly when frames run out, with the list as before; else the whole region is in the list, coalesced |
| `Alloc.Heap.InitBase` | src/kernel/alloc.c:69-72 | the ring of base alone, on the first call |
| `Alloc.Heap.Walk` | src/kernel/alloc.c:73-88 | ends within one trip; finds the first block after freep that is large enough, if there is one |
| `Alloc.Heap.Carve` | src/kernel/alloc.c:74-83 | the tail of the chosen block becomes live, just above what is left of it; the invariant is kept |
| `Alloc.Heap.ServeGrown` | src/kernel/alloc.c:73-88 | the trip after growth always succeeds, even when the new pages have merged into freep itself |
| `Alloc.Heap.Search` | src/kernel/alloc.c:73-88 | at most one call of morecore; first fit, growth, or NULL with the list unchanged |
| `Alloc.Heap.Malloc` | src/kernel/alloc.c:62-89 | keeps the invariant; first fit if a block is large enough, growth if frames suffice, and NULL only if neither, with the list unchanged; the block it makes live has the fewest units with room for the request |
| `Alloc.Heap.StorePayload` | src/kernel/alloc.c:83 | a client that writes inside its own block does not disturb the heap |
| `HeapTheorems.Conservation` | src/kernel/alloc.c:49-83 | in every reachable heap free units and live units add up to 512 for each granted page |
| `HeapTheorems.ListIsCanonical` | src/kernel/alloc.c:96-111 | the list is determined by the pages granted and the units in use, whatever the history |
| `HeapTheorems.AllFreed` | src/kernel/alloc.c:36-52 | with nothing live the list is one block of all pages mapped exactly when all of them were granted |
| `HeapTheorems.LostOfRun` | src/kernel/alloc.c:36-46 | over a run the pages mapped and not granted are those of the calls that failed half way |
| `HeapTheorems.AllFreedAfterRun` | src/kernel/alloc.c:29-112 | a run of calls from the first on that ends with nothing live ends with one block of all pages exactly when no call was made with no block large enough and some frames left, but too few |
| `HeapTheorems.MallocCall` | src/kernel/alloc.c:62-89 | every call of malloc is a step of such a run |
| `HeapTheorems.MallocAnswer` | src/kernel/alloc.c:62-89 | the pointer returned, in numbers: into the end of the first block from freep on that is large enough, where the next search starts, or else into the end of the fewest new pages that hold the request, or NULL if there are fewer frames |
| `HeapTheorems.FirstAnswer` | src/kernel/alloc.c:36-83 | the byte address that the first call returns: the request ends the first pages above 0xC0400000 |
| `HeapTheorems.FreeCall` | src/kernel/alloc.c:92-112 | every call of free is a step of such a run |
| `HeapTheorems.MallocThenFree` | src/kernel/alloc.c:62-112 | malloc served from the list, then free, restores list and live blocks |
| `HeapTheorems.FreeAll` | src/kernel/alloc.c:92-112 | freeing all live blocks in any order ends with exactly the granted units free |
| `HeapTheorems.GrowthKeepsHeapMapped` | src/kernel/alloc.c:36-46 | each call of malloc keeps the kernel's mapping equal to the boot mapping with the heap's pages mapped one by one |
| `HeapTheorems.GrowthDisturbs` | src/kernel/alloc.c:36-43 | heap frames are distinct free RAM; VGA is intact up to 184 pages, the kernel up to 256, the heap up to 1024, each exactly |
| `HeapTheorems.HeapUnitsApart` | src/kernel/alloc.c:36-50 | through the kernel's tables the heap's units are words of their own exactly up to 1024 pages |
| `HeapTheorems.Boot` | src/kernel/kmain.c:28-77 | after booting the heap is sound and empty, only the boot mapping is in place, and the frames to hand out are exactly those of RAM above the kernel image less the first two |
| `HeapTheorems.FillFromBoot` | src/kernel/alloc.c:36-43 | a booted kernel, which has taken two frames, whose heap grows in one request to any number of pages: it loses the screen from page 185 on, itself from 257 on, and the heap's own words from 1025 on |
| `Frames.FrameAllocator.SetBit` | src/kernel/memory.c:5-7 | exactly this frame stops being free |
| `Frames.FrameAllocator.ClearBit` | src/kernel/memory.c:9-11 | exactly this frame becomes free |
| `Frames.FrameAllocator.TestBit` | src/kernel/memory.c:13-15 | tells whether the frame is in use |
| `Frames.FrameAllocator.AllocateFrame` | src/kernel/memory.c:17-28 | the lowest free frame, which is then in use; 0 exactly when none is free |
| `Frames.FrameAllocator.FreeFrame` | src/kernel/memory.c:30-33 | the frame is free and nothing else changes; the allocator stays sound exactly when the frame was one to hand out |
| `Frames.FrameAllocator.InitMemory` | src/kernel/memory.c:35-62 | free are exactly the frames of RAM above the first megabyte and outside the kernel image |
| `Frames.AllocateThenFree` | src/kernel/memory.c:17-33 | allocating a frame and freeing it restores the bitmap byte for byte |
| `Frames.SameFreeSameBitmap` | src/kernel/memory.c:5-15 | the packed bitmap and the set of free frames determine each other |
| `PageTables.SharedWalk` | src/kernel/paging.c:13-25 | because all present slots share one table, the two-level walk is a lookup by bits 12 to 21 and slot presence |
| `PageTables.FlagBits` | src/kernel/paging.c:20-24 | the entries written have their low two or three bits set and all others as given |
| `PageTables.MapMoves` | src/kernel/paging.c:13-25 | what one map_page does to the translation of every address, aliases and newly present slots included |
| `PageTables.MapFramesConcat` | src/kernel/alloc.c:36-43 | growing twice maps what growing once by both runs of frames maps |
| `PageTables.GrownTable` | src/kernel/alloc.c:36-43 | after growth each table entry holds the newest heap page that uses it, or what it held |
| `PageTables.ScreenSurvivesGrowth` | src/kernel/paging.c:81 | the VGA page keeps its translation exactly up to 184 heap pages |
| `PageTables.KernelSurvivesGrowth` | src/kernel/paging.c:84-86 | the kernel image keeps its translations exactly up to 256 heap pages |
| `PageTables.HeapSurvivesGrowth` | src/kernel/alloc.c:42 | every heap page reaches its own frame exactly up to 1024 pages |
| `UserTables.MapKernelView` | src/kernel/paging.c:13-25 | the word stores of map_page keep the one-table shape and update the view |
| `UserTables.MapUserRefines` | src/kernel/paging.c:28-64 | the page given moves to its frame; every other user page keeps its translation or its absence |
| `UserTables.MapUserSeparate` | src/kernel/paging.c:33-50 | table frames stay distinct exactly when the slot had a table or a frame was left |
| `UserTables.ExhaustedMappingIsLost` | src/kernel/paging.c:33-50 | with no frames left, a second new slot wipes the page that the first one mapped |
| `UserTables.CopiedHalfTranslates` | src/kernel/paging.c:143-147 | a copied kernel half translates every address from 0xC0000000 as the kernel's directory does |
| `UserTables.NewDirectory` | src/kernel/paging.c:124-147 | a new directory has nothing in its user half and the kernel's translations above it |
| `UserTables.DirectoryWorkbenchHidesKernel` | src/kernel/paging.c:132-133 | mapping the directory workbench sends the kernel's first page to the new directory and leaves its other pages alone |
| `UserTables.TableWorkbenchHidesKernel` | src/kernel/paging.c:37-59 | every call of map_user_page leaves the kernel's page at 0xC0200000 reaching the table frame and the kernel's other pages where they were |
| `UserTables.SharingPersists` | src/kernel/paging.c:13-25 | after any calls of map_page a directory's kernel half is still the kernel's exactly when every call there used a slot present at the copy |
| `UserTables.NewDirectoryShares` | src/kernel/paging.c:132-147 | for a directory made while the kernel has its first 8 MB: exactly when all later calls in the kernel half stay below 0xC0800000 |
| `UserRuns.LastMappingWins` | src/kernel/paging.c:28-64 | from an empty user half any calls of map_user_page leave every user page where its last mapping put it, or absent, exactly when slots that share a table frame ask for the same |
| `UserRuns.LastWriter` | src/kernel/paging.c:33-50 | a table shared by several slots holds at every entry what one of them asks for, cleared tables included |
| `UserRuns.NewDirectoryMaps` | src/kernel/paging.c:28-64 | the same for a directory from create_user_page_directory; its kernel half stays shared through all such calls |
| `UserRuns.EnoughFrames` | src/kernel/paging.c:33-41 | slots ask for the same as soon as at most one was opened after the frames ran out |
| `Paging.Pager.MapPage` | src/kernel/paging.c:13-25 | the exact new memory, and with it the new view of the kernel's mapping |
| `Paging.Pager.ClearDirectory` | src/kernel/paging.c:71 | no slot is present |
| `Paging.Pager.MapIdentity` | src/kernel/paging.c:76-78 | all 1024 entries of the shared table map the low 4 MB onto itself |
| `Paging.Pager.InitPaging` | src/kernel/paging.c:69-86 | every a below 4 MB is the translation of a and of 0xC0000000+a, and every other slot is absent, for any page-aligned kernel range below 4 MB |
| `Paging.Pager.ClearPage` | src/kernel/paging.c:43-45 | the frame behind the mapped page is zeroed and no other frame changes |
| `Paging.Pager.CopyKernelHalf` | src/kernel/paging.c:145-147 | slots 768 to 1023 are copied and the others stay |
| `Paging.Pager.CreateUserPageDirectory` | src/kernel/paging.c:102-152 | 0 exactly without a free frame; else a fresh directory with an empty user half that shares the kernel half |
| `Paging.Pager.LinkNewTable` | src/kernel/paging.c:33-50 | a zeroed frame linked into the slot, or frame 0 if none was free |
| `Paging.Pager.WriteEntry` | src/kernel/paging.c:55-63 | exactly the one entry of the linked table changes, besides the workbench mapping |
| `Paging.Pager.MapUserPage` | src/kernel/paging.c:28-64 | the user pages afterwards, page by page, the frames used, and exactly when tables stay separate |
| `Paging.DirectoryThenMaps` | src/kernel/paging.c:102-152 | the same of the C code: a directory made, then any calls of map_page |
| `UserRuns.MapNext` | src/kernel/paging.c:28-64 | each call of map_user_page is a step of such a sequence, with the frame it drew |
| `UserRuns.DirectoryThenUserMaps` | src/kernel/paging.c:102-152 | the same of the C code: a directory made, then any calls of map_user_page; every page is where its last mapping put it if no more slots are used than frames were free |
| `Machine.StepKeeps` | src/kernel/thread.c:21-118 | every step that does not tear a thread_yield keeps the scheduler's invariant, interrupts nested to any depth and interrupts inside thread_yield included |
| `Machine.StepKeepsExactly` | src/kernel/thread.c:106-112 | of all steps of the kernel exactly those keep the invariant that are not a timer's switch in the middle of another thread_yield |
| `Machine.TornYieldLoses` | src/kernel/thread.c:106-112 | such a switch leaves the next thread with a saved esp in the interrupted thread's stack and outside its own |
| `Machine.OthersKept` | src/kernel/switch_task.s:4-33 | no step but a torn thread_yield changes the stack, the saved esp or the unfinished interrupts of a thread that is not running |
| `ThreadRuns.RunExactly` | src/kernel/thread.c:13-118 | over any run of the kernel the invariant holds throughout exactly when no thread_yield is torn, and then the theorems below apply |
| `ThreadRuns.RunKeepsInv` | src/kernel/thread.c:13-118 | the invariant holds in every state of every run without a torn thread_yield |
| `ThreadRuns.Resumption` | src/kernel/switch_task.s:22-33 | a thread that runs again gets exactly the registers its own frame held when it was suspended |
| `ThreadRuns.SwitchTransparent` | src/kernel/switch_task.s:4-33 | over any run, a thread that yields comes back with its registers, return address, esp and stack words unchanged |
| `ThreadRuns.YieldTransparent` | src/kernel/thread.c:106-112 | the same for a thread_yield interrupted between its two writes, any number of times: the thread comes back with what it had when it called |
| `ThreadRuns.FreshThreadStarts` | src/kernel/thread.c:27-45 | a created thread first runs at its entry point with cleared registers and an empty stack |
| `ThreadRuns.NewestRunsNext` | src/kernel/thread.c:43-45 | the thread created last is the next to run, whoever switches |
| `ThreadRuns.SelfYield` | src/kernel/thread.c:106-112 | alone in the ring, a yield returns properly exactly when the saved esp happens to be the one about to be saved |
| `ThreadRuns.SelfYieldAfterInit` | src/kernel/thread.c:15-17 | right after init_threads a lone yield ends with esp 32 and not in its caller |
| `ThreadRuns.PreemptionTransparent` | src/kernel/interrupt.s:15-58 | over any run, a thread interrupted at any point, inside other handlers and between the two writes of thread_yield included, goes on after the matching iret with all registers, flags, eip, esp and stack words unchanged |
| `ThreadRuns.FramesStay` | src/kernel/interrupt.s:32-58 | as long as an interrupt is unfinished its frame, and all the stack above it, stays put |
| `ThreadRuns.RoundRobin` | src/kernel/thread.c:106-112 | without creations each switch turns the ring by one place, and a full round returns to the start |
| `ThreadRuns.RingHoldsAll` | src/kernel/thread.c:43-45 | in every run the next pointers form one cycle of exactly the threads there were and those created |
| `Threads.Processor.SwitchTask` | src/kernel/switch_task.s:4-33 | the seven registers pushed word by word and the old esp stored; registers, return address and esp from the new stack, word by word |
| `Threads.Processor.InitThreads` | src/kernel/thread.c:13-19 | a ring of the main thread alone, and the invariant |
| `Threads.Processor.CreateThread` | src/kernel/thread.c:21-45 | given its two blocks, a creation step of the machine, and the invariant is kept |
| `Threads.NewThreadMem` | src/kernel/thread.c:27-45 | what the forging and linking stores add up to: a whole switch frame, the saved esp, the two links, and every other word as it was |
| `Threads.Processor.ForgeFrame` | src/kernel/thread.c:29-39 | the entry point and seven zeros, downwards from the top of the stack |
| `Threads.Processor.AdvanceCurrent` | src/kernel/thread.c:108-109 | the first half of thread_yield: current_thread is the next thread, registers, stack and memory still the old one's |
| `Threads.Processor.SwitchStack` | src/kernel/thread.c:112 | the second half: a switch step of the machine to the thread current_thread has been advanced to |
| `Threads.Processor.ThreadYield` | src/kernel/thread.c:106-112 | thread_yield uninterrupted, in a ring of any size; with another thread in it the invariant is kept exactly when this call is not one that tears an interrupted thread_yield |
| `Threads.Processor.InterruptEntry` | src/kernel/interrupt.s:15-43 | the interrupted context in memory below any earlier one, word by word, interrupts off, and the invariant is kept, also inside thread_yield |
| `Threads.Processor.InterruptExit` | src/kernel/interrupt.s:45-58 | the context that was interrupted last restored from the stack, and the invariant is kept |
| `ThreadStorage.HostsDisjoint` | src/kernel/thread.c:22-25 | distinct live heap blocks keep all threads' blocks and stacks apart, main's below the heap included |
| `ThreadStorage.CreateThread` | src/kernel/thread.c:21-45 | with its two calls of malloc: when both succeed, a creation step; the heap, the threads and their separation stay sound |
| `Tasks.ControlReturnsToMain` | src/program.c:9-40 | in every run in which the flag is off and no key turns it on, main runs after exactly as many switches as it is places ahead in the ring and at most four loop steps of each task before it, and then stays |
| `Tasks.OneNearer` | src/program.c:13-22 | with the flag off every step of a task's loop brings main one nearer, and nothing else changes who runs |
| `Tasks.MachineRun` | src/program.c:9-40 | the machine's side of a system run is a run of the kernel, and its invariant holds throughout exactly when no act tears a thread_yield |
| `Tasks.KeysThatWait` | src/program.c:13-21 | no thread_yield is torn, and all theorems on runs apply, as long as no key turns the flag on between a task's test that saw it off and the change of stack |
| `Tasks.TearTask` | src/program.c:13-21 | the losing run through the C code: Enter starts matrix mode while a task is inside thread_yield, the timer comes, and the next thread's saved esp lies in the task's stack |
| `Tasks.Kernel.TestFlag` | src/program.c:13 | a task's test: what it saw decides whether its next act is a print or a switch |
| `Tasks.Kernel.PrintText` | src/program.c:15 | the string shows byte by byte where the cursor was, in matrix mode and after it |
| `Tasks.Kernel.AdvanceTask` | src/kernel/thread.c:108-109 | the task is inside thread_yield, where interrupts may come |
| `Tasks.Kernel.SwitchTask` | src/kernel/thread.c:112 | the next thread runs, and the task is before its test again when it comes back |
| `Tasks.Kernel.AddTask` | src/kernel/kmain.c:131-133 | one more thread with blocks of its own and a loop of its own, or nothing without memory |
| `Tasks.Kernel.TakeInterrupt` | src/kernel/interrupt.s:15-43 | timer and keyboard may come at any point, and their number is the one the handler sees |
| `Tasks.Kernel.ReturnFromInterrupt` | src/kernel/interrupt.s:45-58 | the interrupted context is back |
| `Tasks.Kernel.HandleTimer` | src/kernel/interrupt_handler.c:47-53 | a switch in matrix mode and nothing otherwise; with another thread in the ring the system stays sound exactly when no thread_yield is torn |
| `Tasks.Kernel.HandleKey` | src/kernel/interrupt_handler.c:40-43 | the scancode acts on the terminal, and through it on the flag the tasks and the timer test |
| `TextPage.TextKeepsPast` | src/kernel/utils.c:38-49 | printing changes no cell before the cursor and ends where the layout says |
| `TextPage.TextStays` | src/kernel/utils.c:45-46 | each printed character is on the page where the layout puts it, in its colours, however much follows |
| `TextPage.GapsStay` | src/kernel/utils.c:42-46 | a cell no character lands on keeps what it held |
| `TextPage.PrintedNoCodes` | src/kernel/utils.c:61-69 | no colour code ever shows on the page |
| `TextPage.AttrHalves` | src/kernel/utils.c:21 | the attribute byte has the foreground in its low four bits and the background in its high four |
| `TextPage.LastColourIs` | src/kernel/utils.c:64-66 | the colour in force is that of the last byte from 1 to 15 other than a newline |
| `TextPage.NewRowsBlank` | src/kernel/utils.c:31-34 | a cell of a row that scrolled in, on which no character lands, is a space in the colours of the character that made room |
| `TextPage.TextDisplayed` | src/kernel/utils.c:71-75 | a string printed from any page shows byte by byte: each printed byte on its cell in the colours in force, blanks in new rows, every other cell as it was, and the cursor and the colour at the end |
| `TextPage.DisplayedIsAll` | src/kernel/utils.c:24-75 | that description leaves nothing open: only one page and one colour meet it |
| `TextPage.DisplayedAhead` | src/kernel/utils.c:24-75 | under it the cells before the cursor are kept and the cursor does not go back |
| `Screen.Terminal80x25.WriteCell` | src/kernel/utils.c:19-22 | exactly one cell changes: the character in its first byte, the attribute in its second |
| `Screen.Terminal80x25.ScrollUp` | src/kernel/utils.c:27-30 | the in-place loop is a true shift by one row |
| `Screen.Terminal80x25.Wipe` | src/kernel/utils.c:32-34 | exactly the cells of the range become blanks |
| `Screen.Terminal80x25.Scroll` | src/kernel/utils.c:25-36 | rows 1 to 24 are where rows 0 to 23 were, the last row is blank in the character's colours, the cursor is at its start, and the frame buffer shows the page extended by that row |
| `Screen.Terminal80x25.PutcharColor` | src/kernel/utils.c:24-50 | all 2000 cells and the cursor after one character: a full screen rolls up first, on either device, and the frame buffer then takes the character or moves to the next row |
| `Screen.Terminal80x25.Putchar` | src/kernel/utils.c:61-69 | bytes from 1 to 15 other than a newline set the colour and print nothing; every other byte is put, cell by cell |
| `Screen.Terminal80x25.Printf` | src/kernel/utils.c:71-75 | the string shows byte by byte where the cursor was, in the active colours |
| `Screen.Terminal80x25.PrintfColor` | src/kernel/utils.c:77-94 | the string shows byte by byte in the given colours, and the active colours are restored |
| `Screen.Terminal80x25.EraseLast` | src/kernel/terminal.c:82-84 | the cursor steps back onto a blank in the default colours and every other cell stays |
| `Screen.Terminal80x25.ClearScreen` | src/kernel/utils.c:106-114 | 2000 blanks in the default colours with the cursor on the first |
| `Editor.OnlyTabIsCode` | src/kernel/terminal.c:17-22 | of the keys that reach the buffer only Tab types a byte the screen does not print |
| `Editor.KeyHandled` | src/kernel/terminal.c:36-97 | what every key does in every mode, branch by branch: the flags, the line, and the strings and clears shown in order |
| `Editor.ShowsIsAll` | src/kernel/terminal.c:36-97 | the strings and clears in order determine page and colours |
| `Editor.GreetedAgrees` | src/kernel/terminal.c:24-32 | after init_terminal line and screen agree |
| `Editor.EventAgrees` | src/kernel/terminal.c:36-97 | where line and screen agree no key moves the cursor out of the screen, and every event keeps the agreement exactly unless it is an accepted Tab or a task's late output, of at least one glyph, on a line being typed |
| `EditorRuns.RunAgrees` | src/kernel/terminal.c:36-97 | line and screen agree after every event of a run exactly when no Tab was accepted in it and no task printed on a line being typed |
| `EditorRuns.LateOutputParts` | src/program.c:13-15 | the losing run without a Tab: a task sees the flag on, q clears it, a letter is typed, and the task prints |
| `EditorRuns.NeverStuck` | src/kernel/terminal.c:78-86 | in a run without an accepted Tab, late output or not, Backspace never takes the cursor below zero |
| `EditorRuns.CursorPosition` | src/kernel/terminal.c:77-96 | since the prompt the cursor has moved on by the length of the line and by what tasks printed late, less one for every Tab accepted |
| `EditorRuns.BackspaceUnderflows` | src/kernel/terminal.c:77-86 | over runs from a prompt the next Backspace underflows exactly when the line is not empty and the Tabs accepted since the prompt equal the cells before the cursor's place without them, late output counted |
| `EditorRuns.LineIsWhatSurvives` | src/kernel/terminal.c:77-96 | between two Enters the buffer holds after every key the characters no later Backspace took back, exactly when the full buffer refused none |
| `EditorRuns.TypeThenErase` | src/kernel/terminal.c:78-96 | a character and a Backspace restore line, cursor and all cells before it |
| `EditorRuns.TabThenErase` | src/kernel/terminal.c:78-96 | a Tab and a Backspace eat the cell left of the cursor |
| `EditorRuns.TabsTakeCursorBelowZero` | src/kernel/terminal.c:79-83 | enough Tabs and Backspaces reach a state where the next Backspace underflows |
| `Terminal.LineEditor.InitTerminal` | src/kernel/terminal.c:24-32 | cleared screen, greeting, prompt, in this order, and an empty line |
| `Terminal.LineEditor.EndLine` | src/kernel/terminal.c:62 | as a C string the buffer is exactly the line |
| `Terminal.LineEditor.EnterLine` | src/kernel/terminal.c:61-72 | a new row, the command's strings and clears if the line is not empty, the prompt, in this order, and an empty line |
| `Terminal.LineEditor.TakeBack` | src/kernel/terminal.c:80-84 | the last character leaves the line, and the cursor steps back onto a blank |
| `Terminal.LineEditor.TypeIn` | src/kernel/terminal.c:93-94 | the character joins the line and shows where the cursor was |
| `Terminal.LineEditor.StopMatrix` | src/kernel/terminal.c:44-49 | matrix mode off, cleared screen, the message, and the prompt if the shell is active, in this order |
| `Terminal.LineEditor.HandleScan` | src/kernel/terminal.c:36-97 | the whole state after any scancode, branch by branch: Enter on the lock screen activates the shell, Enter at the prompt runs the line, q ends matrix mode, which ignores all other keys |
| `Terminal.LineEditor.TestFlag` | src/program.c:13 | the task sees the flag, and a task that saw it on is one that will print |
| `Terminal.LineEditor.TaskOutput` | src/program.c:15 | the string of a task whose test saw the flag on shows byte by byte where the cursor was, whatever the flag is by then |
| `CStrings.Strncpy` | src/kernel/string.c:5-19 | n bytes are written, the text cut off at n and NULs after it, and nothing beyond |
| `CStrings.Strcpy` | src/kernel/string.c:37-50 | the destination then holds the same C string; bytes beyond its NUL stay |
| `CStrings.Strcmp` | src/kernel/string.c:24-34 | the difference of the first two bytes that differ, or 0: 0 exactly for equal strings, negative exactly when the first comes first in unsigned dictionary order |
| `CStrings.PrecedesTotal` | src/kernel/string.c:24-34 | that order is total, so that the sign is determined |
| `Image.WordOfBytes` | tools/make_initrd.c:70 | a number written little-endian reads back |
| `Image.BytesLowestFirst` | tools/make_initrd.c:70 | a number is written lowest byte first |
| `Image.WordLowestFirst` | src/kernel/initrd.c:26 | four bytes are read lowest first |
| `Image.ImageReads` | tools/make_initrd.c:73-91 | in an image left anywhere in memory every header leads to its file: name, length and contents |
| `Packer.DumpFileData` | tools/make_initrd.c:41-57 | the chunked loop appends the whole file, or nothing if it cannot be opened |
| `Packer.MakeHeader` | tools/make_initrd.c:77-79 | name, length and offset are set; the magic number and the end of the name field stay whatever was on the stack |
| `Packer.MakeInitrd` | tools/make_initrd.c:60-97 | every byte of the output: the count, both headers with length and offset lowest byte first and the name from byte 12 on, and the contents; it is the image of the two files |
| `Initrd.CountIsExact` | src/kernel/initrd.c:96-102 | a read gives as many bytes as it should exactly when the offset is past the end or offset plus size does not wrap; otherwise it gives all that were asked for |
| `Initrd.NodeName` | src/kernel/initrd.c:62-63 | a node's name is the header's name, cut off after 127 bytes |
| `Initrd.RamDisk.MakeNode` | src/kernel/initrd.c:57-67 | the node has its header's name and length and its own index |
| `Initrd.RamDisk.MakeRoot` | src/kernel/initrd.c:31-40 | the root is a directory called initrd |
| `Initrd.RamDisk.Initialize` | src/kernel/initrd.c:21-81 | afterwards every node describes the header of the same number |
| `Initrd.RamDisk.FindDir` | src/kernel/initrd.c:138-155 | the first node with the name, or NULL exactly when there is none |
| `Initrd.RamDisk.ReadDir` | src/kernel/initrd.c:115-134 | the entry of the index, or NULL exactly past the end, with the static entry untouched |
| `Initrd.RamDisk.Memcpy` | src/kernel/memory.c:64-76 | the bytes of memory from an address on, which wraps around, and no byte more |
| `Initrd.RamDisk.Read` | src/kernel/initrd.c:84-108 | the count of the source's 32-bit arithmetic, and that many bytes from where the header says |
| `Initrd.RamDisk.NodesAreFiles` | src/kernel/initrd.c:55-67 | on an image of the packer every node bears the name and length of the file at its place |
| `Initrd.RamDisk.ReadNamed` | src/kernel/terminal.c:161-166 | finding by name and reading gives the asked-for part of the first file of that name, or NULL exactly when no file has it |
| `Initrd.RamDisk.ReadWholeNamed` | src/kernel/initrd.c:84-108 | reading a named file some bytes at a time gives the whole file, and nothing when no file has the name |
| `RoundTrip.PackMountRead` | tools/make_initrd.c:60-97 | pack, mount anywhere in memory, find and read: the host's bytes for both names, NULL for any other |
| `RoundTrip.Cat` | src/kernel/terminal.c:155-178 | prints the first 255 bytes of the named file up to their first NUL, or the error with the name |
| `RoundTrip.Ls` | src/kernel/terminal.c:137-149 | prints every file's name, in the order they were packed, and then stops |

## Left out

- Port input and output, the PIC, the timer chip, the serial line and the hardware cursor: acknowledge and cursor
  writes have no effect here, and a serial character only scrolls the screen as the source does.
- Control registers, the TLB and large pages: translation is straight from the tables, and no entry the kernel writes
  sets bit 7. User directories are never active; the kernel runs on its own tables.
- GDT and IDT packing, boot code and multiboot parsing: single-expression bit slicing and hardware set-up.
- `create_user_thread` beyond its ring insertion, which is the one of `create_thread`, and `process.c`, which is not
  built: they need privilege transitions.
- System call 128, and the by-value argument struct of `interrupt_handler`, through which a compiler may write.
- The texts of `terminal_run_command` other than `cat` and `ls`, `print_hex` and the lock screen: a command is any
  sequence of strings printed, screens cleared and matrix mode started.
- Stack overflow: a step needs room on the stack for what it pushes. A `printf` preempted in the middle: a task prints
  its string in one step.
- Nodes allocated by `malloc` in `initrd.c` are taken to be there, and reads whose buffer overlaps the image in memory
  are not modelled.
- `fs.c`: one-branch forwarding.
- Alloc.Heap.Malloc: requires that `morecore`'s rounding does not wrap (requests up to 4 GB less about 4 KB). Past that
  point `morecore` maps nothing (PagesCover) and writes a header where no heap page is, which the model does not follow.
- Alloc.Heap.Search: requires the same as Malloc.
- Alloc.Heap.Morecore: requires the same as Malloc.
- Alloc.Heap.Malloc: its header words are a memory of their own, which speaks of the kernel's only up to 1024 heap pages
  (HeapUnitsApart), and of a kernel that still runs only up to 256 (GrowthDisturbs).
- Alloc.Heap.Free: requires a live block, as the source does of its callers.
- Alloc.Heap.Walk: the one loop of `malloc` is rendered as a walk, a call of `morecore` and a second walk, which is how
  often it can go round.
- Frames.FrameAllocator.InitMemory: requires RAM of at most 128 MB and a kernel end within it, which is what the
  bitmap has room for.
- Frames.FrameAllocator.FreeFrame: requires an address within the bitmap.
- Paging.Pager.MapUserPage: the directory is reached through a page whose table entry is not the workbench's, and
  kernel globals stay reachable while paging.c runs, also when their own page has been redirected.
- Machine.StepKeeps: threads write only their own stack and memory that is nobody's stack or thread block; words not
  yet written read as 0; interrupts come from the timer and the keyboard.
- Machine.OthersKept: speaks of steps that do not tear a `thread_yield`, as do RunKeepsInv and the theorems after it;
  RunExactly says which runs those are. After a torn one a run is not followed.
- Machine.StepKeepsExactly: the pushes and pops of `switch_task` are one step with its change of stack. An interrupt
  among them is on the old thread's stack, or on the new one's with `current_thread` already there.
- Threads.Processor.ThreadYield: promises the invariant only with a second thread in the ring; SelfYield says what
  happens without one.
- Tasks.KeysThatWait: one direction only: a key that does not wait loses nothing if no timer comes before the change of
  stack. The exact condition is that of MachineRun.
- Tasks.ControlReturnsToMain: no thread is created meanwhile. The timer's handler tests the flag with interrupts off, so
  its test and its switch are one act.
- Tasks.Kernel.HandleKey: requires what HandleScan requires of Backspace.
- ThreadStorage.CreateThread: stops when a call of `malloc` returned NULL, where the source would write through it; the
  words of threads and the headers of the heap are two maps here, and StorePayload is what connects them.
- Terminal.LineEditor.HandleScan: requires that Backspace does not take the cursor below zero; BackspaceUnderflows says
  exactly when it would. Each scancode is handled in one step, also the one that starts a command.
- Terminal.LineEditor.InitTerminal: the two lines of greeting are parameters, and keys pressed between the first Enter
  and this call are not modelled.
- Packer.MakeInitrd: requires that the image is smaller than 4 GB, and writes to the output file succeed.
- The image stays in memory as it was loaded: `init_memory` does not reserve the frames of a boot module, so this is an
  assumption about what is handed out later. `cat` and `ls` without a mounted disk print nothing or one message.
- Initrd.RamDisk.Initialize: requires the table of headers to lie within the address space.
