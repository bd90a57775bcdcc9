# Verified model of the wigOSX kernel core

This project models the stateful parts of wigOSX, a small i386 kernel, and proves what they promise:

- **Physical memory** (`Bitmap`, `Multiboot`, `MemoryMap`, `FrameModel`, `Pmm`, `Boot`). The Multiboot map is parsed from bytes,
  the two packed bitmaps are built from it, and frames are handed out and taken back. Words are numbers below 2^32 with `|`, `&`
  and `~` defined digit by digit; everything above `Bitmap` speaks of sets of frames. Which frames are free after boot is stated
  byte by byte, independently of the alignment arithmetic. The allocator is proved as written (next fit with a hint and a second
  scan) and then shown to be lowest-address first fit in every reachable state.
- **Keystrokes** (`Keyboard`, `Input`, `Interrupts`, `Pipeline`, `PipelineTheorems`, `Work`). The ring buffer, the IRQ registry and
  the keyboard driver are classes. `Pipeline` is the same path as a transition system cut at single loads, stores and
  instructions, in which an interrupt may arrive before any foreground step at which the CPU accepts one; its labels are
  arbitrary sequences, so a theorem about `Run` is a theorem about every interleaving. Whether the idle path masks interrupts
  and whether STI delays them are parameters, and both are shown to be needed. The machine's producer, consumer and whole
  handler runs are proved to do what the classes' methods are specified to do, and `Work` runs the classes together, from the
  first prompt on.
- **Screen** (`PlainScreen`, `Terminal`, `LineEditor`, `Shell`). The VGA terminal with its sliding window over 16384 cells is
  proved to show, for every byte string, what a plain 25x80 screen that copies rows up would show. The shell's line editor is
  proved against a pure one, together with the exact condition under which the screen row shows prompt and line.
- **Identity paging** (`Paging`) and **number formatting** (`Format`).

Methods are proved against specification functions, and those functions are in turn tied to what they mean by laws that use
neither them nor the named constants: bytes by offset and place weight (`Multiboot.TilesIsLayout`), free memory by entries and
addresses (`Boot.BootFramesMeans`), screens cell by cell (`PlainScreen.NewlineLaw`, `PrintLaw`, `EraseLaw`, `TabCells`), keys by
scancode (`Keyboard.KeyLaw`), commands by name (`LineEditor.EnterPrints`), interrupts by the flag (`PipelineTheorems.ArrivalLaw`).

Each imperative source file is a class or a method over arrays with the source's loops. Places where C arithmetic could wrap go
through `Wrap32`/`Wrap64`. Linker symbols, the Multiboot bytes, the scancode at the keyboard port and the text printed by
reporting commands, which may differ each time a command runs, are parameters; port writes become state (`crtcHigh`/`crtcLow`, `eoiLog`).

Four behaviours of the code are recorded as they are.

- Shift counts as released when either of two held Shift keys is released: `Keyboard.ShiftFlagMisses` is the three scancodes,
  `Keyboard.ShiftFlagTruth` the exact condition for every scancode sequence.
- After the buffer-full warning the new prompt is printed without the 63 characters still in the buffer, so the screen no longer
  shows the line until the next Enter: `LineEditor.LongLineStopsEchoing` is a line that gets there, `LineEditor.EchoExactly`
  proves that this is the only way.
- A memory-map entry whose last byte is the very last of the 64-bit address space lies inside it, yet has its whole map rejected
  (`MemoryMap.TopByteRejected`).
- `pmm_allocate_frame`'s second scan can never find a frame (`FrameModel.NextFitIsFirstFit`).

`dafny verify dfyconfig.toml` checks the project (Dafny 4.11).

## Model

| member | source | states |
|---|---|---|
| Bitmap.SetBitMembers | src/mm/pmm.c:68-97 | setting or clearing a frame's bit in its word adds or removes exactly that frame from the set the bitmap stands for |
| Bitmap.MembersDetermineWords | src/mm/pmm.c:51-52 | equal member sets mean equal words, so "the bitmap is restored" can be said on sets |
| Bitmap.UniformMembers | src/mm/pmm.c:288-293 | words of all ones are all frames used, words of zero are no frame owned |
| Bitmap.TestBit | src/mm/pmm.c:158-163 | the bit test is membership in that set |
| Multiboot.SplitIsExact | src/kernel/memory.c:133-173 | reading entries off the front of a byte string yields a list exactly when the string is that list of valid entries, with any padding, end to end |
| Multiboot.EncodeStartsWithEntry | src/kernel/memory.c:140-155 | parsing any padded encoding of an entry recovers the entry |
| Multiboot.TilesIsLayout | src/kernel/memory.c:133-173 | entries tile the bytes exactly when the bytes have the layout: offsets, place weights, size word at least 20, padding, next entry |
| MemoryMap.MemoryMap.ResetSummary | src/kernel/memory.c:61-83 | every flag, counter and slot is back to its initial value |
| MemoryMap.MemoryMap.AddRegion | src/kernel/memory.c:92-115 | empty regions are ignored, others appended unless 32 are stored, which marks the map truncated; the tally counts it either way |
| MemoryMap.MemoryMap.ReadEntry | src/kernel/memory.c:134-165 | an entry is rejected only if no entry list makes the area acceptable; otherwise exactly it extends the entries read so far |
| MemoryMap.MemoryMap.ReadMultibootMap | src/kernel/memory.c:120-181 | OK if and only if the range does not wrap and has the layout of entries of size >= 20, each ending at 2^64 - 1 at the latest, with 1 to 32 non-empty ones; then the k-th stored region is the k-th non-empty entry, usable if and only if its type is 1 |
| MemoryMap.MemoryMap.Initialize | src/kernel/memory.c:186-217 | the exact status for every input and the basic-memory fields; on OK the regions represent the entries, and counts and byte totals modulo 2^64 are sums over type-1 entries and over the others |
| MemoryMap.CountsPartition | src/kernel/memory.c:98-104 | usable and reserved counts add to the number of regions |
| MemoryMap.NormaliseRepresents | src/kernel/memory.c:157-167 | the regions are the non-empty entries in order, with base, length, and usable exactly for type 1 |
| MemoryMap.TotalsAreSums | src/kernel/memory.c:98-104 | counts and byte totals by type are sums over the entries by type word |
| MemoryMap.AcceptableIsReadable | src/kernel/memory.c:120-181 | the maps accepted are those with that layout, in literal terms |
| MemoryMap.TallyStep | src/kernel/memory.c:98-104 | the running counts never wrap and the byte totals are the sums modulo 2^64 |
| MemoryMap.NormalisedRegionsValid | src/kernel/memory.c:157-167 | every region of an accepted map is non-empty and inside the 64-bit address space |
| MemoryMap.TopByteRejected | src/kernel/memory.c:157-159 | a map with an entry that ends exactly at 2^64 is never accepted |
| FrameModel.InsideBounds | src/mm/pmm.c:209-229 | a frame has all its bytes in a range exactly when its two ends are |
| FrameModel.TouchesBounds | src/mm/pmm.c:233-253 | a frame shares a byte with a range exactly when the intervals meet |
| FrameModel.OperationsKeepReachable | src/mm/pmm.c:424-485 | allocation and any free keep owned frames used and tracked, and everything below the hint used |
| FrameModel.NextFitIsFirstFit | src/mm/pmm.c:424-453 | in every reachable state allocation returns the lowest free frame and the second scan finds nothing |
| FrameModel.NextFitFails | src/mm/pmm.c:429-452 | allocation fails exactly when no tracked frame is free |
| FrameModel.RunSafety | src/mm/pmm.c:424-485 | over any requests, including rejected frees, used frames are the frames reserved at the start plus, disjointly, those the callers hold |
| FrameModel.NoFrameTwice | src/mm/pmm.c:424-485 | after any run an allocation returns an aligned 32-bit address nobody holds, never a reserved frame, and a free is accepted exactly for an address somebody holds |
| FrameModel.BalancedRunRestores | src/mm/pmm.c:424-485 | a run that leaves the callers holding what they held restores both bitmaps |
| FrameModel.GrantsIncrease | src/mm/pmm.c:429-438 | consecutive allocations return strictly increasing addresses of frames that were free |
| FrameModel.AllocateThenFreeRestores | src/mm/pmm.c:424-485 | allocating k frames and freeing them in any order restores both bitmaps |
| FrameModel.BootReachable | src/mm/pmm.c:403-419 | initialisation ends in a reachable state whose free frames are exactly those the specification names |
| FrameModel.AllocationsAreSafe | src/mm/pmm.c:374-453 | every frame handed out after boot lies wholly in one usable region and shares no byte with any reserved range |
| Pmm.AlignUpFrames | src/mm/pmm.c:109-121 | rounding up, saturation included, decides which frames start at or after an address |
| Pmm.FrameMasks | src/mm/pmm.c:102-121 | the two 64-bit masks of alignment keep the remainder and the multiple of 4096 |
| Pmm.InwardRounding | src/mm/pmm.c:215-231 | the frames a usable range frees are those with every byte inside it, for all 64-bit ranges |
| Pmm.OutwardRounding | src/mm/pmm.c:239-255 | the frames a reserved range marks are those with some byte in it, for all 64-bit ranges; an empty range between two frame boundaries marks the frame it lies in |
| Pmm.HighestTracksMap | src/mm/pmm.c:260-283 | a frame below 4 GiB is tracked exactly when some region ends above its start |
| Pmm.HighestIsLeast | src/mm/pmm.c:260-283 | the clipped and rounded maximum is the lowest frame boundary that no region reaches past within 4 GiB |
| Pmm.Pmm.MarkFrameUsed | src/mm/pmm.c:168-185 | a tracked frame joins the used set and the counters stay exact; the guard on the decrement is never needed |
| Pmm.Pmm.MarkFrameFree | src/mm/pmm.c:190-207 | a tracked frame leaves the used set and the counters stay exact |
| Pmm.Pmm.MarkFrameAllocated | src/mm/pmm.c:78-85 | a tracked frame joins the owned set |
| Pmm.Pmm.MarkFrameUnallocated | src/mm/pmm.c:90-97 | a tracked frame leaves the owned set |
| Pmm.Pmm.MarkRangeFree | src/mm/pmm.c:215-231 | frees exactly the tracked frames wholly inside the range |
| Pmm.Pmm.MarkRangeUsed | src/mm/pmm.c:239-255 | reserves exactly the tracked frames the range touches, an empty range inside a frame included |
| Pmm.Pmm.FindHighestPhysicalAddress | src/mm/pmm.c:260-283 | the lowest frame boundary within 4 GiB that no region reaches past; its frame count tracks the map |
| Pmm.Pmm.ResetBitmap | src/mm/pmm.c:288-293 | every bit used, none owned |
| Pmm.Pmm.ReleaseUsableMemoryRegions | src/mm/pmm.c:298-314 | frees exactly the frames wholly inside one single usable region |
| Pmm.Pmm.ReserveEverything | src/mm/pmm.c:319-369 | reserves exactly the frames touching low memory, kernel image, either bitmap, Multiboot information or map |
| Pmm.Pmm.Initialize | src/mm/pmm.c:374-419 | the exact status and, when frames are tracked, the exact bitmaps: free if and only if wholly inside one usable region and touching no reserved range, for every region list |
| Pmm.Pmm.AllocateFrame | src/mm/pmm.c:424-453 | next fit on the frame sets, success exactly when the free count is positive, and no wrap in frame * 4096 |
| Pmm.Pmm.FreeFrame | src/mm/pmm.c:458-485 | accepted exactly for an aligned, tracked, owned frame, which becomes free; otherwise nothing changes |
| Pmm.Pmm.IsFrameUsed | src/mm/pmm.c:490-498 | untracked addresses count as used |
| Pmm.Pmm.RunBasicSelfTest | src/mm/pmm.c:542-576 | in every reachable state it passes exactly when initialised with a free frame, and restores every word and counter |
| Boot.BootMemory | src/kernel/kernel.c:85-93 | after an accepted map the allocator fails only for lack of a free frame; a frame is tracked up to the last non-empty entry within 4 GiB, and free if and only if it lies wholly in one type-1 entry and holds no kernel byte |
| Boot.BootFramesMeans | src/mm/pmm.c:298-369 | free at boot means wholly in one type-1 entry and clear of the first MiB, the kernel image, both 131072-byte bitmaps, the 52-byte information structure and the map |
| Boot.AllocationsAvoidKernel | src/mm/pmm.c:424-453 | after boot and any requests an allocation returns a 4096-aligned address from 1 MiB up, in one type-1 entry, with no kernel byte in its frame |
| Boot.KernelMemoryNeverAllocated | linker/kernel.ld:61-73 | no allocation ever returns a frame holding a byte of the kernel image, hence of the heap inside it |
| Input.MaskIsRemainder | src/kernel/input.c:18-29 | the index mask is a remainder because the capacity is a power of two |
| Input.WrappedDistance | src/kernel/input.c:64-67 | 32-bit head minus tail is the true distance after any number of wraps |
| Input.HoldsQueued | src/kernel/input.c:31-44 | the slots between tail and head, read through wrapped positions, are the accepted characters not yet taken |
| Input.StoreAppends | src/kernel/input.c:77-78 | storing at head keeps what is queued, and advancing head appends the character |
| Input.TakeAdvances | src/kernel/input.c:109-111 | the slot at tail is the oldest queued character, and advancing tail removes it |
| Input.InputQueue.EnqueueCharacter | src/kernel/input.c:63-81 | appends unless 64 characters wait; then only the saturating drop count moves, by one |
| Input.InputQueue.TryReadCharacter | src/kernel/input.c:97-115 | removes and returns the oldest character, or reports an empty queue unchanged |
| Input.InputQueue.GetPendingCharacterCount | src/kernel/input.c:120-125 | the number queued, at most 64 |
| Keyboard.ModifiersAfter | src/drivers/keyboard.c:77-92 | Shift is in force exactly when the latest event of either Shift key was a press; Caps Lock exactly after an odd number of presses |
| Keyboard.ShiftFlagTruth | src/drivers/keyboard.c:77-92 | over any scancodes a set Shift flag means a Shift key is held, and flag and keys agree if and only if the latest Shift event did not release one key while the other was held |
| Keyboard.ShiftFlagMisses | src/drivers/keyboard.c:88-92 | both Shift keys pressed and the left one released: Right Shift is held and the flag is off |
| Keyboard.ReleaseBit | src/drivers/keyboard.c:130-131 | bit 7 tells release from press, and masking it off leaves the key's code |
| Keyboard.KeyboardAlphabet | src/drivers/keyboard.c:29-63 | only printable ASCII, backspace, tab and newline come out |
| Keyboard.LetterCase | src/drivers/keyboard.c:97-117 | a letter key types its capital exactly when one of Shift and Caps Lock is in force |
| Keyboard.KeyLaw | src/drivers/keyboard.c:97-117 | each key's character alone and shifted, by scancode; Caps Lock inverts the choice for letters and for no other key |
| Keyboard.TablesAgree | src/drivers/keyboard.c:29-63 | both tables give each scancode the characters on its key |
| Keyboard.ModifierLaw | src/drivers/keyboard.c:77-92 | what the two Shift keys, their releases and Caps Lock do to the flags, by scancode |
| Keyboard.Keyboard.HandleInterrupt | src/drivers/keyboard.c:122-153 | modifier flags and produced character follow the scancode machine |
| Interrupts.InterruptController.Initialize | src/kernel/interrupts.c:47-56 | no handler registered, every counter and the depth zero |
| Interrupts.InterruptController.RegisterIrq | src/kernel/interrupts.c:61-72 | succeeds exactly for a free valid line and a handler, changing only that entry |
| Interrupts.InterruptController.HandleKeyboardInterrupt | src/kernel/input.c:86-92 | a produced character is offered to the queue; none is created or forgotten |
| Interrupts.InterruptController.DispatchIrq | src/kernel/interrupts.c:111-127 | counts the dispatch or the invalid or unhandled line, saturating, and runs only the registered handler |
| Interrupts.InterruptController.SendEoi | src/arch/i386/hardware/pic.c:116-126 | slave then master for lines 8-15, master alone for 0-7, nothing else |
| Interrupts.EoiLaw | src/arch/i386/hardware/pic.c:116-126 | the master is written once for each of the 16 lines, the slave once before it for lines 8-15 and only those |
| Interrupts.OfferLaw | src/kernel/input.c:63-81 | a character joins unless 64 wait, and is then counted up to 2^32 - 1 |
| Interrupts.InterruptController.IrqHandler | src/arch/i386/interrupts/idt.c:304-325 | a missing frame, an invalid vector or a full depth panics before dispatch; otherwise one dispatch, one acknowledgement, depth restored, queue and drop counter exact, and the underflow panic unreachable |
| Pipeline.RunKeepsInv | src/kernel/input.c:63-125 | the ring, counting, keyboard, context and idle invariants hold after every sequence of steps |
| PipelineTheorems.ArrivalLaw | src/arch/i386/interrupts/idt.c:304-325 | with IF set and no STI delay an interrupt is taken before any instruction whatever, clearing IF and waking the CPU, and touches nothing else; otherwise nothing happens |
| PipelineTheorems.InterruptPoints | src/kernel/work.c:13-44 | runs exist with a handler active before a call, before the mask, while a command runs and between the pending count's loads, and in the kernel nowhere else; without the mask, before every load and store |
| PipelineTheorems.PassDelivers | src/kernel/work.c:13-35 | a call that finds a character takes nine steps, delivers exactly the oldest and returns with interrupts enabled |
| PipelineTheorems.PassIdles | src/kernel/work.c:37-43 | a call that finds none takes six steps and halts with interrupts enabled, touching nothing |
| PipelineTheorems.NoLostInput | src/kernel/input.c:63-115 | for every interleaving, delivered, in-flight and queued characters concatenate to the accepted ones, and at most 64 wait |
| PipelineTheorems.Conservation | src/drivers/keyboard.c:122-153 | the characters typed by the scancodes read are each accepted in order or counted as dropped; the drop counter saturates |
| PipelineTheorems.PendingReadsExact | src/kernel/input.c:120-125 | a pending count read with interrupts enabled is at most 64 and exact for the moment head was loaded |
| PipelineTheorems.ExactMeansWaiting | src/kernel/input.c:120-125 | that exact count is the number of characters then queued |
| PipelineTheorems.PendingReadReports | src/kernel/input.c:120-125 | the second load completes the read with one report, equal to that number |
| PipelineTheorems.ContextDiscipline | src/kernel/interrupts.c:77-96 | no context panic is reachable, depth is 0 in the foreground and 1 inside a handler, handlers do not nest, each interrupt is acknowledged exactly once before its exit |
| PipelineTheorems.KernelNeverSleepsOnInput | src/kernel/work.c:24-43 | a halted CPU never leaves a character queued |
| PipelineTheorems.IdleProtocol | src/arch/i386/cpu/cpu.c:24-31 | that holds if and only if the check is masked and STI delays interrupts by one instruction |
| PipelineTheorems.UnmaskedCheckSleeps | src/kernel/work.c:20-26 | without the CLI a run exists that sleeps on a queued key |
| PipelineTheorems.ImmediateStiSleeps | src/arch/i386/cpu/cpu.c:21-23 | if an interrupt could land between STI and HLT a run exists that sleeps on a queued key |
| PipelineTheorems.BoundedDelivery | src/kernel/work.c:13-35 | the character at queue position k is delivered by exactly the (k+1)-th call from then on, whatever arrives |
| PipelineTheorems.ProducerMatchesService | src/kernel/input.c:63-92 | a handler's queueing steps do to queue and drop counter what one enqueue call is specified to do, wherever the foreground was interrupted |
| PipelineTheorems.HandlerMatchesService | src/arch/i386/interrupts/idt.c:304-325 | a whole handler run does to keyboard, queue, drop counter, acknowledgements and depth what one irq_handler call is specified to do |
| PipelineTheorems.ConsumerMatchesService | src/kernel/input.c:97-115 | the masked loads and stores of the consumer do what one read call is specified to do, whatever labels fall between them |
| Work.Foreground.RunOnce | src/kernel/work.c:13-44 | panics untouched in interrupt context; otherwise delivers the oldest character to the shell, or halts with interrupts enabled exactly when none waits |
| Work.Foreground.Interrupt | src/arch/i386/interrupts/idt.c:304-325 | an interrupt between passes wakes the CPU, is dispatched and acknowledged once, offers the typed character once and returns at depth 0 with interrupts enabled |
| Work.Foreground.Serve | src/kernel/kernel.c:144-148 | over any passes and interrupts between them, keyboard state, queue, accepted and delivered characters are those of the pure rounds, and line and circular-buffer screen are what the pure session makes of the delivered ones |
| Work.KeyPerRound | src/kernel/kernel.c:146-148 | with a key per pass, every character the keyboard types is accepted and delivered in its own pass |
| Work.QuietRounds | src/kernel/work.c:13-35 | passes without interrupts deliver the oldest queued characters, one each |
| Work.RoundsConserve | src/kernel/input.c:63-115 | over any rounds the accepted characters are the delivered ones followed by the queued ones, at most 64 |
| Work.Foreground.KernelMain | src/kernel/kernel.c:107-148 | from interrupts_initialize on, with timer and keyboard registered, the rounds are exact and the terminal shows prompt and line if and only if no character was refused since the last Enter |
| Work.GreetingLaw | src/kernel/shell.c:271-278 | the first screen, in plain text |
| Work.DeliveredIsTypable | src/drivers/keyboard.c:122-153 | only characters the keyboard can type reach the shell |
| Work.ScreenFollowsKeys | src/kernel/shell.c:283-322 | for every interleaving, whatever each run of a command prints, the screen shows prompt and line exactly when no character was refused since the last Enter |
| PlainScreen.TabLaw | src/drivers/vga.c:199-204 | a tab blanks the cells up to the next multiple of 4 and ends there, or at the next row's start at the right edge; it never spills |
| PlainScreen.BackspaceUndoes | src/drivers/vga.c:209-221 | a character then a backspace blanks its cell and restores the cursor, one row up if the write scrolled |
| PlainScreen.NewlineLaw | src/drivers/vga.c:169-189 | column 0 of the next row with every cell kept, or on the last row each cell moved up one row and the last row blank |
| PlainScreen.PrintLaw | src/drivers/vga.c:252-259 | a character changes the cell at the cursor, byte and attribute, and no other; after column 79 the next row starts |
| PlainScreen.EraseLaw | src/drivers/vga.c:209-221 | backspace blanks the cell before the cursor, across a row start too, and nothing else; at the top left it does nothing |
| PlainScreen.TabCells | src/drivers/vga.c:199-204 | a tab blanks exactly the cells up to the next multiple of 4, cell by cell |
| PlainScreen.ReturnAndFormFeedLaw | src/drivers/vga.c:192-228 | carriage return moves to column 0; form feed blanks everything and homes the cursor |
| PlainScreen.TextAppears | src/drivers/vga.c:252-259 | text that fits the row appears as written and nothing else changes; text that fills it moves to the next row |
| PlainScreen.FullRowStays | src/drivers/vga.c:252-259 | text that exactly fills the row stays visible to its last character, one row up if the screen scrolled |
| Terminal.OffsetsDistinct | src/drivers/vga.c:46-63 | distinct visible positions are distinct cells, also where rows straddle cell 16384 |
| Terminal.VisibleCell | src/drivers/vga.c:46-63 | offset i of the window is cell (start + i) modulo 16384 |
| Terminal.WriteVisible | src/drivers/vga.c:252-253 | a store changes exactly one visible cell, and it is in the window |
| Terminal.ScrolledWindow | src/drivers/vga.c:169-171 | moving the window one row keeps the other 24 rows |
| Terminal.Terminal.SetHardwareViewStart | src/drivers/vga.c:72-80 | the two CRTC bytes spell the offset |
| Terminal.Terminal.ClearRow | src/drivers/vga.c:108-113 | blanks that visible row and no other cell |
| Terminal.Terminal.Clear | src/drivers/vga.c:134-144 | blank screen, cursor home, window at zero |
| Terminal.Terminal.ScrollUp | src/drivers/vga.c:169-174 | shows what copying every row up and blanking the last would show |
| Terminal.Terminal.Newline | src/drivers/vga.c:179-189 | next row, or scroll on the last |
| Terminal.Terminal.Tab | src/drivers/vga.c:199-204 | the plain screen's tab, through the mutual recursion with putchar |
| Terminal.Terminal.Backspace | src/drivers/vga.c:209-221 | the plain screen's backspace, window unmoved |
| Terminal.Terminal.PutChar | src/drivers/vga.c:231-260 | refines the plain screen for every character; every cell written was visible when written; the window moves by one row exactly when the screen scrolls, and start registers track it |
| Terminal.Terminal.Write | src/drivers/vga.c:265-269 | for every byte string the circular buffer shows what the plain screen shows |
| Terminal.Terminal.WriteString | src/drivers/vga.c:274-276 | writes exactly the bytes before the first NUL |
| LineEditor.EnterEchoes | src/kernel/shell.c:288-296 | Enter always ends with a prompt and an empty line on screen |
| LineEditor.KeyLaw | src/kernel/shell.c:299-321 | what each key but Enter does to line and screen: typed, erased, ignored or refused with a warning at 63 |
| LineEditor.NamesDecide | src/kernel/shell.c:214-249 | a line runs a command exactly when it is that command's name |
| LineEditor.EnterPrints | src/kernel/shell.c:288-296 | Enter prints the report of the command named, or quotes an unknown line, or nothing, and then a prompt |
| LineEditor.ClearBlanks | src/kernel/shell.c:221-222 | "clear" leaves a blank screen with a prompt at the top left |
| LineEditor.CommandRuns | src/kernel/shell.c:283-322 | a command typed at an empty prompt is echoed, run and followed by an empty line |
| LineEditor.WarnedMeans | src/kernel/shell.c:312-316 | a warning stands exactly when, since the last Enter, a printable character met a line of 63 |
| LineEditor.EchoMeans | src/kernel/shell.c:37-52 | echoing means the row reads "wigOSX> " and the line, cell by cell, with the cursor after them |
| LineEditor.EchoExactly | src/kernel/shell.c:283-322 | over any typed characters, whatever each run of a command prints, the row shows prompt and line with the cursor after them if and only if no character was refused since the last Enter |
| LineEditor.LongLineStopsEchoing | src/kernel/shell.c:312-316 | any 64 printable characters at an empty prompt leave 63 in the line and a row that does not show it |
| LineEditor.EchoShowsLine | src/kernel/shell.c:318-321 | when the row echoes, the line can be read back from the screen |
| LineEditor.DisplacedDoesNotEcho | src/kernel/shell.c:312-316 | after the buffer-full warning the row no longer shows the line |
| Shell.StringsEqual | src/kernel/shell.c:59-71 | true exactly when the two C strings are equal |
| Shell.Shell.ResetBuffer | src/kernel/shell.c:260-266 | 64 NULs and length zero |
| Shell.Shell.Initialize | src/kernel/shell.c:271-278 | the banner and the first prompt, which echoes the empty line |
| Shell.Shell.Recognise | src/kernel/shell.c:214-249 | the chain of comparisons selects the command the line names |
| Shell.Shell.ExecuteCommand | src/kernel/shell.c:214-255 | the screen after the command, unknown ones quoted back |
| Shell.Shell.HandleCharacter | src/kernel/shell.c:283-322 | the buffer is the pure editor's line, NUL-padded, at most 63 long; the screen reacts as specified; panics untouched in interrupt context |
| Paging.WithFlags | src/arch/i386/memory/paging.c:85-89 | setting the flag bits keeps the address above them |
| Paging.IdentityTranslation | src/arch/i386/memory/paging.c:79-91 | the two-level walk maps every address below 16 MiB to itself, writable, and no other 32-bit address, whatever else lies in memory |
| Paging.AlignmentDecides | src/arch/i386/memory/paging.c:29-34 | the walk is the identity map if and only if directory and tables are page-aligned, whatever else lies in memory |
| Paging.PageTables.ClearTables | src/arch/i386/memory/paging.c:64-74 | every entry of directory and tables is zero |
| Paging.PageTables.BuildIdentityMap | src/arch/i386/memory/paging.c:79-91 | the nested loops leave every entry as identity mapping needs it |
| Paging.PageTables.InitializeIdentity | src/arch/i386/memory/paging.c:96-98 | after clearing and building, the walk is the identity below 16 MiB and absent above |
| Format.DecimalRoundTrip | src/kernel/format.c:30-46 | reading a printed number gives it back, with no leading zero |
| Format.CanonicalRoundTrip | src/kernel/format.c:30-46 | every canonical digit string is what its value prints |
| Format.DecimalPlaces | src/kernel/format.c:30-46 | places weigh powers of 10, the leftmost the most |
| Format.FormatDecimal | src/kernel/format.c:11-48 | text and NUL exactly when they fit, the rest of the buffer kept, nothing written on failure, digit array never overrun |
| Format.Uint32Decimal | src/kernel/format.c:11-48 | the same with 10 digits, which always suffice; eleven bytes always fit |
| Format.Uint64Decimal | src/kernel/format.c:53-90 | the same with 20 digits |
| Format.HexRoundTrip | src/kernel/format.c:105-110 | reading the hexadecimal digits gives the value back |
| Format.HexPlaces | src/kernel/format.c:105-110 | places weigh powers of 16, with digits 0-9 and A-F |
| Format.Uint32Hex | src/kernel/format.c:95-114 | "0x" and eight digits that read back as the value when eleven bytes fit; otherwise nothing is written |

## Left out

- Work.Foreground.Serve: interrupts come between passes there; inside a pass they are the subject of `Pipeline`.
- NULL out-parameters of `pmm_allocate_frame`, `input_try_read_character` and `keyboard_handle_interrupt`: results are returned instead; NULL text buffers of the formatter are modelled.
- Terminal.PutChar: text memory is taken to wrap at 16384 cells in the viewport as the code assumes; what real VGA hardware displays there is not claimed.
- Shell.ExecuteCommand: the text of the reporting commands is any text ending in a newline; the commands' own wording and the numbers they print are not modelled.
- MemoryMap.MemoryMap.ReadMultibootMap: after a rejection the partly filled region table is only known to be well formed; the kernel panics and never reads it.
- Pipeline.RunKeepsInv: interrupts other than the keyboard's change no modelled variable; the drop counter's load and store are one step, since nothing else writes it and handlers are not interrupted.
- PipelineTheorems.BoundedDelivery: that the foreground is eventually scheduled again is not stated; the bound counts completed calls.
- Control registers, port timing, the assembly stubs, GDT and IDT encoding, PIC remapping and masks, the PIT divisor.
- Serial output and the log fan-out: log text is modelled as console text.
- `kmalloc` and `kfree` are stubs in this version; only the heap region's place inside the kernel image matters here.
- CPU exceptions, which only panic, and memory ordering between processors, of which there is one.
- `vmm.c`, `time.c`, `panic.c`, `test.c` and the printed summaries: thin wrappers.
