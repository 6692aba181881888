# Verified models of GD32 firmware algorithms

Dafny models of the stateful algorithms of a bare-metal lighting firmware, and proofs of what they keep,
undo and guarantee over whole runs. Each module follows one component:

| modules | component |
|---|---|
| `HeapModel`, `HeapRuns`, `HeapMemory` | the bucket allocator of the C library: a state machine on values, its runs, and the same allocator on a byte memory with headers and links in place |
| `FlashModel`, `ConfigModel`, `ConfigRuns`, `ConfigStore` | the configuration store, its commit state machine and the polled driver of the internal NOR flash; values, runs, and classes |
| `PrintfModel`, `Printf`, `RenderLaws`, `Directives`, `Text` | the formatter behind `printf`, `sprintf` and `vsnprintf`, and what its rendering of each directive means |
| `UuidModel`, `Uuid`, `Inet` | UUID text (section 4 of RFC 9562) and dotted addresses, on top of that formatter |
| `CalendarModel`, `Calendar` | `gmtime` and `mktime` against a closed-form calendar |
| `Strtok` | tokens cut out of a string in place |
| `Timer6`, `Micros`, `Ptp` | time from racing and wrapping counters; conversions and normal forms of the precision clock |
| `PollReply`, `PollRuns`, `DmxMerge`, `SlotInfo`, `Ema` | poll-reply scheduling, merging of two sources, slot descriptions as text, the averaging filter |
| `Words` | machine integers, and lemmas on division and shifts |

Conventions. Machine integers are bounded mathematical integers; every wrap-around, truncation and rounding of the
32-bit target is written out (`Wrap`, `Wrap16`). Code that changes state is a class or a method with loops, proved equal
to a function on values; the theorems are about those functions and their runs. Hardware, clocks and other modules
appear as parameters: the state of the flash controller, the counter values read, the id a timer pool returns. History
that the code does not keep (elapsed time, polls served, the abstract heap) is ghost state, or is marked as such.

Where the code and what is promised for it part ways, the code is modelled as written and the exact condition is proved:

- a heap request whose rounded end leaves 32 bits can pass the limit test and breaks the heap: exactly the condition
  `HeapModel.Overflows`, with an input in `HeapModel.RequestMovesBack` (`HeapModel.MallocGrants`,
  `HeapRuns.CallKeepsInv`); a block above the largest bucket is never used again after `free`
  (`HeapRuns.RetiredForEver`);
- `UpdateArray` compares only the first `length` bytes, so a prefix of the stored value changes nothing
  (`ConfigRuns.UpdateArrayStores`); `Reset` clears the header too, so the reset image does not survive a reboot
  (`ConfigRuns.RebootRestores`); a reboot can take a torn image for a valid one, while it is written and also after an
  update has interrupted the writing (`ConfigRuns.TornImageAccepted`, `ConfigRuns.TornAfterUpdate`);
- the flash driver's `Write` never finishes if the length is not a multiple of four (`FlashModel.WriteFinishesIffWholeWords`);
- the formatter's default branch emits the unknown conversion character and does not consume it, so it is emitted twice,
  and `%%` is no escape; integer directives depart from section 7.21.6.1 of ISO C11 for zero with precision zero, for
  precisions above 63, for negative precision arguments, for a zero flag beside a precision, for zero-padded negative
  numbers and in widths above 63 (`RenderLaws.DirectiveAsInIsoC`), and for a second flag, the flags `+`, blank and `#`,
  a `*` width and length modifiers other than `l` (`RenderLaws.SecondFlagUnknown`, `RenderLaws.UnknownConversionTwice`);
  `vsnprintf` stores no text if its size is 2^31 or more, and with size 0 prints to the console what its comment says it
  only counts (`Printf.Printer.Vsnprintf`);
- `inet_aton` keeps eight bits of a field, so 256 is read as 0 (`Inet.AddressAsWritten`), and reads on behind the
  terminator of a text that is too short (`Inet.BehindTerminator`);
- `mktime` passes `tm_year` to the leap-year test, which is wrong for 2000 only (`CalendarModel.RoundTrip`);
- a timer read can miss a second if the handler runs inside it: exactly the condition `Timer6.Stale`
  (`Timer6.Timer6.GetElapsedMilliseconds`, with an input in `Timer6.MissedSecond`);
- a delay is early exactly if its cycle count overflows (`Micros.EarlyOnlyOnOverflow`);
- a controller can be queued twice for a poll reply, and a poll that arrives when the clock shows 0 is lost
  (`PollRuns.NeverQueuedTwice`, `PollRuns.QueuedTwice`, `PollRuns.AcceptedWhen`);
- a printed slot mask comes back only if its ones start at slot 0 without a gap (`SlotInfo.RoundTrip`), and the text can
  exceed its buffer (`SlotInfo.DmxSlotInfo.ToString`);
- nanoseconds from two seconds on do not survive the conversion to subseconds (`Ptp.NanosecondsThereAndBack`).

## Model

| member | source | states |
|---|---|---|
| HeapModel.Gd32TableValid | lib-clib/src/gd32/malloc.h:29 | the bucket table of this target meets what the heap proofs ask of a table: positive, strictly increasing sizes |
| HeapModel.MallocGrants | lib-clib/src/malloc.cpp:104-161 | for every 32-bit size: the heap stays intact if and only if the request does not overflow, that is, unless the bump branch passes the limit test with an end that wrapped around; then a request fails exactly for size 0 or lack of space, and carves only when no block of its bucket is free |
| HeapModel.MallocShape | lib-clib/src/malloc.cpp:104-161 | a granted block was not live before, is live now and at least as large as requested, and nothing else changes; a refused request changes nothing |
| HeapModel.BumpGrants | lib-clib/src/malloc.cpp:128-147 | the bump in 32 bits is the true carving, and keeps the invariant, if and only if the block ends inside the address space |
| HeapModel.RequestMovesBack | lib-clib/src/malloc.cpp:131-147 | the failing input: a request of 0xFFFFFF00 bytes passes the limit test and moves the heap end 0xF0 bytes back |
| HeapModel.PopPreservesInv | lib-clib/src/malloc.cpp:125-127 | taking the head of a free list keeps the tiling, the exactness of the free lists and the place of every block |
| HeapModel.CarvePreservesInv | lib-clib/src/malloc.cpp:128-151 | so does bumping the heap end over a new block |
| HeapModel.ReleasePreservesInv | lib-clib/src/malloc.cpp:163-194 | so does a release, which lists the block under its own bucket or retires it if it is oversized |
| HeapModel.BucketSizesDiffer | lib-clib/src/malloc.cpp:182-193 | a block of bucket size is released to the very bucket it was allocated from |
| HeapModel.StrideLeast | lib-clib/src/malloc.cpp:131-134 | a block takes the least multiple of 16 bytes that holds header and data |
| HeapModel.BlockSizeLeast | lib-clib/src/malloc.cpp:111-119 | a request is rounded up to the smallest bucket that holds it, or stays as it is above the largest |
| HeapModel.LastFreedFirst | lib-clib/src/malloc.cpp:104-194 | freeing a block of a bucket and then requesting one of that bucket hands out that very block and leaves the heap as it was |
| HeapModel.ReallocShape | lib-clib/src/malloc.cpp:228-274 | a block that is large enough stays; size 0 frees it; otherwise it is freed for another block that is large enough, or, without space, nothing changes |
| HeapRuns.Final | lib-clib/src/malloc.cpp:104-194 | the heap invariant (exact tiling; every block live, on exactly its free list, or oversized and retired) holds after every run of allocations that do not overflow and releases of live blocks |
| HeapRuns.CallIsRun | lib-clib/src/malloc.cpp:104-274 | every call with live pointers whose request does not overflow is such a run, its effect included |
| HeapRuns.CallKeepsInv | lib-clib/src/malloc.cpp:104-274 | any call of the four entry points with live pointers keeps the heap intact if and only if the size it hands to `malloc` (for `calloc` the product in 32 bits) does not overflow |
| HeapRuns.CallsAreRun | lib-clib/src/malloc.cpp:104-274 | every sequence of calls with live pointers and without overflowing requests is a run, so all that holds at the end of runs holds after every such sequence |
| HeapRuns.BlocksApart | lib-clib/src/malloc.cpp:129-151 | payloads are 4-aligned, inside the heap, and no two blocks share a header or payload byte |
| HeapRuns.FreeListsDisjoint | lib-clib/src/malloc.cpp:182-193 | no block is on two free lists, twice on one, or on a list and live |
| HeapRuns.RetiredForEver | lib-clib/src/malloc.cpp:182-193 | over every run a freed block above the largest bucket stays as it is and is never used again |
| HeapRuns.CarveMeansDemand | lib-clib/src/malloc.cpp:111-151 | a block of a bucket is carved only when every block of that bucket is live |
| HeapRuns.CarvedIsPeak | lib-clib/src/malloc.cpp:111-194 | in every run the blocks carved for a bucket are as many as were ever live at once |
| HeapRuns.SpaceIsPeakDemand | lib-clib/src/malloc.cpp:111-194 | heap use is the peak demand of each bucket plus the oversized blocks, independent of the number of calls |
| HeapModel.NextBlockExact | lib-clib/src/malloc.cpp:131-134 | the 32-bit end of a block is its true end if and only if that lies inside the address space |
| HeapModel.HugeRequestWraps | lib-clib/src/malloc.cpp:131-147 | another overflowing request, which leaves the heap end where it was |
| HeapMemory.PopRepresents | lib-clib/src/malloc.cpp:125-127 | unlinking in memory represents taking the head of the abstract list |
| HeapMemory.CarveRepresents | lib-clib/src/malloc.cpp:147-153 | writing a new header represents carving |
| HeapMemory.ReleaseRepresents | lib-clib/src/malloc.cpp:183-191 | writing the link and the list head represents the release, and disturbs no other header or link |
| HeapMemory.PayloadWrite | lib-clib/src/malloc.cpp:55-60 | whatever a client writes inside one payload disturbs no header, no link and no other payload |
| HeapMemory.BucketHeap.constructor | lib-clib/src/malloc.cpp:74-75 | the initial heap is empty and valid |
| HeapMemory.BucketHeap.TakeFree | lib-clib/src/malloc.cpp:125-153 | the memory after unlinking the head represents the abstract heap after taking it |
| HeapMemory.BucketHeap.CarveNew | lib-clib/src/malloc.cpp:128-153 | for every size: after writing a new header the memory is that of the abstract bump; it represents a valid heap unless the end wrapped around, and nothing changed for lack of space |
| HeapMemory.BucketHeap.Malloc | lib-clib/src/malloc.cpp:104-161 | for every 32-bit size `malloc` on memory does what the abstract heap does, writes only one header and keeps every live payload; the heap stays valid if and only if the request does not overflow; a failed call changes no byte |
| HeapMemory.BucketHeap.Free | lib-clib/src/malloc.cpp:163-194 | `free` of a live pointer releases its block, writes only its header, and keeps every live payload |
| HeapMemory.BucketHeap.Calloc | lib-clib/src/malloc.cpp:196-226 | as many zero bytes as the product in 32 bits, or a null pointer; the block is large enough for n*size if and only if the product fits; every other live payload is kept |
| HeapMemory.BucketHeap.CopyBytes | lib-clib/src/malloc.cpp:251-266 | the copy loops, which may read on into the destination, still carry over the first bytes up to the source size |
| HeapMemory.BucketHeap.Realloc | lib-clib/src/malloc.cpp:228-274 | a successful call carries all bytes of the old size over, a failed one changes nothing, every other live payload is kept |
| FlashModel.WriteFinishesIffWholeWords | lib-flashcode/src/gd32/fmc/flashcode.cpp:208-305 | repeated `Write` calls finish if and only if the length is a multiple of four; then each byte written is the AND of the old one and that of the image, and no other has changed |
| FlashModel.PartialWordRepeats | lib-flashcode/src/gd32/fmc/flashcode.cpp:260-282 | a rest of one to three bytes is programmed as a whole word, over and over, and never counted off |
| ConfigModel.BootInv | lib-configstore/include/configstore.h:66-116 | the constructor establishes the invariant on any flash contents |
| ConfigModel.ChangeInv | lib-configstore/include/configstore.h:481-484 | a change of the image keeps the invariant in every state of the machine and of the driver |
| ConfigModel.CommitInv | lib-configstore/include/configstore.h:529-579 | so does every commit step on a device that may be busy |
| ConfigModel.EraseStepInv | lib-flashcode/src/gd32/fmc/flashcode.cpp:102-206 | an erase, also one begun in the middle of an interrupted write, makes exact progress towards an erased store |
| ConfigModel.WriteStepInv | lib-flashcode/src/gd32/fmc/flashcode.cpp:208-305 | a write leaves exactly the words counted off equal to the image and the rest erased |
| ConfigRuns.Final | lib-configstore/include/configstore.h:454-579 | the invariant holds after every interleaving of updates, resets, commit steps, timer ticks and busy replies |
| ConfigRuns.ProgramIsExact | lib-flashcode/src/gd32/fmc/flashcode.cpp:260-282 | a word is only ever programmed over erased flash, so the AND of NOR flash stores exactly the image |
| ConfigRuns.IdleIsStored | lib-configstore/include/configstore.h:563-566 | whenever the state is idle the flash holds the image |
| ConfigRuns.RunKeepsOtherFlash | lib-configstore/include/configstore.h:529-579 | no run changes a byte of flash outside the store |
| ConfigRuns.RunKeepsArmed | lib-configstore/include/configstore.h:481-527 | while the pool has a timer to give, unfinished work always has an armed timer |
| ConfigRuns.ChangeArmsUnlessPoolFull | lib-configstore/include/configstore.h:481-512 | a change is left without a timer if and only if none was armed and the pool gave none |
| ConfigRuns.UpdateArrayStores | lib-configstore/include/configstore.h:465-479 | `UpdateArray` stores the zero-padded source if and only if the source is not a prefix of a longer stored value |
| ConfigRuns.ValueBytes | lib-configstore/include/configstore.h:454-463 | after an update the member holds the value and no other byte has changed; the commit starts again, and a timer is asked for if there was none, unless the value was there already |
| ConfigRuns.ArrayBytes | lib-configstore/include/configstore.h:465-479 | every byte after `UpdateArray`: the source, zeros behind it and no change beside the array, or nothing changes if the array starts with the source |
| ConfigRuns.ByteOfRun | lib-configstore/include/configstore.h:125-479 | in every run each byte of the image is what the last update or reset that wrote it wrote |
| ConfigRuns.UpdateSurvivesReboot | lib-configstore/include/configstore.h:66-621 | after any run from boot: a value stored, committed and read after the next boot is that value if and only if there was no reset before, or the value is zero |
| ConfigRuns.HeaderSurvivesUpdates | lib-configstore/include/configstore.h:125-479 | updates never touch magic number and version; a reset zeroes them for good |
| ConfigRuns.RebootFromIdle | lib-configstore/include/configstore.h:66-116 | a reboot in idle reads back a valid image unchanged, and starts a fresh one otherwise |
| ConfigRuns.RebootRestores | lib-configstore/include/configstore.h:66-128 | over whole runs: a reboot in idle restores the image if and only if `Reset` was not called since the boot before |
| ConfigRuns.TornWriteAccepted | lib-configstore/include/configstore.h:561-608 | while writing, a reboot accepts a torn image if and only if its first eight bytes had been programmed |
| ConfigRuns.TornImageAccepted | lib-configstore/include/configstore.h:66-116 | in every state a run from boot can reach, a reboot accepts a torn image if and only if no page was erased since its words began to be programmed, at least eight bytes, but not all, are in, and its header is valid, which it is not after a reset; what it then reads is those bytes and 0xFF |
| ConfigRuns.StepContent | lib-configstore/include/configstore.h:529-579 | the image last programmed, how much of it and how much was erased since account for every byte of the stored image, through every event |
| ConfigRuns.TornAfterUpdate | lib-configstore/include/configstore.h:454-463 | the failing input outside the writing state: an update after the second word leaves the torn image to be accepted |
| ConfigRuns.CommitProgress | lib-configstore/include/configstore.h:529-579 | each commit step decreases the number of steps left, except a poll of a busy device, which changes nothing |
| ConfigRuns.CommitsReachIdle | lib-configstore/include/configstore.h:618-621 | as many steps as are left and as the device was busy reach idle with the image in the flash |
| ConfigRuns.TicksReachIdle | lib-configstore/include/configstore.h:486-527 | an armed timer stores the image and is released within as many ticks as steps are left and as the device was busy |
| ConfigStore.FlashCode.Erase | lib-flashcode/src/gd32/fmc/flashcode.cpp:102-206 | the driver in place does what its step function does, and touches only the page it erases |
| ConfigStore.FlashCode.Write | lib-flashcode/src/gd32/fmc/flashcode.cpp:208-305 | likewise for programming |
| ConfigStore.Store.constructor | lib-configstore/include/configstore.h:66-116 | the image in the flash if magic number and version match, else magic number, version and zeros, with the commit started |
| ConfigStore.Store.Reset | lib-configstore/include/configstore.h:125-128 | zeroes the whole image and restarts the commit, keeping the invariant |
| ConfigStore.Store.Update | lib-configstore/include/configstore.h:454-463 | afterwards the member holds the value and no other byte has changed; the state machine and the timer are left alone if the value was there already, and restarted if not |
| ConfigStore.Store.UpdateArray | lib-configstore/include/configstore.h:465-479 | the array step of the specification in place (ArrayBytes says what it stores), keeping the invariant |
| ConfigStore.Store.SetStatusChanged | lib-configstore/include/configstore.h:481-512 | restarts the commit and arms the timer unless it is armed |
| ConfigStore.Store.Commit | lib-configstore/include/configstore.h:529-579 | one step of the machine; false if and only if it is idle |
| ConfigStore.Store.Timer | lib-configstore/include/configstore.h:486-527 | a tick commits one step and stops the timer when idle |
| ConfigStore.Store.ConfigstoreCommit | lib-configstore/include/configstore.h:618-621 | terminates however long each flash operation takes, and leaves the image in the flash |
| Printf.Printer.PutChar | lib-clib/src/printf.cpp:62-73 | every character is counted; it is stored while there is room before the terminator, or goes to the console |
| Printf.Printer.PutDigits | lib-clib/src/printf.cpp:86-142 | the backward digit loop writes exactly the numeral of the number |
| Printf.Printer.FormatNumber | lib-clib/src/printf.cpp:75-178 | the two integer formatters emit the number field: zeros, sign and blanks as bounded by the buffer |
| Printf.Printer.FormatString | lib-clib/src/printf.cpp:287-310 | the characters of the text in their order, cut to the precision if there is one, in a field of the width on the side the flag says |
| Printf.Printer.FormatFloat | lib-clib/src/printf.cpp:235-284 | sign, integer part, point and fraction digits, padded on the left, from the parts that the floating-point unit gives at the precision in effect |
| Printf.Printer.FormatPointer | lib-clib/src/printf.cpp:312-320 | 0x and eight hexadecimal digits |
| Printf.Printer.ReadDirective | lib-clib/src/printf.cpp:340-383 | the in-place scan parses flag, width, precision and length modifier as specified, `*` taking an argument |
| Printf.Printer.Step | lib-clib/src/printf.cpp:334-428 | one turn of the loop emits the rendering of what it consumes |
| Printf.Printer.Vprintf | lib-clib/src/printf.cpp:322-434 | for every format: returns the length of the whole rendering, and stores as many of its first characters as the capacity keeps and touches nothing behind them |
| Printf.Printer.Vsnprintf | lib-clib/src/printf.cpp:484-499 | for every size: stores the first characters that the capacity, converted to `int`, keeps of what `sprintf` renders, then NUL, and returns n; that is the promised min(n, size-1) if and only if the size is below 2^31 or there is no text; for size 0 the text goes to the console |
| Printf.Printer.Sprintf | lib-clib/src/printf.cpp:455-470 | stores the whole rendering and NUL |
| RenderLaws.IntegerDirective | lib-clib/src/printf.cpp:75-178 | an integer directive emits max(width, core) characters: blanks, a sign for a negative number only, digits that read back as the number, blanks |
| RenderLaws.MagnitudeValue | lib-clib/src/printf.cpp:97-156 | padding zeros leave the digits a numeral of the same number |
| RenderLaws.WidthAsInIsoC | lib-clib/src/printf.cpp:75-178 | for every width, precision as passed and at most one flag `0` or `-`: the field is as long as ISO C asks for if and only if it is not zero without a digit in no width, a precision above 63 that exceeds the width, a zero-padded negative number that needs padding, or a negative precision whose zeros exceed the width |
| RenderLaws.NumberAsInIsoC | lib-clib/src/printf.cpp:75-178 | for every width, precision as passed (a negative one means none in ISO C) and flags `0` and `-`: the number field is the very characters of section 7.21.6.1 of ISO C11 if and only if `AsInIsoC` holds, a condition on flags, width, precision and number of digits |
| RenderLaws.DirectiveAsInIsoC | lib-clib/src/printf.cpp:340-423 | the same for every text that is parsed as an integer directive, and the arguments passed with it |
| RenderLaws.NegativePrecision | lib-clib/src/printf.cpp:363-378 | a departure: `%.*d` with -5 and 3 gives 00003, where ISO C asks for 3 |
| RenderLaws.SecondFlagUnknown | lib-clib/src/printf.cpp:346-352 | a second flag, or a `*` width behind a flag, is taken for an unknown conversion character: `%0-5d` gives --5d |
| RenderLaws.TextFieldLength | lib-clib/src/printf.cpp:287-310 | a string directive emits max(width, characters taken) characters |
| RenderLaws.UnknownConversionTwice | lib-clib/src/printf.cpp:424-427 | an unknown conversion character, the flags `+`, blank and `#` and a `*` width among them, is emitted for the directive and again as ordinary text |
| RenderLaws.PercentPercent | lib-clib/src/printf.cpp:334-427 | `%%` is not an escape: its second character starts a directive of its own |
| Directives.WrittenRead | lib-clib/src/printf.cpp:340-383 | a directive written with at most one flag, a decimal width, a precision and `l` is parsed to just these fields |
| Directives.RenderWritten | lib-clib/src/printf.cpp:334-433 | such a directive renders to the conversion of the next argument, and the rest of the format with the other arguments |
| Directives.RenderStarred | lib-clib/src/printf.cpp:363-378 | with `.*` the precision is the absolute value of the argument before |
| Directives.StringDirective | lib-clib/src/printf.cpp:287-310 | `%s`: the text in its order, cut to the precision, with the blanks up to the width behind it for the minus flag and before it otherwise |
| Directives.CharDirective | lib-clib/src/printf.cpp:386-388 | `%c`: the one character with the code of the argument, whatever width and precision |
| Directives.PointerDirective | lib-clib/src/printf.cpp:312-320 | `%p`: 0x and the eight lower-case digits of the argument, whatever is asked for |
| Directives.NumberDirective | lib-clib/src/printf.cpp:75-178 | `%d`, `%i`, `%u`, `%x`, `%X` of an argument in range: its numeral, zeros and sign before it, blanks on the side the flag says, as many of each as precision, flag and width ask for up to 63 characters |
| Directives.FloatDirective | lib-clib/src/printf.cpp:241-284 | `%f`: sign, the numeral of the whole part, a point, and digits whose value is the scaled fraction, as many as the precision or more if it needs more; blanks on the left |
| Text.NumeralValue | lib-clib/src/printf.cpp:136-142 | reading the shortest numeral of a number gives the number |
| Text.DigitChars | lib-clib/src/printf.cpp:90-97 | digits from ten on are letters, in upper case for `X` only |
| Text.XDigits | include/ctype.h:37-39 | the digits accepted by the hexadecimal parsers, and the value of each |
| Text.NumeralDigitAt | lib-clib/src/printf.cpp:92-142 | the k-th digit from the right of a numeral is the digit for the k-th power of the radix |
| Text.DigitOfPower | lib-clib/src/printf.cpp:92-142 | that digit is the number divided by the power, modulo the radix |
| Text.HexDigitAt | lib-clib/src/printf.cpp:92-108 | the same for digits of fixed width |
| Text.PaddedNumeralIsHex | lib-clib/src/printf.cpp:103-108 | a zero-padded numeral is the fixed-width one |
| Text.HexOfValue | lib-clib/src/uuid_parse.cpp:69-86 | writing back what was read gives the digits, in the case chosen |
| UuidModel.PackUnpack | lib-clib/src/uuid_unparse.cpp:78-103 | packing the unpacked fields gives the 16 bytes back |
| UuidModel.UnpackPack | lib-clib/src/uuid_parse.cpp:88-119 | unpacking the packed bytes gives the fields back |
| UuidModel.ParseUnparse | lib-clib/src/uuid_parse.cpp:121-170 | parsing the text of a UUID, in either case, gives the UUID |
| UuidModel.UnparseParse | lib-clib/src/uuid_unparse.cpp:105-127 | the text of a parsed UUID is the accepted text in the case chosen |
| UuidModel.BytesTextRoundTrip | lib-clib/src/uuid_unparse.cpp:105-123 | every 16-byte UUID is accepted and read back unchanged from its text |
| UuidModel.UnparseBytes | lib-clib/src/uuid_unparse.cpp:105-127 | the text is two digits for each of the 16 bytes, in their order, with dashes behind the fourth, sixth, eighth and tenth |
| UuidModel.ParsedByte | lib-clib/src/uuid_parse.cpp:121-170 | each byte of an accepted text is the value of its two digits |
| UuidModel.FieldsOfBytes | lib-clib/src/uuid_unparse.cpp:78-103 | each field is the big-endian number of its bytes |
| UuidModel.CaseDoesNotMatter | lib-clib/src/uuid_parse.cpp:69-86 | texts that differ in the case of letters only are parsed alike |
| Uuid.RenderUuid | lib-clib/src/uuid_unparse.cpp:69-113 | what the formatter renders for the format string is the text of the UUID |
| Uuid.UuidUnpack | lib-clib/src/uuid_unparse.cpp:78-103 | each field is the big-endian number of its bytes, and the node the last six bytes |
| Uuid.UuidUnparse | lib-clib/src/uuid_unparse.cpp:105-127 | the buffer holds the digits of the 16 bytes in their order with the dashes, 36 characters, and NUL |
| Uuid.HexUint32 | lib-clib/src/uuid_parse.cpp:69-86 | the 32-bit value of the digits up to the first character that is none |
| Uuid.UuidPack | lib-clib/src/uuid_parse.cpp:88-119 | the bytes of each field are its big-endian form, and the last six are the node |
| Uuid.CheckText | lib-clib/src/uuid_parse.cpp:129-151 | accepts exactly 36 characters with dashes at 8, 13, 18 and 23 and hexadecimal digits elsewhere |
| Uuid.UuidParse | lib-clib/src/uuid_parse.cpp:121-170 | each byte written for an accepted text is the value of its two digits; nothing is written for any other text |
| Inet.FieldAccepted | lib-clib/src/inet_aton.cpp:48-60 | a field is accepted if and only if it is at most three digits before a stop character; then it is their value |
| Inet.LargeFieldWraps | lib-clib/src/inet_aton.cpp:62 | an input that is not read as written: 256 is accepted and kept as 0 |
| Inet.AddressAsWritten | lib-clib/src/inet_aton.cpp:37-90 | an accepted address is the numbers written in its fields if and only if none of them exceeds 255 |
| Inet.BehindTerminator | lib-clib/src/inet_aton.cpp:44-64 | what memory holds behind the terminator has no influence if and only if no field before the last ends at the terminator |
| Inet.OneDigitStopsShort | lib-clib/src/inet_aton.cpp:44-64 | an input that is read on behind its terminator: a text of one digit |
| Inet.InetAton | lib-clib/src/inet_aton.cpp:37-90 | the loops read the address that the scan of four fields gives, from memory that may go on behind a terminator |
| Inet.RenderAddress | lib-clib/src/inet_ntoa.cpp:31-35 | what the formatter renders for an address is its dotted text |
| Inet.InetNtoa | lib-clib/src/inet_ntoa.cpp:29-35 | the static buffer of 18 characters always holds the whole dotted text |
| Inet.AddressRoundTrip | lib-clib/src/inet_aton.cpp:37-90 | every 32-bit address printed is read back unchanged, whatever follows the terminator in memory |
| CalendarModel.DateUnique | lib-clib/src/time.cpp:63-110 | a moment has only one date and time of day |
| CalendarModel.Epoch | lib-clib/src/time.cpp:63-110 | second 0 is the start of 1 January 1970, a Thursday |
| CalendarModel.DayAfter | lib-clib/src/time.cpp:63-110 | a day later it is the same time on the next day of the month, on the first of the next month, or on New Year, by the month lengths of the calendar, and the next day of the week and of the year |
| CalendarModel.SecondAfter | lib-clib/src/time.cpp:63-78 | within a day hour, minute and second count the seconds |
| CalendarModel.BeforeEpoch | lib-clib/src/time.cpp:63-110 | before 1970: days, hours, minutes and seconds that add up to the moment, none of them positive, in January 1970 |
| CalendarModel.WrongLeapTest | lib-clib/src/time.cpp:133-140 | in the range of `mktime` the leap test on `tm_year` is wrong for 2000 only |
| CalendarModel.MkTimeOfDate | lib-clib/src/time.cpp:112-167 | what `mktime` gives for the date of any moment from 1970 on, 29 February 2000 and the rest of that year included |
| CalendarModel.RoundTrip | lib-clib/src/time.cpp:63-167 | `mktime(gmtime(t)) == t` if and only if t is in 1970 to 2039 outside 29 February to 31 December 2000, or is -1 |
| CalendarModel.AcceptedDateDenoted | lib-clib/src/time.cpp:112-167 | conversely an accepted date outside 2000 is the date of its result |
| CalendarModel.AcceptedDates | lib-clib/src/time.cpp:112-167 | `mktime` accepts exactly the proper dates and times of 1970 to 2039 but 29 February 2000, whatever the days of the week and of the year |
| Calendar.Clock.GmTime | lib-clib/src/time.cpp:63-110 | the year and month loops find the date that the closed-form day count denotes |
| Calendar.Clock.LocalTime | lib-clib/src/time.cpp:54-61 | the same for the moment shifted by the offset |
| Calendar.FindYear | lib-clib/src/time.cpp:79-90 | the year loop splits a day count into the closed-form days before the year and a day inside it |
| Calendar.FindMonth | lib-clib/src/time.cpp:94-105 | the month loop splits a day of the year into month and day |
| Calendar.MkTime | lib-clib/src/time.cpp:112-167 | the accumulating loops compute the specified sum, with every range check and its error |
| Calendar.ThereAndBack | lib-clib/src/time.cpp:54-167 | the round trip through the static structure |
| Strtok.Tokenizer.Strtok | lib-clib/src/strtok.cpp:58-101 | one call: the token, the one character overwritten and the next start; a null pointer again once the string is used up |
| Strtok.Tokenizer.AllTokens | lib-clib/src/strtok.cpp:58-101 | the calls on a string up to the first null pointer return the starts of its runs, in order, and leave the memory with just those runs cut off |
| Strtok.RunsAreMaximal | lib-clib/src/strtok.cpp:66-99 | the runs returned are exactly the maximal delimiter-free ones |
| Strtok.RunsBounded | lib-clib/src/strtok.cpp:85-98 | tokens are not empty, lie inside the string and follow each other |
| Strtok.CutAtExactly | lib-clib/src/strtok.cpp:93 | only the character behind each run is overwritten |
| Strtok.SameCut | lib-clib/src/strtok.cpp:95 | earlier cuts do not influence a later call |
| Timer6.NoSecondTwice | lib-gd32/src/timer6.cpp:37-45 | in every run of ticks and handler steps each second is counted once, pending, or lost to a flag still set |
| Timer6.Timer6.Elapse | lib-gd32/src/timer6.cpp:56-58 | the counter runs modulo one second and sets the flag when it wraps |
| Timer6.Timer6.IrqHandler | lib-gd32/src/timer6.cpp:37-45 | the handler counts the signalled second once, whatever ticks pass between its accesses; a flag it found set is clear afterwards, and a second that ends meanwhile is lost, while one that ends after an unset flag was read stays signalled |
| Timer6.Timer6.GetElapsedMilliseconds | lib-gd32/src/timer6.cpp:79-90 | the result is the true time when the counter was last read if and only if the call is not `Stale`: the handler does not run on a second that is over before the counter is read, nor between the counter and the flag on a second that was over by then; else it is one second short; it is the true time at some instant of the call if and only if the call is not `Stale`, or had taken a second when the counter was last read |
| Timer6.ShortCall | lib-gd32/src/timer6.cpp:79-90 | the last alternative cannot arise in a call shorter than a second |
| Timer6.TwoReadings | lib-gd32/src/timer6.cpp:79-90 | two exact readings, any number of gaps apart, do not go backwards before the milliseconds wrap, as long as the handler keeps up in each gap |
| Timer6.MissedSecond | lib-gd32/src/timer6.cpp:79-90 | the failing input: a handler that runs right after the seconds are read, one second after power-on, makes the result 0 |
| Timer6.StaleAtOnce | lib-gd32/src/timer6.cpp:79-90 | with a second signalled, any handler that runs before the counter is read makes the reading stale |
| Timer6.RegularHandlerKeepsUp | lib-gd32/src/timer6.cpp:37-45 | a handler that runs at least every half second keeps up over any number of gaps |
| Micros.MicrosecondClock.Gd32Micros | lib-gd32/src/delayus.cpp:87-102 | one reading, with the three statics: an exact clock stays exact, and gives the elapsed microseconds modulo 2^32, if and only if the gap fits |
| Micros.ReadingExact | lib-gd32/src/delayus.cpp:92-99 | a reading keeps the clock exact if and only if the cycles since the last one and the remainder fit the word |
| Micros.NeverDrifts | lib-gd32/src/delayus.cpp:87-102 | over every run of readings less than 2^32 cycles apart the clock is exact throughout if and only if every gap fits |
| Micros.CloseReadings | lib-gd32/src/delayus.cpp:87-102 | readings at most 2^32 less one microsecond apart give the elapsed microseconds modulo 2^32 |
| Micros.BusyLoop | lib-gd32/src/delayus.cpp:62-79 | the loop ends with the first look at the counter that reaches the count |
| Micros.DelayUs | lib-gd32/src/delayus.cpp:50-80 | the delay is at least as long as asked for, from the offset or the first look, if its cycle count fits the word |
| Micros.CountBelowElapsed | lib-gd32/src/delayus.cpp:66-70 | the count never exceeds the cycles that passed, though its wrap branch is a tick short |
| Micros.CountExact | lib-gd32/src/delayus.cpp:66-70 | while the loop runs the count is the elapsed cycles less one for each wrap-around |
| Micros.EarlyOnlyOnOverflow | lib-gd32/src/delayus.cpp:51 | no way of looking at the counter ends the delay early if and only if its cycle count fits the word |
| Micros.DelayOnTime | lib-gd32/src/delayus.cpp:50-80 | a delay ends at most one gap between two looks late |
| Micros.DelayEnds | lib-gd32/src/delayus.cpp:62-79 | the loop ends after at most as many looks as ticks, and one more |
| Ptp.NanosecondsThereAndBack | lib-gd32/include/gd32_ptp.h:58-68 | nanoseconds lose at most one on the way to subseconds and back if and only if they are below two seconds |
| Ptp.SubsecondsThereAndBack | lib-gd32/include/gd32_ptp.h:58-68 | every subsecond count loses at most three |
| Ptp.LossesAttained | lib-gd32/include/gd32_ptp.h:58-68 | both bounds are attained |
| Ptp.SubsecondsMonotone | lib-gd32/include/gd32_ptp.h:58-68 | both conversions are monotone |
| Ptp.WholeUnits | lib-gd32/include/gd32_ptp.h:58-68 | both conversions give the whole units of 2^-31 seconds, or nanoseconds, in the time given, nanoseconds below two seconds |
| Ptp.NormalizeTime | lib-gd32/include/gd32_ptp.h:70-81 | the amount is preserved; less than a second of nanoseconds and no opposite signs remain |
| Ptp.NormalUnique | lib-gd32/include/gd32_ptp.h:70-81 | that normal form is unique, its negation is that of the negated amount, and it is ordered component by component |
| Ptp.SubTime | lib-gd32/include/gd32_ptp.h:83-88 | the normal form of the difference, also when the result is one of the operands |
| Ptp.SubTimeBothWays | lib-gd32/include/gd32_ptp.h:83-88 | exchanging the operands negates each component |
| PollReply.ArtNetNode.PollReplyQueueAdd | lib-artnet/src/node/artnetnodehandlepoll.cpp:290-306 | fills the first empty slot unless a slot of the same controller comes first, with the poll and the time; no other slot changes |
| PollReply.ArtNetNode.Run | lib-artnet/include/artnetnode_inline_impl.h:290-313 | one turn: past an empty slot; starting on a waiting one once its delay is over; or sending the reply of one port, and clearing the slot after the last; running implies a non-empty current slot and a port below the number of ports |
| PollRuns.Final | lib-artnet/include/artnetnode_inline_impl.h:290-313 | that invariant, with the history of replies, holds after every run of turns and arrivals |
| PollRuns.EveryPollAnsweredOnce | lib-artnet/include/artnetnode_inline_impl.h:290-313 | each accepted poll is waiting or was cleared; each cleared one got exactly one reply per port, in order, none before its delay had passed |
| PollRuns.AcceptedWhen | lib-artnet/src/node/artnetnodehandlepoll.cpp:290-306 | a poll is accepted if and only if an empty slot comes before every waiting slot of the controller and the clock does not show 0 |
| PollRuns.AddKeepsNoTwice | lib-artnet/src/node/artnetnodehandlepoll.cpp:290-306 | an arrival leaves no controller in two slots if and only if it is not accepted while its controller waits |
| PollRuns.NeverQueuedTwice | lib-artnet/src/node/artnetnodehandlepoll.cpp:290-306 | in a run no controller is ever in two slots if and only if no arrival is accepted while its controller waits |
| PollRuns.QueuedTwice | lib-artnet/src/node/artnetnodehandlepoll.cpp:290-306 | a run from power-on after which one controller is in two slots |
| PollRuns.ElapsedAtLeast | lib-artnet/include/artnetnode_inline_impl.h:294 | the unsigned difference of wrapped times never exceeds the true time passed |
| PollRuns.RunDecreases | lib-artnet/include/artnetnode_inline_impl.h:290-313 | with the delays over, every turn brings the queue closer to empty; a turn that comes too early does no harm |
| PollRuns.QueueDrains | lib-artnet/include/artnetnode_inline_impl.h:290-313 | without new polls the queue is empty after as many turns with the delays over as the measure says, whatever turns lie between them |
| PollRuns.DueWhen | lib-artnet/include/artnetnode_inline_impl.h:294 | the node sees a delay as over if and only if the true time passed, modulo 2^32, exceeds it |
| PollRuns.AllAnsweredInTime | lib-artnet/include/artnetnode_inline_impl.h:290-313 | in true times: after as many turns as the measure says at which every poll had waited its delay (and less than 2^32 ms), the queue is empty and every poll ever accepted is answered |
| DmxMerge.Data.MergeSourceA | lib-dmxnode/include/dmxnodedata.h:76-94 | source A, output and length after a packet: the length is that of the packet in both modes; source B is left alone |
| DmxMerge.Data.MergeSourceB | lib-dmxnode/include/dmxnodedata.h:96-114 | the same for source B |
| DmxMerge.Data.Clear | lib-dmxnode/include/dmxnodedata.h:116-121 | zeroes the output only |
| DmxMerge.Data.Restore | lib-dmxnode/include/dmxnodedata.h:138-143 | replaces the output only |
| DmxMerge.LastWriterDecides | lib-dmxnode/include/dmxnodedata.h:76-143 | in every run of all operations the last event that wrote a slot decides it, a maximum being that of both sources as stored at the end |
| DmxMerge.OutputIsMaximum | lib-dmxnode/include/dmxnodedata.h:76-114 | in every run of maximum merges each output slot is the maximum of the two stored slots |
| DmxMerge.InterleavingIrrelevant | lib-dmxnode/include/dmxnodedata.h:76-114 | runs with the same packets of each source, interleaved differently, end with the same output |
| DmxMerge.LengthDepends | lib-dmxnode/include/dmxnodedata.h:81-101 | the output length does depend on the interleaving, if and only if the lengths differ |
| DmxMerge.LengthOfRun | lib-dmxnode/include/dmxnodedata.h:76-143 | in every run the length is what the last event but restores said: that of the packet, 512 after a clear, 0 after a clear of the length; 0 before any |
| DmxMerge.StoredSources | lib-dmxnode/include/dmxnodedata.h:80-100 | a stored slot is what the last long enough packet of its source said |
| DmxMerge.LatestTakesPrecedence | lib-dmxnode/include/dmxnodedata.h:93-113 | after a latest-takes-precedence packet of either source a slot is the maximum if and only if the other source is not larger |
| SlotInfo.DmxSlotInfo.constructor | lib-dmxnode/include/dmxslotinfo.h:39-51 | every slot is undefined |
| SlotInfo.DmxSlotInfo.ToString | lib-dmxnode/include/dmxslotinfo.h:95-138 | for a mask that is 0 or has a bit for a slot: each slot with its bit set stands, eight characters apart and in order, as two upper-case digits of its type, a colon and four of its category, with commas between; for other masks the text of the last call; all that is written lies in the buffer of seven characters a slot if and only if the mask is 0 or has a bit for a slot, and eight times the entries fit |
| SlotInfo.DmxSlotInfo.FromString | lib-dmxnode/include/dmxslotinfo.h:69-93 | mask and slots as loading entry by entry gives them |
| SlotInfo.ParseEntry | lib-dmxnode/include/dmxslotinfo.h:147-210 | one entry, with its digit limits, separators and error exits |
| SlotInfo.ChosenByBits | lib-dmxnode/include/dmxslotinfo.h:113-133 | the slots listed are those with a bit in the mask, each at the place its bits before it give |
| SlotInfo.EntryAccepted | lib-dmxnode/include/dmxslotinfo.h:147-210 | an entry is accepted if and only if it is a type of two digits, or of fewer before a colon, any character, four digits of a category, and a comma, a blank or the end; then it is their values |
| SlotInfo.LoadsValidPrefix | lib-dmxnode/include/dmxslotinfo.h:69-93 | loading any text takes its valid entries up to the end, the first invalid one or the last slot; their bits are set, and the other slots are kept |
| SlotInfo.EntryReadBack | lib-dmxnode/include/dmxslotinfo.h:147-210 | a printed entry before a comma or the end is read back exactly |
| SlotInfo.ListingReadBack | lib-dmxnode/include/dmxslotinfo.h:69-93 | a printed listing fills as many slots as it has entries, from the first on, and leaves the others alone |
| SlotInfo.RoundTrip | lib-dmxnode/include/dmxslotinfo.h:69-138 | printing and parsing gives the mask back if and only if its ones start at slot 0 without a gap; then those slots are restored and the others unchanged |
| SlotInfo.PrintAndParse | lib-dmxnode/include/dmxslotinfo.h:69-138 | the same through the two objects |
| Ema.Filter.constructor | lib-device/include/ema.h:45 | the initial state, with its wrap-around; it stands for the initial value as constant input if the shift fits |
| Ema.Filter.Reset | lib-device/include/ema.h:54 | the same for a new value |
| Ema.Filter.Filter | lib-device/include/ema.h:56-68 | one step in 16-bit arithmetic; bounds of all inputs so far bound the output and are kept |
| Ema.StepBounds | lib-device/include/ema.h:56-61 | inputs and state in range keep output and state in range, without wrap-around |
| Ema.StepSplits | lib-device/include/ema.h:56-61 | for every state and input: of the 16-bit sum the output is the nearest weighted part, halves upwards, and the state the rest |
| Ema.RunConserves | lib-device/include/ema.h:56-61 | over every run what went in came out or is in the state, but for multiples of 2^16 |
| Ema.RunBounds | lib-device/include/ema.h:56-61 | over every run all outputs lie between the smallest and largest input |
| Ema.StartPasses | lib-device/include/ema.h:45-61 | a filter started at a value passes that value if and only if the shifted value fits 16 bits; its state is the shifted value less the value, modulo 2^16 |
| Ema.Approach | lib-device/include/ema.h:56-61 | under a constant input the error shrinks without changing sign until the output is the input; then the state rests |
| Ema.Settles | lib-device/include/ema.h:56-61 | the output is exactly the constant input after at most as many steps as the error, and stays there |

## Left out

- HeapMemory.BucketHeap.Calloc: asks that the request does not overflow in the sense of HeapModel.Overflows; beyond that the fill loop runs over all of memory. What such a call does to the heap is stated by HeapRuns.CallKeepsInv.
- HeapMemory.BucketHeap.Realloc: the same, for the copy loop.
- HeapMemory.BucketHeap.Free: takes live pointers only; double frees and foreign pointers are a client's error that the source detects at best by its magic number.
- ConfigStore.Store.UpdateArray: arrays of bytes only; members of other types are their bytes, and `Store`, the indexed forms and the flag setters are `Update` of those bytes.
- ConfigStore.FlashCode.Erase: a page is erased when the operation starts and not when the controller becomes ready; bank selection, locking, address registers and error results are not part of this model, and a device is present.
- ConfigStore.Store.Timer: of the software timers only the returned id matters (none when the pool is full); the interval set by `SoftwareTimerChange` does not.
- Printf.Printer.Vprintf: the total does not overflow an `int`; a missing or ill-typed argument reads as zero or empty; a precision argument of the smallest integer, whose negation overflows in C, is taken as 2^31.
- Printf.Printer.FormatFloat: the floating-point arithmetic itself (rounding, splitting, scaling) is left out; its results at each precision are part of the argument.
- Uuid.UuidUnparse: the format string is spelled out character by character; that it is the literal of the source is by reading.
- Calendar.Clock.GmTime: times are unbounded integers; with a 32-bit `time_t` they end in January 2038. The daylight-saving field, which the source never writes, and null pointers are left out.
- Strtok.Tokenizer.Strtok: memory is an array that ends with a terminator, and pointers are indices into it.
- Timer6.Timer6.GetElapsedMilliseconds: asks that no second was lost before, and that at most one passes uncounted in the call.
- Timer6.TwoReadings: asks that neither reading is stale, and that no gap has more than one second to count.
- Micros.DelayUs: is given a look at which the loop ends, since it would not return on a counter that stands still; DelayEnds gives one for every counter that advances by bounded steps.
- PollReply.ArtNetNode.Run: only the queue part; what `SendPollReply` puts on the network, or withholds for a disabled port or an address outside the target range, is left out, as is what else `Run` does.
- PollRuns.QueueDrains: with new polls arriving the queue need not drain: a slot filled again as soon as it is cleared keeps the index where it is.
- DmxMerge.Data.MergeSourceA: one output port; ports do not share state. Packets are at most 512 slots long, as `memcpy` into the port buffers requires.
- SlotInfo.PrintAndParse: asks for a mask that is 0 or has a bit for a slot.
- SlotInfo.DmxSlotInfo.ToString: the text is a sequence; what a write outside the buffer destroys is left out, only when it happens is stated.
- Ptp.SubTime: asks that no 32-bit sum overflows.
- Ema.Filter.Filter: shifts of 0 to 15 bits.
- GPIO, SPI, I2C, DMA, UART, Ethernet and watchdog code, board headers, displays and LEDs: register writes and wiring without an algorithm.
- Sensors, converters and logarithms: floating point or thin wrappers.
- Packet handlers of Art-Net and E1.31, RDM discovery, the poll table and the implementation of the software timers: protocol glue around tables.
- Heap debugging counters, other targets and FreeRTOS variants; `strlen`, `memchr` and the other one-loop string helpers, getters and setters: easy members only.
