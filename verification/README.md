# Verification of the codeDrawing library

A Dafny model of the parts of the library that carry real invariants, with proofs of what they promise.

* **Serial flash driver (SFUD).** `NorChip.dfy` is the chip at the other end of the SPI bus: a state machine whose
  `Execute` says what one chip-select cycle does. Programming is a bitwise AND through a page buffer whose address
  wraps inside 256 bytes; the chip is deaf while BUSY, ignores array commands without WEL, has an address mode, an AAI
  pointer and block protection, and keeps a history of the array operations it accepted and a count of those it
  refused. `SpiBus.dfy` is `spi->wr` and the bus lock: any transfer may fail at any time, and then any prefix of the
  command may have reached the chip. It counts its faults: transfers that were lost, or after which the chip stays
  busy for more polls than the driver allows. Contracts hold whatever faults occur, and also say exactly when an
  operation succeeds without any. `Flash.dfy`, `Erase.dfy`, `Write.dfy`, `Sfdp.dfy` and `Init.dfy` are the driver,
  command by command, over that bus. `ErasePlan.dfy`, `WritePlan.dfy` and `Memory.dfy` hold the specifications it is
  proved against, and `EndToEnd.dfy` ties initialisation, erase, write and read together, and `Session.dfy` runs any
  sequence of operations.
* **JSON binder.** `Json.dfy` gives the meaning of a schema (struct to tree, tree to struct) on byte images;
  `JsonBinder.dfy` is the walk itself over a byte array in place, with the `sub` level array of the macros;
  `JsonRoundTrip.dfy` and `JsonCells.dfy` hold what follows from it.
* **On-screen display.** `Overlay.dfy` composes glyph bitmaps, `Kernel.dfy` is the per-pixel kernel, alone and with
  the memory accesses of all work-items interleaved.
* **Mode setting.** `Modeset.dfy` chooses CRTCs and owns buffers, framebuffers and mappings.
* **Queue.** `Queue.dfy` is the ring buffer as a class; `QueueThreads.dfy` is the same code between threads,
  interleaved at single reads and writes of `data_`, `head_`, `tail_` and `count_` around one mutex.

What the code does not keep, each stated as a lemma or as the exact condition in a contract:

* A chip whose write mode is only byte mode gets SUCCESS from a write that does nothing, so erase-then-write stores the
  data exactly when the mode is page or AAI, or the data is all 0xFF (`Writing.EraseWrite`).
* The status write of initialisation is not waited for. On one chip id with more than 16 MB, driver and chip agree on
  the address mode exactly when that write shows no BUSY (`Initialising.DeviceInit`, `Initialising.AddressModeRace`).
  The id belongs to a 4 MB part, so it takes SFDP data or a user configuration with another capacity to get there.
* SUCCESS although nothing was erased or programmed. Reading WEL back proves that the command behind it is carried out
  exactly when a busy chip shows WEL = 0 and an idle one is outside an AAI sequence (`DriverState.EnableCheck`).
  Otherwise the command is refused or ignored and the wait succeeds. It can happen to the first operation after
  initialising the same chip id (`Initialising.FirstOperationLost`), to a retry right after SFUD_ERR_TIMEOUT
  (`DriverState.RetryLost`), and on a chip that a failed AAI write left inside its sequence (`Writing.AaiLeftBehind`).
  `Session.Recover` is how a caller gets back to an idle chip.
* A chip left inside an AAI sequence does not serve reads, and `sfud_read` reports success all the same
  (`Writing.Read`).
* The SFDP decoder accepts some tables its 32-bit fields cannot hold: density exponent 35 becomes capacity 0, erase
  exponents from 32 on become size 0 (`SfdpReader.DecodeInvertsEncode`).
* Loading a text as long as its field or longer leaves the field without a terminator, and saving it again would read
  past it (`JsonRoundTrip.LoadTerminates` has the exact condition on the tree).
* A blocking dequeue that finds the queue empty keeps the mutex and can never finish (`QueueThreads.StuckForever`,
  `QueueThreads.StuckReachable`).

What callers owe, because the code does not check it: `addr + size` does not wrap 64 bits; the capacity is a whole number
of smallest erase blocks, which row P25D05H of the chip table is not (`ChipTable.TableRows`); an AAI write at an odd
address has at least one byte; when an erase or write begins the chip is outside an AAI sequence, and does not show
WEL = 1 if it is still busy; glyph positions are not negative; strings to be saved contain their terminator.

## Model

| member | source | states |
|---|---|---|
| FlashDevice.ReadStatus | 3rdparty/sfud/src/sfud.c:976-983 | a successful poll reports the BUSY and WEL the chip had when it heard it, and moves the chip at most one poll on |
| FlashDevice.WaitBusy | 3rdparty/sfud/src/sfud.c:985-1006 | at most retry.times + 1 polls; SUCCESS exactly when the last poll read not-busy, TIMEOUT only after all of them; with no lost poll it succeeds exactly when the operation needs at most retry.times polls; success leaves the chip settled |
| FlashDevice.SetWriteEnabled | 3rdparty/sfud/src/sfud.c:897-926 | on an idle chip success means WEL is as asked and the array as before, and a successful disable ends an AAI sequence; on a busy chip success means only that WEL already was as asked and one poll went by; without faults it succeeds exactly when the chip hears it or WEL already was as asked; once both transactions of a disable arrived, WEL is off unless the chip is busy or in AAI mode |
| DriverState.EnableCheck | 3rdparty/sfud/src/sfud.c:897-926 | for every unprotected chip and every erase or program command: the check of WEL after WRITE ENABLE guarantees that the command is carried out exactly when a busy chip shows WEL = 0 and an idle one is outside an AAI sequence; otherwise the check passes, the command changes nothing, and the wait succeeds once the chip is through with what it was doing |
| DriverState.RetryLost | 3rdparty/sfud/src/sfud.c:564-602 | after an operation that outlasts its wait, the exit path and the write enable of an immediate retry by two polls, the retried command is refused and the wait sees the end of the first operation: SUCCESS for whatever was asked |
| FlashDevice.MakeAddressByteArray | 3rdparty/sfud/src/sfud.c:1008-1018 | the three or four bytes written are the address, shifted and cut byte by byte from the most significant one down; no other byte of the buffer changes |
| FlashDevice.AddressRoundTrip | 3rdparty/sfud/src/sfud.c:370-375 | the chip decodes the encoded address exactly when it is below 16 MB, or below 4 GB in 4-byte mode |
| FlashDevice.BuildCommand | 3rdparty/sfud/src/sfud.c:569-571 | opcode, address and payload are laid out in order inside the buffer, for every address length |
| ErasePlanning.SuitableFrom | 3rdparty/sfud/src/sfud_sfdp.c:374-383 | the result is the last entry from the start downwards that fits, or entry 0 when none does |
| ErasePlanning.ChooseCases | 3rdparty/sfud/src/sfud_sfdp.c:363-385 | off the smallest grid the smallest eraser is taken; on it one that is aligned and does not overshoot, except that a rest below the smallest block takes the smallest |
| ErasePlanning.ChooseLargest | 3rdparty/sfud/src/sfud_sfdp.c:371-383 | on a divisibility chain, for an aligned address and any size of at least the smallest eraser, no larger block on offer starts here and fits |
| ErasePlanning.PlanFillsSpan | 3rdparty/sfud/src/sfud.c:548-598 | replaying the commands sets exactly [floor(addr,g), ceil(addr+size,g)) to 0xFF and keeps every other byte, for every address, size and table |
| ErasePlanning.PlanUnfolds | 3rdparty/sfud/src/sfud.c:548-598 | for every address and size the commands are the block around the address, its size being that of the last used entry that is aligned here and fits (off the smallest grid, the smallest), and then those from the end of that block on |
| ErasePlanning.PlanInSpan | 3rdparty/sfud/src/sfud.c:582-597 | no command reaches outside the aligned span |
| ErasePlanning.PlanPrefixBetween | 3rdparty/sfud/src/sfud.c:548-598 | stopping after any number of commands leaves each byte old or erased, and old outside the span |
| ErasePlanning.PlanCovers | 3rdparty/sfud/src/sfud.c:548-598 | for an aligned range the commands are aligned available blocks inside the range that cover it |
| ErasePlanning.PlanIsMinimal | 3rdparty/sfud/src/sfud_sfdp.c:371-383 | for an aligned range on a divisibility chain no such cover has fewer blocks |
| ErasePlanning.NearBlocksInside | 3rdparty/sfud/src/sfud_sfdp.c:371-383 | in any cover a block that starts inside the greedy first block ends inside it |
| Erasing.GetSuitableEraser | 3rdparty/sfud/src/sfud_sfdp.c:363-385 | off the smallest grid entry 0; on it, for any size, the last used entry that is aligned here and not larger than the size, and entry 0 when there is none |
| Erasing.CurrentEraser | 3rdparty/sfud/src/sfud.c:549-563 | the SFDP choice when there is a table, else the erase granularity |
| Erasing.SendErase | 3rdparty/sfud/src/sfud.c:570-577 | the chip either accepts the erase of the aligned block that contains addr, or is untouched and an error is reported |
| Erasing.EraseOne | 3rdparty/sfud/src/sfud.c:564-581 | success means the block was accepted on a ready chip and has finished; otherwise it was accepted or not, nothing else; without faults it succeeds exactly on an idle chip |
| Erasing.EraseBlocks | 3rdparty/sfud/src/sfud.c:547-599 | the accepted commands are always a first part of the plan, and the whole plan on success; without faults it succeeds exactly on an idle chip or with nothing to do |
| Erasing.EraseAll | 3rdparty/sfud/src/sfud.c:477-497 | success means the chip erase was accepted and has finished, for plain and dual-buffer parts; without faults it succeeds exactly on an idle chip |
| Erasing.ChipErase | 3rdparty/sfud/src/sfud.c:464-508 | success leaves every byte 0xFF through one accepted command; the lock depth is restored on every exit; without faults it succeeds exactly on an idle chip; all transactions are made with the bus locked, and when those of the exit path arrive they leave the chip write-disabled |
| Erasing.EraseOpsMeaning | 3rdparty/sfud/src/sfud.c:538-540 | the chip-erase shortcut and the block loop have the same effect |
| Erasing.ErasedArrayIs | 3rdparty/sfud/src/sfud.c:521-609 | byte by byte: 0xFF from addr / g * g up to (addr + size + g - 1) / g * g, with g the smallest eraser, and the old byte elsewhere |
| Erasing.EraseRange | 3rdparty/sfud/src/sfud.c:521-609 | success erases exactly the aligned span and leaves the chip idle; whatever fails, only a first part of the plan took effect, no command was refused, bytes are old or erased, the lock depth is restored; out of bounds does nothing; without faults it succeeds exactly in bounds, and on an idle chip unless there is nothing to do; by one chip erase exactly when the range is the whole chip; all transactions are made with the bus locked, and when those of the exit path arrive they leave the chip write-disabled |
| WritePlanning.ChunkLength | 3rdparty/sfud/src/sfud.c:657-669 | a chunk is never empty, never crosses its page, and is either the rest of the data or ends the page |
| WritePlanning.PagePlanTiles | 3rdparty/sfud/src/sfud.c:646-684 | the commands are consecutive, non-empty, concatenate to the data, and none leaves its page |
| WritePlanning.PagePlanCount | 3rdparty/sfud/src/sfud.c:646-684 | there are (addr+size-1)/gran - addr/gran + 1 of them |
| WritePlanning.AaiPlanTiles | 3rdparty/sfud/src/sfud.c:728-774 | for all parities head byte, words and tail byte program each byte of the data once, in order |
| WritePlanning.WordPlanIs | 3rdparty/sfud/src/sfud.c:742-774 | command i from an even address programs the word at offset 2i, the last byte of an odd length on its own; there are (size + 1) / 2 of them |
| WritePlanning.AaiPlanIs | 3rdparty/sfud/src/sfud.c:728-774 | at an odd address one command with the first byte comes before those of the words |
| WritePlanning.ProgrammedMore | 3rdparty/sfud/src/sfud.c:646-684 | on a chip that wraps inside the page, a chunk within its page extends the linear program |
| Memory.ProgramAfterErase | 3rdparty/sfud/src/sfud.c:823-833 | erase then linear program leaves the data in its range and 0xFF in the rest of the span |
| Memory.ProgramOnlyClears | 3rdparty/sfud/src/sfud.c:686-695 | a write, finished or interrupted anywhere, never turns a 0 bit into 1 |
| Writing.SendProgram | 3rdparty/sfud/src/sfud.c:652-680 | the chip programs exactly the chunk bytes that arrived; the 261-byte command buffer never overflows |
| Writing.WriteOne | 3rdparty/sfud/src/sfud.c:647-683 | success means the chunk was accepted on a ready chip and has finished; without faults it succeeds exactly on an idle chip |
| Writing.WritePages | 3rdparty/sfud/src/sfud.c:646-684 | what is programmed is always a first part of the data at its own addresses; on success all of it, by the planned commands; without faults it succeeds exactly on an idle chip or with nothing to do |
| Writing.Page256Or1ByteWrite | 3rdparty/sfud/src/sfud.c:622-695 | success is the linear program of the data, chip idle, WEL off; failure is the linear program of a first part; no command refused, lock depth restored, out of bounds does nothing; without faults it succeeds exactly in bounds, and on an idle chip unless there is nothing to do; all transactions are made with the bus locked, and when those of the exit path arrive they leave the chip write-disabled |
| Writing.SendWord | 3rdparty/sfud/src/sfud.c:746-762 | the first word goes to its even address, a later one to the chip's own pointer, which is where the driver means it to go |
| Writing.AaiLeftBehind | 3rdparty/sfud/src/sfud.c:755-780 | while a word is being programmed the write disable of the exit path is not heard, so the chip stays in the AAI sequence for any number of polls, and serves no reads when it is done |
| Writing.WriteWords | 3rdparty/sfud/src/sfud.c:741-769 | all complete words, in order, one command each; on success the chip is still in the sequence, not busy; without faults it succeeds |
| Writing.LeaveAai | 3rdparty/sfud/src/sfud.c:770-775 | the exit from AAI mode and the odd tail byte behind it; without faults it succeeds |
| Writing.WordsAndTail | 3rdparty/sfud/src/sfud.c:741-775 | words, exit from AAI mode, odd tail byte: the rest of the data on success, a first part otherwise; without faults it succeeds exactly on an idle chip |
| Writing.AaiSteps | 3rdparty/sfud/src/sfud.c:728-775 | with the odd head byte in front: all of the data for all four parities; without faults it succeeds exactly on an idle chip |
| Writing.AaiWrite | 3rdparty/sfud/src/sfud.c:710-787 | success is the linear program of the data with the chip idle and out of AAI mode; failure programs a first part; the lock, taken twice on odd pieces, is back at its depth; without faults it succeeds exactly in bounds, on an idle chip; an empty write also ends an AAI sequence the chip may be in; all transactions are made with the bus locked, and when those of the exit path arrive they leave the chip write-disabled |
| Writing.Write | 3rdparty/sfud/src/sfud.c:799-812 | page and AAI modes give the linear program; any other mode reports success and leaves the chip alone; every outcome leaves bytes old or programmed; without faults it succeeds exactly in bounds, and on an idle chip unless there is nothing to do in page mode; bit 0 of the mode gives page commands, else bit 2 gives words |
| Writing.Read | 3rdparty/sfud/src/sfud.c:405-455 | success returns the array contents of the range, or nothing but 0xFF from a chip still inside an AAI sequence; the array never changes; the lock depth is restored; without faults it succeeds exactly in bounds and when the operation in progress ends within the allowed polls; all transactions are made with the bus locked |
| Writing.EraseWrite | 3rdparty/sfud/src/sfud.c:823-833 | success: data in the range, 0xFF in the rest of the touched blocks, all else unchanged; the range holds the data exactly when the mode is page or AAI or the data is all 0xFF; failure changes nothing outside the touched blocks; without faults it succeeds exactly in bounds on an idle chip; all transactions are made with the bus locked, and when those of the exit path arrive they leave the chip write-disabled |
| Writing.StoreAndLoad | 3rdparty/sfud/src/sfud.c:405-833 | erase, write and read of any non-empty data give the data back when each reports success; without faults it succeeds exactly in bounds on an idle chip |
| SfdpReader.DecodeInvertsEncode | 3rdparty/sfud/src/sfud_sfdp.c:210-315 | every table laid out as section 6.4 of JESD216B says, whatever its unused bits, decodes to its own capacity, write granularity, address modes and (2^n, opcode) erase types if and only if its density exponent is at most 34 and its erase exponents are below 32; it is refused exactly from density exponent 36 on |
| SfdpReader.DecodeRefuses | 3rdparty/sfud/src/sfud_sfdp.c:210-304 | a table is refused exactly for a reserved 4 KB erase code, a reserved address mode or a density exponent above 35, in bits |
| SfdpReader.DecodeCapacityIs | 3rdparty/sfud/src/sfud_sfdp.c:290-304 | the capacity for every density, standard or not |
| SfdpReader.SfdpInvertsEncode | 3rdparty/sfud/src/sfud_sfdp.c:80-352 | the same for the whole address space: signature, revision, basic header and 24-bit pointer, wherever the table lies |
| SfdpReader.SfdpAccepted | 3rdparty/sfud/src/sfud_sfdp.c:80-178 | accepted exactly with the signature, major revisions of at most 1, at least nine DWORDs and a table at the 24-bit pointer that decodes |
| SfdpReader.DensityRoundTrip | 3rdparty/sfud/src/sfud_sfdp.c:290-304 | a density gives back the capacity exactly when it is in bytes or its exponent is at most 34 |
| SfdpReader.KindsRoundTrip | 3rdparty/sfud/src/sfud_sfdp.c:307-315 | unused erase types are skipped, and the used ones keep size, opcode and order exactly when all exponents are below 32 |
| SfdpReader.LargestExponentTruncates | 3rdparty/sfud/src/sfud_sfdp.c:297-302 | exponent 35 passes the check and yields capacity 0 |
| SfdpReader.ShiftedSmall | 3rdparty/sfud/src/sfud_sfdp.c:309-309 | sizes below 2^32 are stored as they are, larger ones as 0 |
| SfdpReader.SortErasers | 3rdparty/sfud/src/sfud_sfdp.c:316-331 | the used entries ascend, unused ones keep their place, and the multiset of (size, opcode) pairs is unchanged, for tables of any length and content |
| SfdpReader.SelectSmallest | 3rdparty/sfud/src/sfud_sfdp.c:319-329 | one pass of the inner loop puts the least remaining used entry at its place and keeps the pairs |
| SfdpReader.ReadSfdpData | 3rdparty/sfud/src/sfud_sfdp.c:337-352 | success, which means no fault, returns the parameter bytes from the 24-bit address; the chip never changes |
| SfdpReader.ReadSfdpHeader | 3rdparty/sfud/src/sfud_sfdp.c:100-135 | true exactly when the transfer arrived with the right signature and a supported revision; the table is unavailable meanwhile |
| SfdpReader.ReadBasicHeader | 3rdparty/sfud/src/sfud_sfdp.c:144-178 | true exactly when the transfer arrived with a supported revision and at least nine DWORDs; the table pointer always fits the next read |
| SfdpReader.ReadBasicTable | 3rdparty/sfud/src/sfud_sfdp.c:187-335 | true exactly when the transfer arrived and the table decodes, and then the driver holds the decoded parameters with sorted erasers; failure leaves the erasers alone |
| SfdpReader.CollectErasers | 3rdparty/sfud/src/sfud_sfdp.c:306-315 | into a zeroed table: the used types packed to the front |
| SfdpReader.ReadSfdp | 3rdparty/sfud/src/sfud_sfdp.c:80-91 | true exactly when no transfer was lost and headers and table are acceptable, and then the driver holds what the chip says |
| ChipTable.TableRows | 3rdparty/sfud/inc/sfud_flash_def.h:126-158 | every row is complete, and its capacity is a whole number of erase blocks exactly unless it is P25D05H |
| Initialising.ReadJedecId | 3rdparty/sfud/src/sfud.c:867-887 | success stores the chip's three id bytes; the chip does not change |
| Initialising.Reset | 3rdparty/sfud/src/sfud.c:835-865 | success leaves the chip idle, write-disabled and in 3-byte mode, whatever the outcome of the first wait; without faults it succeeds |
| Initialising.WriteStatus | 3rdparty/sfud/src/sfud.c:1029-1054 | success sets the protection bits asked for, and may leave the chip busy; without faults it succeeds |
| Initialising.Set4ByteAddressMode | 3rdparty/sfud/src/sfud.c:938-966 | success records the mode; the chip is in it, idle and with WEL still set, if it was idle or showed WEL = 0 before, and otherwise stays in its mode; without faults it fails exactly on a busy chip that shows WEL = 0 |
| Initialising.Configure | 3rdparty/sfud/src/sfud.c:351-376 | success: no parameter is missing, 4-byte addressing exactly above 16 MB, protection is off where the driver turns it off, driver and chip agree on the address mode exactly unless the id is MX25L3206E above 16 MB outside AAI mode and its status write takes any time, and the chip is attentive exactly unless that id is still writing; without faults it fails exactly when a parameter is missing or an AAI part above 16 MB is still writing its status; protection goes off for mode bit 2 and for id C2 20 16 |
| Initialising.AddressModeRace | 3rdparty/sfud/src/sfud.c:938-966 | the driver's own command sequence with a status write of any duration above none reads WEL = 1 and leaves the chip in 3-byte mode |
| Initialising.FirstOperationLost | 3rdparty/sfud/src/sfud.c:1029-1054 | after the unwaited status write the next write enable seems to work, the erase or program command behind it is refused, and the polls of the wait see the status write end, so SUCCESS is reported with the array as it was: for every such command and every duration above one poll |
| Initialising.LookUp | 3rdparty/sfud/src/sfud.c:307-318 | the four parameters are those of the first row in which manufacturer, type and capacity id are all equal to the device's; without such a row none changes |
| Initialising.FirstMatchIs | 3rdparty/sfud/src/sfud.c:307-318 | the specified row is that one, and there is none exactly when no row has all three ids |
| Initialising.AdoptSfdp | 3rdparty/sfud/src/sfud.c:285-301 | the granularity is the first entry of least non-zero size with its own opcode, for any table |
| Initialising.LeastOfSorted | 3rdparty/sfud/src/sfud.c:293-301 | in a sorted table that is entry 0 |
| Initialising.FindParameters | 3rdparty/sfud/src/sfud.c:284-330 | success leaves parameters taken whole from SFDP or whole from the table row of the id, or still incomplete ones; without faults they come from SFDP exactly when that is acceptable, else from the row if there is one |
| Initialising.PowersChain | 3rdparty/sfud/src/sfud_sfdp.c:309-309 | ascending decoded sizes divide one another |
| Initialising.SfdpTableGood | 3rdparty/sfud/src/sfud.c:293-301 | after a successful SFDP initialisation, whatever the chip says of itself, entry 0 is non-zero and least with its own opcode, every modulus of eraser selection and erase loop is defined, and the table is a divisibility chain |
| Initialising.SfdpTableTrue | 3rdparty/sfud/src/sfud.c:293-301 | with truthful data every entry is an erase command of the chip |
| Initialising.FoundTableGood | 3rdparty/sfud/src/sfud.c:284-330 | erasing is well defined however the parameters were found |
| Initialising.ParametersTrue | 3rdparty/sfud/src/sfud.c:284-330 | parameters from a truthful chip or a correct configuration describe the chip |
| Initialising.DeviceInit | 3rdparty/sfud/src/sfud.c:88-105 | whatever transfers fail: if initialisation reports success, the erase table is well defined on any chip and its least entry is the granularity; address mode and attentiveness are right exactly unless the status-write race is lost; on a truthful chip everything the later operations rely on is true exactly when that race is not lost and the chip is unprotected, by itself or by initialisation; without faults it fails exactly when the port does, a parameter is missing, or an AAI part above 16 MB is still writing its status; a complete configuration is kept and the chip not asked |
| EndToEnd.InitStoreLoad | 3rdparty/sfud/src/sfud.c:88-833 | from power-up: initialise, wait, store and load give the data back when each step reports success, on page and AAI parts, protected ones included if initialisation unprotects them, except in the status-write race; without faults it succeeds exactly in bounds |
| Session.Perform | 3rdparty/sfud/src/sfud.c:405-833 | each public operation does what it means to the array or, failing, stays within it; only an in-bounds call that failed over a faulty bus may leave the chip inattentive |
| Session.Recover | 3rdparty/sfud/src/sfud.c:405-812 | an empty read, and on a word-programmed chip an empty write, leave the chip idle when they report success, from whatever state a failure left it in, and change nothing; without faults they succeed exactly when the operation in progress ends within the allowed polls |
| Session.RunSession | 3rdparty/sfud/src/sfud.c:405-833 | for every sequence of operations of a client that recovers after each failed in-bounds call, on page and on AAI parts, over a bus that may fail: no erase or program command is ever refused and the run is, call by call, a run of the array alone; without faults exactly the in-bounds calls succeed |
| JsonSchema.IntRoundTrip | 3rdparty/cxz_json/include/sjb_struct_api.h:27-67 | an int, short or char of either sign survives the int of the node bit for bit |
| JsonSchema.SignedValueIs | 3rdparty/cxz_json/include/sjb_struct_api.h:27-67 | the number of a char, short or int field is its little-endian two's complement value |
| JsonSchema.TruncatedIs | 3rdparty/cxz_json/include/sjb_struct_api.h:32-32 | a number that does not fit its field is stored modulo 2 to the number of its bits |
| JsonSchema.StringRoundTrip | 3rdparty/cxz_json/include/sjb_struct_api.h:120-132 | a terminated string survives strdup and strncpy |
| JsonSchema.HexRoundTrip | 3rdparty/cxz_json/include/sjb_struct_api.h:99-117 | a uint64 survives printing and parsing in hexadecimal |
| JsonSchema.HexPrintIs | 3rdparty/cxz_json/include/sjb_struct_api.h:113-113 | lower-case digits, most significant first, none superfluous |
| JsonSchema.HexValueIs | 3rdparty/cxz_json/include/sjb_struct_api.h:105-105 | the digits strtoull knows, in both cases |
| JsonSchema.HexSaturates | 3rdparty/cxz_json/include/sjb_struct_api.h:105-105 | a number of more than 64 bits is read as the largest one |
| JsonSchema.SameNameIs | 3rdparty/cxz_json/include/cJSON.h:78-79 | two names match exactly when they are of equal length and equal in every place up to the case of ASCII letters |
| JsonRoundTrip.RoundTrip | 3rdparty/cxz_json/include/sjb_struct_api.h:199-301 | for every schema with case-insensitively distinct names, struct to tree and back into any old contents restores every field |
| JsonRoundTrip.SameGivesSameJson | 3rdparty/cxz_json/include/sjb_struct_api.h:199-301 | images with the same fields give the same tree, so saving again after loading changes nothing |
| JsonRoundTrip.FieldBound | 3rdparty/cxz_json/include/sjb_struct_api.h:264-272 | each field is bound from its own member to its own bytes, independently of the others |
| JsonRoundTrip.BoundFromFirst | 3rdparty/cxz_json/include/sjb_struct_api.h:264-272 | a field is bound from the first member whose name matches its own up to case |
| JsonRoundTrip.AbsentKeyKeeps | 3rdparty/cxz_json/include/sjb_struct_api.h:264-301 | a key the lookup does not find leaves its field as it was |
| JsonRoundTrip.KeptWithoutMember | 3rdparty/cxz_json/include/sjb_struct_api.h:264-301 | so a field keeps its bytes when no member's name matches its own up to case |
| JsonRoundTrip.WrongKindKeeps | 3rdparty/cxz_json/include/sjb_struct_api.h:27-132 | a member of the wrong kind leaves a number, string, uint64 or array as it was |
| JsonRoundTrip.PaddingKept | 3rdparty/cxz_json/include/sjb_struct_api.h:264-301 | bytes that belong to no field are never written |
| JsonRoundTrip.LoadTerminates | 3rdparty/cxz_json/include/sjb_struct_api.h:120-132 | after loading any tree into any schema every string field has its terminator if and only if no text of the tree is as long as its field and the other strings had theirs |
| JsonRoundTrip.SavesAgain | 3rdparty/cxz_json/include/sjb_struct_api.h:199-301 | what is loaded from a saved struct can be saved again and gives the same tree |
| JsonRoundTrip.CollidingNames | 3rdparty/cxz_json/include/cJSON.h:78-79 | of two names equal up to case the later field is bound from the earlier one's member; for two fields of any one type that is right exactly when they held the same |
| JsonCells.CellToJson | 3rdparty/cxz_json/include/sjb_struct_api.h:235-260 | the tree's cell (j1,...,jk) is the element at its offset |
| JsonCells.CellFromJson | 3rdparty/cxz_json/include/sjb_struct_api.h:208-234 | the same bytes are written from the same cell, or kept where the tree has none |
| JsonCells.OffsetRowMajor | 3rdparty/cxz_json/include/sjb_struct_api.h:186-194 | the offset the walk adds up is the row-major number times the element size |
| JsonCells.RowMajorOfThree | 3rdparty/cxz_json/include/sjb_struct_api.h:317-321 | for three dimensions that number is (j1*d2+j2)*d3+j3 |
| JsonCells.RowMajorInjective | 3rdparty/cxz_json/include/sjb_struct_api.h:186-261 | no two cells share a number |
| JsonCells.RowMajorOnto | 3rdparty/cxz_json/include/sjb_struct_api.h:186-261 | every number below the product of the dimensions is some cell's |
| JsonCells.CellInside | 3rdparty/cxz_json/include/sjb_struct_api.h:186-261 | every cell lies inside its array |
| JsonBinder.ArrSkip | 3rdparty/cxz_json/include/sjb_struct_api.h:186-194 | the product of the element size and the remaining dimensions, without the string length for string arrays |
| JsonBinder.BindLeaf | 3rdparty/cxz_json/include/sjb_struct_api.h:27-132 | the scalar, string and uint64 binders mean what the schema says, in both directions, and touch only their own bytes |
| JsonBinder.BindStruct | 3rdparty/cxz_json/include/sjb_struct_api.h:264-272 | the macros of a struct body, one after the other, mean the schema's struct in both directions |
| JsonBinder.BindField | 3rdparty/cxz_json/include/sjb_struct_api.h:291-321 | a field macro, with the array size clipped to what the tree has, means the schema's field |
| JsonBinder.BindArray | 3rdparty/cxz_json/include/sjb_struct_api.h:199-261 | the walk with its level array and flat offsets binds exactly the first `size` elements of the nested array type, for string and other leaves |
| JsonBinder.BindNested | 3rdparty/cxz_json/include/sjb_struct_api.h:226-231 | recursion with a copied level array and a skipped pointer binds the whole inner array |
| JsonBinder.SkipIsSize | 3rdparty/cxz_json/include/sjb_struct_api.h:186-194 | the skip of a level is the size of the array type below it |
| JsonBinder.LevelEntered | 3rdparty/cxz_json/include/sjb_struct_api.h:203-226 | after entering a level the two leaf tests hold exactly when the element is not an array |
| JsonBinder.MissingItems | 3rdparty/cxz_json/include/sjb_struct_api.h:293-296 | stopping at the last item of a short list is the same as binding the whole array |
| JsonBinder.SaveAndLoad | cdrawTools/json/CdrawJSON.h:40-75 | saving a struct leaves it unchanged, and loading the tree into another restores every field |
| Overlay.CopyBitmapToImage | cdrawTools/OSD/COSD_OpenCL.cpp:235-255 | byte by byte: the image takes the bitmap's byte for its row and column where the bitmap, clipped at the right and bottom edges, lies, and keeps its own elsewhere |
| Overlay.ComposeOverlay | cdrawTools/OSD/COSD_OpenCL.cpp:155-178 | afterwards every overlay pixel shows its top value |
| Overlay.TopValueIsHighest | cdrawTools/OSD/COSD_OpenCL.cpp:161-178 | the top value is that of the highest-numbered used slot covering the pixel, and 0 where there is none |
| Overlay.OverlayByte | cdrawTools/OSD/COSD_OpenCL.cpp:161-178 | byte k of the overlay is the byte of the highest-numbered used slot whose bitmap lies over row k / width and column k % width, and 0 without one |
| RenderKernel.RenderText | text_render.cl:1-30 | one work-item changes the four bytes from 4 * (y * width + x): red and blue change places where the overlay is 0, else all become its value; no other byte changes |
| RenderKernel.AnyScheduleRenders | text_render.cl:1-30 | every complete interleaving of single byte reads and writes renders every pixel so |
| RenderKernel.SchedulesAgree | text_render.cl:1-30 | all complete interleavings give one and the same image |
| RenderKernel.EnoughTurns | text_render.cl:1-30 | nine turns each, in any order, complete every work-item |
| RenderKernel.FrameRendered | cdrawTools/OSD/COSD_OpenCL.cpp:155-219 | overlay and kernel together: grey of the top slot where it is non-zero, swapped channels elsewhere |
| Modeset.FindCrtc | test-drm-full.cc:364-439 | the CRTC taken is the connector's own one if no device has it, else the first untaken one the first encoder offering any can drive, encoders and CRTCs in order; -ENOENT exactly means there is none |
| Modeset.CreateFb | test-drm-full.cc:466-532 | one buffer, one framebuffer and one mapping exactly when none of the calls fails; otherwise none of them, with the failed call's error and no call after it |
| Modeset.SetupDev | test-drm-full.cc:297-340 | success exactly when the connector is connected, has a mode and finds a free compatible CRTC and no call fails: a device with its own resources for the first mode, on the CRTC of the precedence stated for the search; failure leaves the resources as they were, with -ENOENT for no monitor or no free CRTC, -EFAULT for no mode, and else the error of the one call that failed |
| Modeset.Setup.Prepare | test-drm-full.cc:213-266 | over all connectors, in order: a device only for connectors that can be set up behind the devices before them, and exactly as many of those go without one as calls failed, so a failure costs its own connector its device and no other; no two listed devices share anything, each new one is on the CRTC the search takes behind the devices before it, live resources are exactly those of the list |
| Modeset.Setup.Cleanup | test-drm-full.cc:806-841 | the list is empty and nothing is live |
| Modeset.HeadAndTail | test-drm-full.cc:257-260 | what a list owns is what its first device owns and what the rest owns |
| RingQueue.CdrawQueue.Enqueue | cdrawStruct/queue/CdrawQueue.h:53-63 | refused exactly when full, else the item is behind all others |
| RingQueue.CdrawQueue.TakeHead | cdrawStruct/queue/CdrawQueue.h:91-94 | the oldest item leaves, the others keep their order |
| RingQueue.CdrawQueue.DequeueNotBlock | cdrawStruct/queue/CdrawQueue.h:69-79 | the oldest item, or the default when there is none |
| RingQueue.CdrawQueue.DequeueAll | cdrawStruct/queue/CdrawQueue.h:101-115 | the whole content, first in first out, and an empty queue |
| RingQueue.CdrawQueue.Clear | cdrawStruct/queue/CdrawQueue.h:145-150 | an empty queue with a fresh history |
| RingQueue.RingGrows | cdrawStruct/queue/CdrawQueue.h:59-61 | writing at the tail extends the ring and disturbs nothing in it, around the wrap too |
| RingQueue.RingShrinks | cdrawStruct/queue/CdrawQueue.h:75-77 | moving the head drops the first item and keeps tail = (head + count) mod capacity |
| QueueThreads.RunGood | cdrawStruct/queue/CdrawQueue.h:53-150 | in every interleaving of single accesses: only the holder of the mutex is inside, whoever is about to release it has done exactly what its operation does alone and holds its result, and whenever the mutex is free tail = (head + count) mod capacity and what was accepted since the last clear is what was removed followed by the ring from head |
| QueueThreads.EveryRun | cdrawStruct/queue/CdrawQueue.h:24-150 | all of that for any number of threads on a new queue of any capacity, in any schedule of any calls |
| QueueThreads.AccessHolds | cdrawStruct/queue/CdrawQueue.h:53-150 | every single read or write takes the holder from one intermediate state of its operation to the next |
| QueueThreads.OthersBlocked | cdrawStruct/queue/CdrawQueue.h:54-54 | no other thread reads or writes a field in between |
| QueueThreads.StuckReachable | cdrawStruct/queue/CdrawQueue.h:86-90 | one thread on a new queue gets stuck in two turns |
| QueueThreads.OthersComplete | cdrawStruct/queue/CdrawQueue.h:53-150 | every other operation that holds the mutex comes back, given its turns |
| QueueThreads.StuckForever | cdrawStruct/queue/CdrawQueue.h:86-90 | a blocking dequeue that holds the mutex over an empty queue never finishes in any run and the fields never change again |
| QueueThreads.BlockingCompletes | cdrawStruct/queue/CdrawQueue.h:85-95 | over any run that gives it its turns it comes back if and only if the queue is not empty when it takes the mutex |

## Left out

* SPI and port plumbing (`spi.c`, `sfud_port.c`): `spi->wr` is one abstract transaction; the port's own initialisation result is a parameter.
* The chip's internal timing: an operation shows BUSY to an arbitrary number of polls, and the status polls between the two reset commands do not cancel the reset.
* QSPI, fast read, AT45DB dual-buffer writes, the read-only SFDP fields no code uses (volatile status register flags), names and log output.
* C leaves density exponents below 3 and erase exponents above 63 undefined; the model reads them as shift 0 and size 0.
* Re-initialising over an SFDP table that is already filled: the model starts from zeroed erasers, as static storage does. The device loop of `sfud_init` is one call of `DeviceInit` per device.
* Data buffers of writes and reads are sequence values and not pointers, so aliasing with the driver's own buffers is not captured; the command buffers are arrays.
* cJSON nodes are values that the walk returns, not linked nodes it mutates; the struct image and the level array are mutated in place. The C compiler's layout is a parameter of the schema.
* JSON text parsing and printing, files, floating-point fields, `sjb_bind_binary`, unions, and one-dimensional arrays of `string`, which overlap themselves.
* `ARRAY2` and `ARRAY3` of a struct whose type name contains `string`: the macros would take it for a string array. The model tells string arrays by their type; no schema of the repository has such a name.
* JsonSchema.HexParse: leading blanks, a sign and an `0x` prefix of `strtoull` are not modelled, because the binder never prints them.
* `draw_cross`, `draw_box`, `draw_yaw_rule`, FreeType and OpenCL set-up.
* Saving and restoring the CRTC configuration, the DRM calls themselves beyond create and destroy, and the drawing loop of the mode-setting program.
* `isEmpty` and `isFull` called from outside without the mutex: they only read `count_`.
* The item a dequeue returns on an empty queue is the literal 0 of the source; it is a parameter here.
* PCIe, UART, UDP, time, logging, checksums and the progress bar.
