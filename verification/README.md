# Proofs for a K210 firmware repository

The firmware runs on a two-core RISC-V chip without an operating system. This project models the parts of it
that hold state across calls, interrupts and cores, or whose arithmetic has to come out exactly, and proves what
those parts are for.

* **Byte pipe** (`Pipe`, `PipeInterleaving`): the lock-free ring buffer between the UART interrupt and the main
  program. `Pipe` holds the class and its methods; `PipeInterleaving` splits the same methods into single loads,
  byte copies and stores and lets producer and consumer interleave them freely.
* **Framers** (`Streams`, `PrefixParsers`, `LineParser`, `Terminal`, `FrameHeader`, `BinParser`): two incremental
  parsers that cut messages out of one compacting buffer, the prefix rules of the first, the senders for both.
  A stream has a meaning of its own, given byte by byte; the classes are proved to compute it for every way of
  cutting the stream into chunks.
* **Memory** (`IoMemory`): the iomem allocator with its table of block tags, together with `sys_brk`, whose line
  grows towards the allocator's.
* **Locks** (`RecursiveLock`, `CoreLock`, `Semaphore`): multi-core step machines over atomic swaps. A run is any
  schedule of single steps of any number of cores.
* **Clocks** (`Pll`): the search for PLL dividers, over exact reals, and the registers it writes.
* **Buffer algorithms** (`KpuUpload`, `Sha256`, `Flash`, `NumberFormat`): image upload, hash padding, page
  splitting and number formatting.

Conventions. A class in the source is a class here, and a loop that updates variables is a loop. C integers are
unbounded here unless a wrap or a cut is written out: the 32-bit sums of the binary framer, `total_len` and
`sha_data_cnt`, the negation of the least number in the formatter, the tags of the block table. The multi-core
modules are machines over values, since several cores share one state; their steps are the source's single memory
accesses, except where the comment at a step says why several accesses are one.

Where code and documentation disagree, the code is followed:

* `write_bin` documents its header as `0x00, 0x01, size_hi, size_lo`, as does the comment at
  drivers/TBPipe/TBParse.h:90; both ends send and read the low byte first.
* drivers/TBPipe/TBinParse.h:15 promises a failure for a command larger than the buffer. The check adds 8 in 32
  bits, so it keeps the promise exactly for sizes below 2^32 - 8 (`BinParser.TooBigExactly`, `BinParser.OversizedHeader`).
  With a larger size the parser hands out a message that reaches outside the buffer, and its position moves back; with
  2^32 - 8 it does so for ever (`BinParser.NearTopNeverEnds`).
* Nothing limits the length in a +IPD prefix, and `atoi` may give a negative one. Minus a number up to the buffer's size
  can make the sum in `TBParse::NextMessage` wrap, with the same effect; nothing else can
  (`LineParser.EspOverlongExactly`, `LineParser.MinusElevenNeverEnds`).
* drivers/TBPipe/TBinParse.h:18 says that `Clear` removes the data; it does not remove a failure
  (`BinParser.TBinParse.Clear`).
* drivers/TBPipe/TBParseStruct.h:6 promises binary data at a multiple of 4. A packet that was pending after a drain lies
  at offset 0. Any other lies just after its prefix, so the promise is kept exactly when the bytes before it in the buffer
  are a multiple of 4 (`LineParser.TBParse.NextMessage`); at `Terminal.UnalignedPacket` it lies at offset 6.
* A text sent with `write_text` arrives as one line only if it holds no line end and no `0x00 0x01`
  (`Terminal.ExactlyPlainTextsArrive`, both directions). Empty texts and empty packets never arrive.
* `ReadStart` can hand out an empty slice of a non-empty pipe: when `read_pos` rests on the alias of 0 that
  `ReadExact` leaves (`PipeInterleaving.ReadStartSeesQueue`).
* The wait loop of `reculock_lock` reads the counter of slot 0 instead of its own lock's. A core that waits gets a free
  lock exactly when that of slot 0 is not held; if it holds that one itself, it waits for ever
  (`RecursiveLock.WaitsOnSlotZero`, `RecursiveLock.FreeLockNeverTaken`).
* The block count for the SHA hardware is right only below 65536 blocks (`Sha256.CountIsRight`).

## Model

| member | source | states |
|---|---|---|
| Pipe.CountersMeasureContents | drivers/TBPipe/TBPipe.cpp:36-47 | free and available bytes are the room left beside, and the number of, the stored bytes, at the position that is an alias of 0 too |
| Pipe.TargetIsAround | drivers/TBPipe/TBPipe.cpp:71-91 | the memcpy targets of Write, which the class and the interleaved machine share, are the slots after write_pos around the end |
| Pipe.TBPipe.Write | drivers/TBPipe/TBPipe.cpp:49-99 | appends a prefix of the argument to the stored bytes, as long as the free space cut to a multiple of 8 allows |
| Pipe.TBPipe.ReadStart | drivers/TBPipe/TBPipe.cpp:101-135 | hands out a prefix of the stored bytes and stores where ReadEnd will go; the contents stay |
| Pipe.TBPipe.ReadEnd | drivers/TBPipe/TBPipe.cpp:137-144 | drops exactly the bytes handed out |
| Pipe.TBPipe.ReadExact | drivers/TBPipe/TBPipe.cpp:146-202 | takes exactly count bytes from the front, in order, or fails and changes nothing |
| PipeInterleaving.StepKeepsInv | drivers/TBPipe/TBPipe.cpp:49-202 | every load, byte copy and store of either side keeps the invariant, the alias of 0 and stale positions included |
| PipeInterleaving.NothingLostOrReordered | drivers/TBPipe/TBPipe.cpp:49-202 | in every interleaving, bytes consumed followed by bytes stored are the bytes accepted, in order |
| PipeInterleaving.NoSideGetsStuck | drivers/TBPipe/TBPipe.cpp:49-202 | no side ever stands before a copy or a store that would leave the buffer |
| PipeInterleaving.SliceIsStable | drivers/TBPipe/TBPipe.cpp:101-144 | whatever the producer does, the slice from ReadStart does not change until ReadEnd |
| PipeInterleaving.StepRefinesQueue | drivers/TBPipe/TBPipe.cpp:49-202 | the machine refines a queue: publishing a Write enqueues at once, ReadEnd and a finished ReadExact dequeue at once, every other step is invisible |
| PipeInterleaving.ReadExactSeesQueue | drivers/TBPipe/TBPipe.cpp:146-160 | ReadExact goes ahead exactly when the queue holds enough when write_pos is loaded |
| PipeInterleaving.ReadStartSeesQueue | drivers/TBPipe/TBPipe.cpp:101-135 | ReadStart hands out a prefix of the queue; it is empty exactly when the queue is, or at the alias of 0 |
| PipeInterleaving.WriteTakesPrefix | drivers/TBPipe/TBPipe.cpp:49-69 | with an old read_pos a Write takes less, never more, than there is room for |
| PipeInterleaving.WriteReturns | drivers/TBPipe/TBPipe.cpp:49-99 | whatever the consumer does meanwhile, a Write returns after the queue has got the first n of its bytes and nothing else: all, or a multiple of 8 that is less than 8 short of the room at the call |
| PipeInterleaving.ReadExactReturns | drivers/TBPipe/TBPipe.cpp:146-202 | whatever the producer does meanwhile, a ReadExact returns after taking exactly the next count bytes, or none, and that only if fewer were stored at the call |
| Streams.CutAnywhere | drivers/TBPipe/TBParse.cpp:48-135 | a byte-by-byte parser gives the same output and state for a stream however it is cut |
| PrefixParsers.StandardResets | drivers/TBPipe/TBParse.cpp:141-173 | no verdict of the standard rule depends on anything before the line |
| PrefixParsers.StandardSize | drivers/TBPipe/TBParse.cpp:141-173 | a completed prefix is the bytes 0 and 1 just before the two size bytes, low byte first |
| PrefixParsers.EspResets | drivers/TBPipe/TBParse.cpp:179-246 | no verdict of the +IPD rule depends on anything before the line |
| PrefixParsers.EspSize | drivers/TBPipe/TBParse.cpp:204-240 | the size that a complete +IPD prefix announces is what atoi makes of its length field |
| PrefixParsers.AtoiOfDecimal | drivers/TBPipe/TBParse.cpp:219-225 | atoi gives back a number written in decimal, behind white space or a plus sign too, and 2^32 less it behind a minus sign |
| PrefixParsers.EspCompletesExactly | drivers/TBPipe/TBParse.cpp:179-246 | the first complete prefix of a line comes with +IPD, link, comma, length and colon, or with anything between a further comma and the next colon, and only with that; the size is that of the length field |
| PrefixParsers.EspAnnounces | drivers/TBPipe/TBParse.cpp:179-246 | so a length of at most seven decimal digits is announced as it was written, at that colon and not before |
| PrefixParsers.EspMatchedExactly | drivers/TBPipe/TBParse.cpp:179-246 | a byte counts as part of a prefix exactly if it comes behind the whole of +IPD and its comma |
| PrefixParsers.EspAnnouncesNearTop | drivers/TBPipe/TBParse.cpp:219-236 | that size is within n of 2^32 exactly when the field is, after white space, a minus sign and a number from 1 to n |
| PrefixParsers.ShortResets | drivers/stm32_program/stm32_program.cpp:33-79 | no verdict of the short rule depends on anything before the line |
| PrefixParsers.ShortCompletesExactly | drivers/stm32_program/stm32_program.cpp:33-79 | a short prefix is complete exactly at a byte from 1 to 127 behind an open 0xFE, and that byte is the size |
| LineParser.NullResets | drivers/TBPipe/TBParse.h:98-103 | the null rule resets too |
| LineParser.TBParse.Append | drivers/TBPipe/TBParse.cpp:48-67 | appends the part of the data that fits and drops the rest |
| LineParser.TBParse.Scan | drivers/TBPipe/TBParse.cpp:85-126 | the scan gives the next message of the stream's meaning, or finds where the incomplete rest begins |
| LineParser.TBParse.NextMessage | drivers/TBPipe/TBParse.cpp:69-135 | gives the next message of the stream's meaning, up to its last byte, or none exactly when the buffer holds none; then it keeps exactly the bytes the stream still waits on. A line has a zero after it, a packet lies where its prefix ends, or at 0 if it was pending. Only where the sum wraps does a message reach outside the buffer |
| LineParser.Drain | drivers/TBPipe/TBParse.cpp:69-135 | taking messages until there is none gives all of the buffer's messages, and terminates, if no sum wraps |
| LineParser.Receive | drivers/TBPipe/TBParse.cpp:48-135 | independence from chunking, for every rule that resets: any chunks that are not truncated, drained one by one, give the messages of the whole stream, if no sum wraps |
| LineParser.AppendToFull | drivers/TBPipe/TBParse.cpp:61-66 | a buffer full of a line or packet that is not whole stays as it is, whatever is sent |
| LineParser.OverlongExactly | drivers/TBPipe/TBParse.cpp:92-93 | a stream can make the sum wrap exactly if it announces a size of at least 2^32 less the buffer's size |
| LineParser.NeverOverlong | drivers/TBPipe/TBParse.cpp:92-93 | a rule that announces no size of 2 GB or more leads no stream to a sum that wraps |
| LineParser.RulesAreNeverHuge | drivers/stm32_program/stm32_program.cpp:57-67 | the standard, short and null rules are such; the short one announces 1 to 127 bytes |
| LineParser.NullLineArrives | drivers/TBPipe/TBParse.cpp:112-125 | without prefixes a text arrives as a line at its CR or LF, an empty one excepted |
| LineParser.ShortPacketArrives | drivers/stm32_program/stm32_program.cpp:33-79 | 1 to 127 bytes behind 0xFE and their number arrive as a packet, whatever they are |
| LineParser.EspPacketArrives | drivers/TBPipe/TBParse.cpp:179-246 | so do up to 9999999 bytes behind +IPD and their number in decimal, with or without an address |
| LineParser.EspOverlongExactly | drivers/TBPipe/TBParse.cpp:219-240 | with the +IPD rule a stream can make the sum wrap exactly if it announces minus a number from 1 to the buffer's size |
| LineParser.ReceiveEsp | drivers/TBPipe/TBParse.cpp:48-135 | independence from chunking for the +IPD rule, on every other stream |
| LineParser.MinusElevenNeverEnds | drivers/TBPipe/TBParse.cpp:92-100 | an input where the sum wraps: the message begins where the bytes end, and the parser is as it was |
| Terminal.RoundTrip | py/balmer_term.py:36-54 | the bytes of any plain texts and packets mean exactly the non-empty ones, with kind and order kept |
| Terminal.OnTheWire | py/balmer_term.py:36-54 | the bytes of a text and of a packet, written out |
| Terminal.EmptyPacketArrives | drivers/TBPipe/TBParse.cpp:86-101 | a prefix of length 0 gives an empty packet at once |
| Terminal.ExactlyPlainTextsArrive | py/balmer_term.py:36-43 | a non-empty text arrives as that one line if and only if it has no line end and no binary prefix in it |
| Terminal.NoNulNoMark | py/balmer_term.py:36-43 | a text without NUL has no binary prefix in it |
| Terminal.ReceiveSent | py/balmer_term.py:36-54 | end to end: sent messages come out of the parser, however the bytes are split |
| Terminal.RoomExactly | py/balmer_term.py:36-54 | the bytes that wait leave room for another at every point of the stream exactly if every text is shorter than the buffer and every packet no longer than it |
| Terminal.SendInPieces | py/balmer_term.py:36-54 | progress: such messages get through in pieces of any size within the room that the drain before has left |
| Terminal.UnalignedPacket | drivers/TBPipe/TBParseStruct.h:6-11 | an input whose binary data lies at offset 6 |
| FrameHeader.AcceptedIsFilled | drivers/TBPipe/TBinParse.cpp:96-128 | a header is accepted exactly when it is the one built for the command and size read from it |
| FrameHeader.FilledIsAccepted | drivers/TBPipe/TBinParse.cpp:120-128 | every header built is accepted, with its command and size |
| FrameHeader.BurstIsShifted | drivers/TBPipe/TBinParse.cpp:96-118 | the errors considered are all 16-bit patterns shifted to any place of the 64-bit word |
| FrameHeader.UnnoticedExactly | drivers/TBPipe/TBinParse.cpp:96-118 | an error in a valid header goes unnoticed exactly if the exclusive or of its four lanes is 0 |
| FrameHeader.BurstIsRejected | drivers/TBPipe/TBinParse.cpp:96-118 | a valid header with such a non-zero error is never accepted |
| FrameHeader.HeaderSurvivesMemory | drivers/TBPipe/TBinParse.cpp:67-69 | eight bytes of memory give back the header written to them |
| FrameHeader.HeaderInMemory | drivers/TBPipe/TBinParse.cpp:67-69 | a header lies in memory as its 64-bit word does, low byte first |
| FrameHeader.FilledWord | drivers/TBPipe/TBinParse.cpp:120-128 | the word built has the size in its low 32 bits, the command from bit 32 and the check from bit 48 |
| FrameHeader.FieldsOfWord | drivers/TBPipe/TBinParse.cpp:96-100 | the size, command and check read from a word are those bits |
| FrameHeader.CheckBits | drivers/TBPipe/TBinParse.cpp:102-105 | a bit of the check is set exactly if an even number of the three bits it covers is |
| BinParser.TooBigExactly | drivers/TBPipe/TBinParse.cpp:72 | the 32-bit size check says "larger than the buffer" exactly for sizes below 2^32 - 8 |
| BinParser.TBinParse.ParseHeader | drivers/TBPipe/TBinParse.cpp:96-118 | accepts exactly the headers that TBinFillHeader builds, and stores size and command, else zeros |
| BinParser.TBinParse.Append | drivers/TBPipe/TBinParse.cpp:17-30 | appends all of the data, or fails and appends nothing when there is no room |
| BinParser.TBinParse.AppendInplace | drivers/TBPipe/TBinParse.cpp:32-44 | the same for bytes that the caller has put into the buffer |
| BinParser.TBinParse.Clear | drivers/TBPipe/TBinParse.cpp:130-136 | forgets all data and keeps a failure |
| BinParser.TBinParse.NextMessage | drivers/TBPipe/TBinParse.cpp:47-94 | gives the next frame of the stream's meaning, or none exactly when there is none whole; fails exactly when the stream does; else keeps the bytes still waited on, with room for an append. Only where the sums wrap does a message reach outside the buffer |
| BinParser.OversizedHeader | drivers/TBPipe/TBinParse.cpp:69-80 | a valid header for more than the buffer fails the stream exactly if its size is below 2^32 - 8 |
| BinParser.NearTopOverruns | drivers/TBPipe/TBinParse.cpp:72 | an input where it does not: size 2^32 - 8 |
| BinParser.NearTopNeverEnds | drivers/TBPipe/TBinParse.cpp:54-63 | there the message begins where the bytes end, and the parser is as it was |
| BinParser.FramesArrive | drivers/TBPipe/TBinParse.cpp:47-128 | the stream of any frames that fit means exactly those frames and does not fail |
| BinParser.FrameOnTheWire | drivers/TBPipe/TBinParse.cpp:120-128 | a frame is eight bytes of such a word, low byte first, and the payload |
| BinParser.HelloArrives | drivers/TBPipe/TBinParse.cpp:47-128 | the bytes 05 00 00 00 01 00 FB FF and "hello" are the frame of command 1 with "hello" |
| BinParser.BurstEndsStream | drivers/TBPipe/TBinParse.cpp:47-118 | frames, then a header with a burst of errors, then anything: exactly those frames arrive, and the stream fails |
| BinParser.Receive | drivers/TBPipe/TBinParse.cpp:17-94 | independence from chunking within MaxAppendSize, failing streams included: the frames are the stream's, and parse_failed holds exactly if the stream has failed |
| BinParser.ReceiveSent | drivers/TBPipe/TBinParse.cpp:17-128 | end to end: frames sent in any such chunks come back exactly, without failure, with MaxAppendSize positive after each drain |
| IoMemory.TagsDetermineRuns | sdk/lib/drivers/iomem.c:77-134 | a table is the tagging of at most one set of runs |
| IoMemory.IoHeap.Scan | sdk/lib/drivers/iomem.c:90-107 | the jumping scan ends at the highest offset where enough blocks are free, and at -1 exactly when there is none |
| IoMemory.IoHeap.KMalloc | sdk/lib/drivers/iomem.c:77-109 | takes that place as one more run of the tagged table; fails exactly for size 0 or when nothing fits |
| IoMemory.IoHeap.Init | sdk/lib/drivers/iomem.c:51-67 | sets up an empty table: its base is the high-water line seen uncached, with the break that the table's own malloc may move, and its blocks all the whole ones from there to the iomem line; hangs, or writes through NULL, exactly when that break passes the iomem line, or the heap's end and there is a block |
| IoMemory.IoHeap.Allocate | sdk/lib/drivers/iomem.c:147-175 | allocates and lowers the line to the run; hangs exactly when the run would start below the heap's line |
| IoMemory.IoHeap.IomemMalloc | sdk/lib/drivers/iomem.c:147-175 | the whole call, the first one included, as steps of brk, set-up and malloc: the address is that of the highest fitting run, or 0; and exactly when it hangs |
| IoMemory.IoHeap.IomemFree | sdk/lib/drivers/iomem.c:111-145 | removes exactly the run; the line rises over it when it was the lowest |
| IoMemory.IoHeap.SysBrk | sdk/lib/bsp/syscalls.c:180-210 | moves the break and the high-water line; hangs exactly when the line would pass the iomem line |
| IoMemory.CallKeepsSafe | sdk/lib/drivers/iomem.c:126-129 | every brk, set-up, malloc and free keeps runs apart and the heap's line at or below the iomem line, at or below every run |
| IoMemory.HistoryIsSafe | sdk/lib/drivers/iomem.c:77-175 | so does every history of calls, the first malloc included: no two live runs share a block, none starts below the heap's line |
| RecursiveLock.StepKeepsInv | sdk/lib/bsp/locks.c:31-224 | every swap, slot read and slot write of any core keeps the invariant of words, mutex and table |
| RecursiveLock.TableRefinesHoldings | sdk/lib/bsp/locks.c:53-224 | in every run no lock has two slots, and the table is the map from lock to owner and depth |
| RecursiveLock.MutualExclusion | sdk/lib/bsp/locks.c:106-224 | in every run no two cores hold the same lock |
| RecursiveLock.DecisionsAreRight | sdk/lib/bsp/locks.c:129-221 | an acquire succeeds exactly when no other core holds the lock; a release undoes one, and the last one frees the slot |
| RecursiveLock.CallsReturnRight | sdk/lib/bsp/locks.c:106-224 | in every run: lock returns only with one acquire more, unlock with one less, trylock with one more or with nothing changed; only lock waits |
| RecursiveLock.AloneReturns | sdk/lib/bsp/locks.c:106-224 | in every run: a core that then goes on alone, with nothing swapped and a slot to be had, returns in a bounded number of steps, with the lock exactly if no other core holds it |
| RecursiveLock.WaitsOnSlotZero | sdk/lib/bsp/locks.c:182-186 | in every run: a core that waits for a lock nobody else holds any more gets it by going on alone if and only if the lock of slot 0, whichever that is, is not held |
| RecursiveLock.WaitsForEver | sdk/lib/bsp/locks.c:182-186 | so a core that waits for one lock and itself holds that of slot 0 waits for ever, in every schedule |
| RecursiveLock.FreeLockNeverTaken | sdk/lib/bsp/locks.c:182-186 | an input: with two cores and two locks, a lock that nobody holds is waited for, for ever |
| RecursiveLock.FullTableMeansTooMany | sdk/lib/bsp/locks.c:63-73 | a table without a free slot means more locks than slots |
| RecursiveLock.NoCoreStops | sdk/lib/bsp/locks.c:118-127 | a program with at most LOCK_MAX_NUM locks never stops a core, although slots come and go during the searches |
| CoreLock.StepKeepsInv | sdk/lib/bsp/include/atomic.h:133-230 | every access to spinlock, count and core keeps the invariant |
| CoreLock.MutualExclusion | sdk/lib/bsp/include/atomic.h:133-230 | in every run at most one core holds the lock |
| CoreLock.FieldsAreAccurate | sdk/lib/bsp/include/atomic.h:133-230 | with the spinlock free, count is the named core's acquires not yet released, core is -1 exactly when count is 0, and no core ever makes the exit call |
| CoreLock.DecisionsAreRight | sdk/lib/bsp/include/atomic.h:145-158 | an acquire succeeds exactly when no other core holds the lock; a release gives it up exactly with the last one |
| CoreLock.CallsReturnRight | sdk/lib/bsp/include/atomic.h:133-230 | in every run: lock returns only with one acquire more, unlock with one less, trylock with one more or none; only lock waits |
| CoreLock.AloneReturns | sdk/lib/bsp/include/atomic.h:133-230 | in every run: a core that then goes on alone, with the spinlock free, returns within six steps, with the lock exactly if no other core holds it |
| CoreLock.SpinlockComesFree | sdk/lib/bsp/include/atomic.h:133-230 | a core inside waits for nobody: the spinlock is free after at most five steps of its own |
| Semaphore.StepKeepsInv | sdk/lib/bsp/include/atomic.h:94-116 | every access to spinlock, count and waiting keeps the invariant |
| Semaphore.CountIsConserved | sdk/lib/bsp/include/atomic.h:94-116 | in every run count is not negative, count and the amounts all waits took are the start and the amounts all signals added, waiting is the number of waiters |
| Semaphore.HeldStays | sdk/lib/bsp/include/atomic.h:94-116 | while a core has the spinlock, no schedule of the others changes the count |
| Semaphore.TakesExactlyWhenEnough | sdk/lib/bsp/include/atomic.h:104-115 | in every run a waiter that looks at the count takes its amount exactly when the count is enough, whatever the others do between its steps |
| Semaphore.CallsReturnRight | sdk/lib/bsp/include/atomic.h:94-116 | in every run a signal returns after adding exactly its amount to the count, a wait after taking exactly its amount from it |
| Semaphore.AloneReturns | sdk/lib/bsp/include/atomic.h:94-116 | a core that goes on alone, with the spinlock free, returns from a signal within three steps and from a wait within six if the count is enough |
| Pll.CommonDivisor | sdk/lib/drivers/sysctl.c:1114-1123 | the inner loop finds the largest divisor of nr within the limit |
| Pll.ScalingKeepsRatio | sdk/lib/drivers/sysctl.c:1124-1158 | both branches keep the ratio nf / (nr * od) and the ranges of NF and OD |
| Pll.DividersOfVco | sdk/lib/drivers/sysctl.c:1114-1126 | the most and the least output divider are where the VCO would leave its range |
| Pll.ScalingIsLargest | sdk/lib/drivers/sysctl.c:1114-1158 | the output divider is the largest multiple of the largest common divisor that the ranges allow; where that is too little and nf has room, the largest of all |
| Pll.NumeratorIsNearest | sdk/lib/drivers/sysctl.c:1098 | with rint to nearest, nr is within a half of nfi * fin / fout |
| Pll.OutputFromError | sdk/lib/drivers/sysctl.c:1107-1110 | the output differs from the request by exactly the relative error of the candidate |
| Pll.CandidateIsSound | sdk/lib/drivers/sysctl.c:1096-1180 | a candidate that passes the checks is in all ranges, the upper reference limit included, and within 1/64 if its error is |
| Pll.CandidateExactly | sdk/lib/drivers/sysctl.c:1096-1180 | a feedback divider leads to a candidate exactly if the scaled setting meets all the ranges of the hardware |
| Pll.Round | sdk/lib/drivers/sysctl.c:1098-1192 | takes a candidate exactly when it is close enough, not barred by the setting before it, and has a smaller error or a larger output divider; always the first viable one |
| Pll.NoCandidateCloser | sdk/lib/drivers/sysctl.c:1107-1192 | the setting kept is as accurate, up to the slack of 1e-6 in each of 64 rounds, as every candidate that was not multiplied up and needs no larger nr, and as the first viable one |
| Pll.NoCandidateBetter | sdk/lib/drivers/sysctl.c:1107-1192 | if no two errors differ by the slack only, none of those candidates has a smaller error, or the same error and a larger output divider |
| Pll.NoLargerThanFirst | sdk/lib/drivers/sysctl.c:1180-1182 | the setting kept needs no larger nr than the first viable candidate |
| Pll.Search | sdk/lib/drivers/sysctl.c:1095-1194 | finds a setting exactly when some feedback divider is viable. What it keeps was not multiplied up or is the first viable one, needs no larger nr than that, and no competing candidate is closer, but for the slack; if no two errors are nearly equal, none is closer, or as close with a larger output divider |
| Pll.SelectorRoundTrip | sdk/lib/drivers/sysctl.c:27-39 | the two selector tables of PLL2 are inverse to each other |
| Pll.Sysctl.WriteSetting | sdk/lib/drivers/sysctl.c:1211-1262 | each register field is its divider less one; other bits and other PLLs stay, and the frequency read back is that of the setting |
| Pll.Sysctl.FreqOfFields | sdk/lib/drivers/sysctl.c:945-995 | the frequency of a PLL from its fields and its source: the crystal of 26 MHz, or what PLL0 or PLL1 runs at |
| Pll.Sysctl.PllSourceSetFreq | sdk/lib/drivers/sysctl.c:997-1265 | 0 and no change, or a setting in all ranges within 1/64 of the request, returned in whole Hz; no competing candidate of the search gives a closer frequency, but for the slack; without a borderline candidate it succeeds exactly when there is a viable one |
| KpuUpload.AddressIsInjective | sdk/lib/drivers/kpu.c:632-658 | no two places of the image share an address, for every width, height and channel count |
| KpuUpload.AddressIsBounded | sdk/lib/drivers/kpu.c:632-658 | every address is below ceil(channels / group) * length * height * 64 |
| KpuUpload.AddressIs | sdk/lib/drivers/kpu.c:632-658 | rows of at most 16 bytes lie four channels to a line of 64 bytes, of at most 32 two, and longer rows in whole lines of their own |
| KpuUpload.UploadedHas | sdk/lib/drivers/kpu.c:699-714 | afterwards every place of the image holds its own byte of the source |
| KpuUpload.UploadedKeeps | sdk/lib/drivers/kpu.c:699-714 | bytes that are no place of the image keep their value |
| KpuUpload.CopyWords | sdk/lib/drivers/kpu.c:673-698 | one, two, four or a loop of 64-bit moves leave the row that single bytes would |
| KpuUpload.UploadCore | sdk/lib/drivers/kpu.c:632-715 | both paths, whatever the alignment of the source, leave every source byte at its address and all other bytes as they were |
| Sha256.PaddedIsUnique | sdk/lib/drivers/sha256.c:80-99 | the padded message of FIPS 180-4, section 5.1.1, is unique |
| Sha256.AbcIsPadded | sdk/lib/drivers/sha256.c:80-99 | the padded message of "abc", written out |
| Sha256.SwappedInMemory | sdk/lib/drivers/sha256.c:37-42 | byteswap64 puts the length into memory with its high byte first |
| Sha256.Context.Update | sdk/lib/drivers/sha256.c:57-86 | appends the input to the bytes fed and buffered, whatever the fill of the buffer |
| Sha256.Context.Final | sdk/lib/drivers/sha256.c:88-101 | feeds padding and length, and leaves the buffer empty at a block border |
| Sha256.FinalPads | sdk/lib/drivers/sha256.c:94-99 | what final feeds makes the message the padded message of the standard |
| Sha256.CountIsRight | sdk/lib/drivers/sha256.c:49 | the programmed count is the number of blocks exactly for messages below 65536 * 64 - 72 bytes |
| Sha256.Feed | sdk/lib/drivers/sha256.c:44-101 | init, updates of any split and final feed exactly the padded message |
| Flash.NoWrap | drivers/flash/flash.c:371-383 | a page program that stays in its page does not wrap |
| Flash.Chip.PageProgram | drivers/flash/flash.c:371-383 | what the chip does with one page program, wrapping inside the page |
| Flash.Chip.WriteData | drivers/flash/flash.c:403-420 | every byte goes to its own address and no other cell changes; every page program has 1 to 32 bytes and stays in its page of 256 |
| NumberFormat.DigitRoundTrip | sdk/lib/bsp/printf.c:199-209 | the digit characters are those of 0123456789ABCDEF in the case asked for, and a2d reads them back |
| NumberFormat.TopDivisor | sdk/lib/bsp/printf.c:112-115 | the divisor is the top power of the base and never overflows 64 bits |
| NumberFormat.Param.Ulli2a | sdk/lib/bsp/printf.c:106-124 | at most 20 digits in the case asked for, which evaluate back to the number, without a leading zero; none for 0 with precision 0 |
| NumberFormat.Param.Lli2a | sdk/lib/bsp/printf.c:126-134 | sign and absolute value, the least number included |
| NumberFormat.EveryNumberFits | sdk/lib/bsp/printf.c:76 | 20 characters are enough for 64 bits in base 10 and 16 and for 32 bits in base 8 |
| NumberFormat.Param.Ui2a | sdk/lib/bsp/printf.c:169-187 | the same for unsigned int in bases 8, 10 and 16; base 8 is used here only |
| NumberFormat.CanonicalLength | sdk/lib/bsp/printf.c:112-123 | digits without a leading zero number exactly as many as the powers of the base below the number say |
| NumberFormat.FitsExactly | sdk/lib/bsp/printf.c:76 | so they fit the buffer exactly when the number is below the twentieth power of the base |
| NumberFormat.Param.PutChw | sdk/lib/bsp/printf.c:228-288 | emits sign, prefix, zeros and digits, where zeros and digits evaluate to the number of the digits; all filling is spaces before that, zeros before the digits, or spaces after them, as the flags say, and the length is max(width, sign + prefix + max(precision, digits)) |
| NumberFormat.Param.OnlyOneField | sdk/lib/bsp/printf.c:228-288 | these say everything: only one text is such a field |
| NumberFormat.FieldLength | sdk/lib/bsp/printf.c:236-247 | the field has exactly max(width, sign + prefix + max(precision, digits)) characters |

## Left out

- Memory ordering weaker than sequential consistency, fairness (a core is shown to return when it goes on alone, not
  when others keep taking the lock), and interrupts on a core that holds a spinlock.
- TBParse's timeout: its default, no timeout, is modelled. `SetParser` between messages.
- LineParser.Receive: excludes streams that can make the sum wrap, since draining them need not end.
- BinParser.Receive: excludes sizes that make the sums wrap, for the same reason, and command 0, which callers take for
  "no message".
- Message pointers are offsets into the buffer: that a message is overwritten by the next append or compaction is
  not stated.
- TBPipe's allocation, and calls of `Clear` and `Init` while the other side is active.
- The zero filling of RAM in `iomem_init`, the C library's allocator (its calls of `sys_brk` are a parameter), frees
  of blocks that are not live, tables of 65536 blocks and more, `k_unused`.
- The recursive lock behind iomem: its calls are taken one at a time.
- `reculock_deinit` while a lock is in use, and `_lock_*` wrappers.
- Overflow of lock counters and semaphore counts, negative amounts, `semaphore_count` and `semaphore_waiting`, which
  only read.
- Pll.NoCandidateBetter: where errors differ by the slack only, which of them is kept depends on the order of the rounds;
  there the bound of `Pll.NoCandidateCloser` is all that is stated.
- Pll.Sysctl.PllSourceSetFreq: exact reals instead of doubles, dividers not cut to 32 bits; a request of 0 or
  above 1.75 GHz is excluded, since the code then divides by zero.
- `kpu_input_with_padding`, which is the byte loop of `kpu_upload_core` once more; address arithmetic that overflows.
- The SHA-256 compression, the digest words, the FIFO's busy flag: hardware.
- SPI transfers and status polling of the flash; only what the chip makes of a page program is modelled, with the
  effect on a single cell left open.
- The format string interpreter, `a2u`, string and character conversions of printf; `uli2a` and `ui2a` are `ulli2a` with
  narrower types.
- Register-only drivers, the network stack, neural-network kernels and instruction emulation.
