# Verified model of gdbwave

gdbwave replays a simulation: it reads the waveforms of a CPU from an FST file,
extracts the list of retired instructions, the register writes and the memory
writes, and lets a debugger walk that list. This project models the parts in
which a mistake would show up as a wrong value in the debugger, and proves what
they promise each other. The pieces meet in one theorem: write a run of value and
time changes to a file, read it back, extract the traces and give the debugger any
commands, and it is at the instruction, and shows the registers, that the run's own
value changes say (`Extraction.DebugRun`).

The files follow the program's components.

| files | what they model |
|---|---|
| `Bytes`, `Varint`, `Frame` | bytes, LEB128 integers in both directions, the table of initial values |
| `Lz`, `FastLz*` | FastLZ, levels 1 and 2: the stream format as a decoder of arbitrary bytes, the greedy parse as a function of the input and its hashes, and both in-place algorithms against them |
| `Lz4*` | LZ4 blocks, in the same way; the LZ4 Block Format Description names the end-of-block rules the compressor keeps |
| `Chain`, `ChainWriter` | one signal's changes as bytes; the linked records in the change buffer and the walk that builds the bytes from right to left |
| `HashTable`, `Stored`, `ChainStore`, `MixedForms` | storing chains raw or compressed, and each only once |
| `ChainIndex` | the index of zeros, positions and references, and the tables it is decoded into |
| `TimeTable`, `Section` | the time stream, the writer's clock, and the bytes of a block |
| `WriterState`, `Writer` | the writer: value changes, time changes, flushes, close |
| `Course`, `Session` | the course of a run as a function of its calls: what they mean, when they flush, what sections they fill; and the writer following it |
| `Merge`, `Reader`, `TraceFile` | the iterating reader: loading, the bucket queue, one block, a file of blocks |
| `ValueAt`, `ValueFile`, `ValueOfRun` | the value-at-time reader with its remembered position; finding the block; its answers against the run |
| `KeptTables` | the iterating reader's index tables from block to block: when they are right, exactly and from a run's sections |
| `RoundTrip`, `LostRuns` | writing a run and reading it; runs that lose something |
| `SmallRun`, `SampleFile`, `SmallSession` | three runs in literal bytes: one written, read and asked; the 105 bytes of another one's file; and one from its calls to the registers the debugger shows |
| `Extraction` | the traces and the debugger on the file of a run |
| `Sampling`, `Accesses`, `CpuTrace`, `RegFileTrace`, `MemTrace` | the three trace extractors and their queries |
| `Debugger` | the cursor, the breakpoints and the registers |
| `Escape` | escaped strings |

Each decoder has a meaning of its own, a function on arbitrary bytes, and every
writer is proved against that meaning, so that a round trip is never a statement
about one program undoing itself. Methods keep the form of the C code: buffers
are arrays written in place, the writer, the merge, the readers, the hash table
and the debugger are classes whose fields are the ones of the C structures.

## What turned out not to hold

Where the code does less than it seems to promise, the model keeps the code, gives
an input that shows it, and proves the exact condition.

- A record packs its time distance by shifting it left in 32 bits. A signal that
  becomes unknown at time index 2^28 is read back at index 0 (`Chain.LostDistance`).
  A chain comes back if and only if every distance is below 2^30 for a 0 or 1, 2^28
  for any other one-bit value and 2^31 for wider values (`Chain.RoundTrip`);
  distances that are cut never move a change to a later time.
- The iterating reader keeps its index tables from block to block. What an
  earlier block left as a length can read as a reference, and a signal without
  changes is then given another signal's chain. A run of eight calls on three
  signals does it: in whatever file is made of it, the third signal is given the
  second one's chain (`LostRuns.GivenAnothers`). In one block a signal is found where
  the index says if and only if no leftover makes it look like a reference
  (`ChainIndex.DecodesExactly`). A whole file is read right if and only if in no
  block a selected signal is misled, which is decided by the positions in the blocks
  alone, or given a chain stored in another form (`KeptTables.RunCleanExactly`).
  Unless such a reference is to a signal that is itself without changes, the one
  signal a block can mislead is the one stored last in the block before
  (`KeptTables.OnlyOvertaken`). So the tables are right for a run in which signal 1,
  say the clock, changes in every section, or in which no selected signal stored
  last in a section is idle in the next (`KeptTables.RunClean`).
- A flush called for when the change buffer is empty writes nothing, but the time
  change that called for it still writes the current time once more, as if it
  were a distance: after times 5, 7, 9, a flush request and 12, what is announced at
  12 is read at 18 (`LostRuns.LateReport`). Over any run, the time table of a block
  is the times announced if and only if no call made in its section was a time
  change that called for a flush with an empty buffer (`RoundTrip.TablesInStep`).
- The value-at-time reader, asked for a time before a chain's first change,
  forgets the time of its last hit but not the position (`ValueAt.SteppingBack`).
  A run of queries is answered as full scans would answer it if and only if it never
  steps back before the first change after a hit and then goes forward again to
  before what was hit (`ValueAt.RunExactly`).
- The same reader, asked for the last time of a block that is not the last time of
  the trace, looks for the next block one byte into the one it found, and goes on
  with 256 times its length (`ValueFile.Misread`, and two blocks that share time 10 in
  `ValueFile.SeamOfTwo`). The contents of the block are found if and only if the time
  is not at such a seam (`ValueFile.ValueAtTime`).
- Duplicate chains are found by their stored bytes alone. Whatever the hash function,
  one chain of a 39-bit signal is compressed to ten bytes that are also the chain of
  a one-bit signal, and the second signal is given a reference to the first
  (`MixedForms.MixedUp`). Two equal keys mean equal chains if and only if both are
  compressed or neither is (`Stored.SameBytes`).
- Values given before the first time change are kept in the frame only. A signal set
  before a first time change at 0 and never changed is not mentioned by the iterating
  reader (`LostRuns.Unreported`). The first values are reported if and only if some
  were given, the first time is not zero, and there is any block
  (`RoundTrip.FirstShown`).
- FastLZ documents a minimum input of 16 bytes; the code, and the theorem, take
  any input of at least one byte.

## What is assumed

- `compress2` and `uncompress` are parameters, the second undoing the first
  (`Section.Sound`); so are the hash functions, which may be any functions.
- Buffers and files stay within the widths the C code gives their sizes: the
  change buffer within 2^30 bytes, which keeps every chain position within the 31
  bits an index entry has (`Course.Roomy`, and `Course.SmallIsRoomy` for when that is
  so), signal widths and their number within 2^30, time indices within 32 bits and
  times within 64. That every length and size written then fits in 64 bits is proved
  (`RoundTrip.BlockFits`).
- Values handed to the writer are as wide as their signals and handles start at 1;
  the CPU trace handed to the debugger is not empty.

## Model

| member | source | states |
|---|---|---|
| `Extraction.DebugRun` | src/gdbstub_sys.cc:20-217 | write a run, read it for the CPU and register traces, give the debugger any commands: its instruction and its 33 registers are those the run's own value changes say, and it ends in an exception exactly if the run holds a value stol refuses; the signals are different ones, settled at the falling clock edge, and steady and unconfused in the sections |
| `Extraction.SamplesOfFile` | src/FstProcess.cc:147-164 | a file written by a run and read back gives the trace extractors the same samples as the run itself |
| `Extraction.MemoryByte` | src/MemTrace.cc:166-189 | the memory byte the debugger reads from the file at a time is what the run's stores left there, whenever the tables kept are right for the bus signals, by the exact condition of KeptTables.RunCleanExactly |
| `SmallSession.Debugged` | src/gdbstub_sys.cc:20-217 | a run of two instructions written, read and debugged, with its conditions proved: register 5 and the pc are 7 and 8 at first, 9 and 12 after a step or two, every other register is 0xdeadbeef, and a breakpoint stops it at once exactly if it is at 8 |
| `RoundTrip.WriteAndRead` | src/fst/fstapi.c:2921-5942 | the reader gives back what the writer was given: for every run and mask that meet conditions on the calls alone, each selected signal's callbacks are exactly what the run has to say of it, in time order, and no other signal has any |
| `RoundTrip.Write` | src/fst/fstapi.c:1282-1829 | every run within the widths of the buffers leaves a file of its sections in which every block can be read, with its chains in the form asked for |
| `RoundTrip.Read` | src/fst/fstapi.c:5005-5942 | the same for any file that holds the blocks of a run, whenever the times are right and the tables kept are, by the exact condition of KeptTables.RunCleanExactly |
| `RoundTrip.BlockFits` | src/fst/fstapi.c:5036-5129 | every number in a block the writer makes fits in 64 bits: chains, index, frame, time table and their sum |
| `RoundTrip.ReportedLetters` | src/fst/fstapi.c:5625-5639 | what is called back of a change has its time and handle, and its value: 0 and 1, or the lower-case one of x z h u w l, or '-' for any other byte; wider values as they are |
| `KeptTables.RunClean` | src/fst/fstapi.c:5388-5487 | over all blocks of a run nothing in the tables kept is mistaken for any selected signal, if no selected chain is confusable with an earlier signal's and each selected signal is steady from section to section: it changes, or signal 1 does, or nothing before it does, or it was not the last one stored in the section before, or nothing was before it there |
| `KeptTables.RunCleanExactly` | src/fst/fstapi.c:5388-5487 | for any blocks: all are read right if and only if in none a selected signal has its chain in two forms or is misled, and who is misled follows from the positions in the blocks, by what each signal's length was left to refer to |
| `KeptTables.OnlyOvertaken` | src/fst/fstapi.c:5407-5408 | as long as no leftover refers to a signal without an entry, the signal misled is the one stored last in the block before, exactly if it has no entry now and its old position, less the first one now, is an earlier signal's reference |
| `KeptTables.FirstBlockClean` | src/fst/fstapi.c:5378-5487 | for the first block of a file the reader's tables are clean if and only if no selected signal refers to a chain stored in the other form |
| `RoundTrip.ReportsAll` | src/fst/fstapi.c:5005-5920 | reading all blocks reports of a selected signal exactly what their sections tell, in order, one-bit values in canonical spelling, after the first values if those are reported |
| `RoundTrip.TablesInStep` | src/fst/fstapi.c:3236-3253 | the time table of a block is the times announced if and only if no call in its section was a time change that called for a flush with nothing to flush |
| `RoundTrip.FramesAreLatest` | src/fst/fstapi.c:1235-1268 | the frame of every block holds what the blocks before it told last of every signal, or its value from before the first time change |
| `RoundTrip.FirstShown` | src/fst/fstapi.c:5155-5162 | the first values are reported, at time 0, if and only if a known signal was given one before a first time change at another time, and there is a block |
| `RoundTrip.FewTimes` | src/fst/fstapi.c:1368-1381 | with at most 2^28 times announced in a section every distance fits its record |
| `RoundTrip.ShortRunFits` | src/fst/fstapi.c:1368-1381 | so it does in every section of a run of fewer than 2^28 calls |
| `RoundTrip.ForwardIsChronological` | src/fst/fstapi.c:1246-1247 | sections that go forward in time make chronological blocks: each begins where the one before ended |
| `LostRuns.LateReport` | src/fst/fstapi.c:3238-3244 | a run of six calls whose one change, announced at 12, is at an index that the table says is 18 |
| `LostRuns.Unreported` | src/fst/fstapi.c:5155 | a run of three calls one of whose signals is never reported |
| `LostRuns.GivenAnothers` | src/fst/fstapi.c:5378-5487 | a run of eight calls: in every file made of it, with either compression and any hash functions, the index tables lead a signal that does not change in the second block to another signal's chain |
| `LostRuns.StaleFile` | src/fst/fstapi.c:1282-1829 | that run can be written, and its file is not read right |
| `SmallRun.WrittenAndRead` | src/fst/fstapi.c:2921-5942 | a run of three calls that meets all conditions, written and read back: a signal set to any byte at time 3 is called back once, at 3, with the letter for that byte, all letters being listed |
| `SmallRun.WrittenAndAsked` | src/fst/fstapi.c:5998-6595 | the same run asked for its value at any time: the bit it was set to from time 3 to time 8, and nothing before or after |
| `SmallRun.NothingSaid` | src/fst/fstapi.c:1944-1971 | without any call a signal is reported as x at time 0 |
| `SmallRun.SaidBefore` | src/fst/fstapi.c:5155-5162 | a value from before a first time change at 3 is reported at time 0, a later one at 3 |
| `SampleFile.WriteSample` | src/fst/fstapi.c:1282-1829 | a run of six calls on four signals (narrow and wide, binary or not, one a duplicate, one idle) is written as 105 bytes, all of them listed, whatever the hash functions |
| `SampleFile.ReferenceTwice` | src/fst/fstapi.c:1643-1679 | the index bytes of a position, the same reference twice, two idle signals and a position 199 further on |
| `Course.FinalTells` | src/fst/fstapi.c:1321-1829 | the sections written to the file hold exactly the value changes of the run, with the times they were made at, each in one section |
| `Course.InStepExactly` | src/fst/fstapi.c:3236-3253 | over any run of calls, for the sections finished and the one open: time table in step if and only if no call made in it was an idle flush |
| `Course.NoRequests` | src/fst/fstapi.c:3238-3244 | without flush requests and with a break size above 1 there are none |
| `Course.BeginsAlong` | src/fst/fstapi.c:1355-1418 | over any run every section begins with the values last told before it |
| `Course.OpensAlong` | src/fst/fstapi.c:3217-3234 | over any run the first section begins at 0 if a value came before the first time, and otherwise at that time |
| `Course.ForwardAlong` | src/fst/fstapi.c:1246-1247 | times announced in order leave every section in order, beginning where the one before it ended |
| `Course.EmptyMeans` | src/fst/fstapi.c:1321 | the change buffer is empty if and only if no signal changed in the section |
| `Course.SmallIsRoomy` | src/fst/fstapi.c:846-870 | a run whose value changes take up less than 2^30 bytes never outgrows the buffer |
| `Course.MeansOfBegin` | src/fst/fstapi.c:3217-3234 | in terms of the calls: the begin time is that of the first time change |
| `Course.MeansOfTime` | src/fst/fstapi.c:3203-3255 | the time now is that of the last one |
| `Course.MeansOfGiven` | src/fst/fstapi.c:2921-3037 | a value counts as early exactly if a known signal was given one before any time change |
| `Course.FileSpan` | src/fst/fstapi.c:1246-1247 | the file begins at the first time, or at 0 after an early value, and ends at the last time, or where the last flush left off if nothing changed since |
| `Course.RequestTaken` | src/fst/fstapi.c:1909-1919 | a flush request only sets the pending flag, and only once three times were announced in the section |
| `Course.SectionEnds` | src/fst/fstapi.c:3236-3253 | a time change ends the section exactly if the buffer has reached the break size or a flush is pending, and some signal has changed; the next one begins at the time before, with every value then |
| `Course.OneSection` | src/fst/fstapi.c:3236-3253 | a run without requests that never reaches the break size has at most one section |
| `Session.Record` | src/fst/fstapi.c:2921-3255 | the writer follows the course that its calls prescribe: for any run of value changes, time changes and flush requests its fields, lists, time table and finished blocks are those of that course |
| `Session.Dump` | src/fst/fstapi.c:1282-1971 | after closing, the file holds exactly the sections of the course, one block each, in the pack mode asked for |
| `TraceFile.ReadFile` | src/fst/fstapi.c:5016-5942 | the loop over a file's blocks, its index tables kept from block to block: every signal's callbacks are its reports, block after block, and all callbacks are in time order |
| `Writer.Writer.EmitValueChange` | src/fst/fstapi.c:2921-3037 | one record is appended and linked into its signal's list, no other list changes; before the first time change the value goes to the frame; vc_emitted is set only when nothing was mapped yet |
| `Writer.Writer.EmitTimeChange` | src/fst/fstapi.c:3203-3255 | the new clock, time table and announced times for each case: first time change, flush with something to write (one more block, holding the section's times, first values and changes; all lists empty; the frame holds every latest value), flush with nothing to write, no flush |
| `Writer.Writer.FlushContextPrivate` | src/fst/fstapi.c:1321-1829 | returns without any change when the buffer is empty; otherwise one block more and an empty section that begins now |
| `Writer.Writer.WriteSection` | src/fst/fstapi.c:1328-1783 | the bytes appended, header patched, are exactly those of a block with the section's contents |
| `Writer.Writer.StoreChains` | src/fst/fstapi.c:1337-1479 | every signal's chain is built from its list and stored, and the frame ends up with every signal's latest value |
| `Writer.Writer.Checkpoint` | src/fst/fstapi.c:1418 | the frame gets the value of the signal's last record |
| `Writer.Writer.ClearLists` | src/fst/fstapi.c:1671-1672 | the lists of exactly the signals with chains are cleared, so that none is left |
| `Writer.Writer.BeginTrace` | src/fst/fstapi.c:3217-3234 | the first section begins at the first time, or at 0 if a value came before it |
| `Writer.Writer.FlushContext` | src/fst/fstapi.c:1909-1919 | a flush is asked for only after the second time index |
| `Writer.Writer.Close` | src/fst/fstapi.c:1944-1971 | last block written, or the header of an empty section cut off; without any time change every value becomes a change at time 0 |
| `Writer.Writer.EmitSectionHeader` | src/fst/fstapi.c:1242-1268 | placeholder header with begin time and frame, for the block being opened |
| `WriterState.Append` | src/fst/fstapi.c:846-870 | appending a record keeps every list and adds the change to one; the buffer grows by the record's size, the sum over all signals likewise |
| `WriterState.HeadValue` | src/fst/fstapi.c:1354-1356 | the record at the head of a list holds the signal's latest value |
| `WriterState.TakenSome` | src/fst/fstapi.c:1321 | a buffer of more than one byte holds a change of some signal |
| `Frame.FrameUpdate` | src/fst/fstapi.c:1418 | overwriting one value in place gives the frame with that value |
| `Frame.FrameAt` | src/fst/fstapi.c:5202-5347 | each value is found at the sum of the widths before it |
| `TimeTable.TickInStep` | src/fst/fstapi.c:3236-3253 | the time stream keeps one entry per index, adding up to the current time, if and only if no flush is due with nothing to flush |
| `TimeTable.ExtraEntry` | src/fst/fstapi.c:3238-3244 | the concrete run in which it does not |
| `TimeTable.StaysOut` | src/fst/fstapi.c:3250-3253 | later time changes leave the section out of step |
| `TimeTable.FlushMends` | src/fst/fstapi.c:3238-3244 | the next flush of a non-empty buffer mends it |
| `TimeTable.ReadTimes` | src/fst/fstapi.c:5131-5141 | the reader gets back every 64-bit time, even when time runs backwards |
| `ChainWriter.LinkRecord` | src/fst/fstapi.c:846-870 | a record appended with its signal's old head becomes the new head of a list with one change more |
| `ChainWriter.LinkedStays` | src/fst/fstapi.c:846-870 | appending to the buffer leaves every other list as it is |
| `ChainWriter.BuildChain` | src/fst/fstapi.c:1346-1479 | walking the list back and writing to the left leaves exactly the chain of the changes, in order, at the end of a scratch area as large as the buffer |
| `ChainWriter.ChainFits` | src/fst/fstapi.c:1349-1479 | a chain and one more byte per change fit in what the changes take up in the buffer |
| `ChainWriter.PutRecord` | src/fst/fstapi.c:1357-1476 | one packed record, written to the left of what is there |
| `ChainWriter.PutBits` | src/fst/fstapi.c:1446-1466 | the bits of a value, eight to a byte, the last byte first |
| `Chain.RecordBack` | src/fst/fstapi.c:5625-5639 | a packed record reads back as its value in canonical spelling, its own length, and its time distance cut to the bits there is room for |
| `Chain.BitsBack` | src/fst/fstapi.c:5750-5765 | unpacked bits are the characters packed |
| `Chain.DecodeEncode` | src/fst/fstapi.c:5585-5920 | a chain, wherever it lies, decodes to the changes a reader sees of those written |
| `Chain.SeenExactly` | src/fst/fstapi.c:1368-1381 | these are the changes written if and only if every time distance fits its shifted 32-bit record |
| `Chain.RoundTrip` | src/fst/fstapi.c:1366-1476 | a stored chain decodes to its changes if and only if every distance fits |
| `Chain.LostDistance` | src/fst/fstapi.c:1368-1381 | a change at index 2^28 that is read back at index 0 |
| `Chain.SeenNotLater` | src/fst/fstapi.c:1368-1381 | lost bits of a distance never move a change to a later time |
| `Chain.Letters` | src/fst/fstapi.c:171-192 | the spelling a one-bit value comes back in, letter by letter, for every byte |
| `Chain.ScalarRecord` | src/fst/fstapi.c:1370-1384 | the record of a one-bit value in numbers: four times the distance plus twice the bit, or sixteen times the distance plus twice the letter's place and one |
| `Chain.VectorRecord` | src/fst/fstapi.c:1446-1475 | the record of a wider value: twice the distance and the packed bits, or that and one and the characters |
| `Chain.PackedByte` | src/fst/fstapi.c:1446-1466 | each packed byte is the sum of its eight characters' bits, the first weighing 128, zeros after the last |
| `Stored.Pack` | src/fst/fstapi.c:1482-1604 | a chain is stored as it is, or compressed if that is shorter and the chain has at least 33 bytes; with FastLZ it is compressed whenever that is so, by the parse of the level for its size |
| `Stored.WireIs` | src/fst/fstapi.c:1514-1604 | a zero and the chain, or the chain's size and the compressed bytes |
| `Stored.Load` | src/fst/fstapi.c:5504-5553 | loading a stored chain gives the chain, also when the decompressor is handed bytes of what follows |
| `Stored.SameBytes` | src/fst/fstapi.c:1560-1597 | two forms with the same bytes are of the same chain if and only if both are compressed or neither is |
| `MixedForms.MixedUp` | src/fst/fstapi.c:1560-1635 | store the chains of two signals, one of 40 and one of 10 bytes: whatever the hash functions, the second gets a reference to the first, and the forms are mixed up |
| `MixedForms.CompressedIs` | src/fst/fastlz.c:164-416 | the 40 bytes are compressed to the ten bytes of the other chain, whatever the hash function |
| `ChainStore.Store.Add` | src/fst/fstapi.c:1481-1635 | the chain is stored after the others, or refers to the first signal with the same bytes; nothing is stored twice, and the memory required counts every chain |
| `ChainStore.ChainFound` | src/fst/fstapi.c:5471-5512 | what the index says of a signal leads to a stored chain, which is its own if and only if forms were not mixed up |
| `ChainStore.LaidMore` | src/fst/fstapi.c:1590-1597 | storing one more chain, or a reference, leaves all earlier ones found |
| `HashTable.Table.Ins` | src/fst/fstapi.c:6737-6776 | a map from byte strings to cells: the old cell for a known string, a new empty one otherwise; a bucket is only permuted, its hit first |
| `HashTable.Table.InsAll` | src/fst/fstapi.c:6737-6776 | over any sequence of calls two strings get the same cell if and only if they are equal |
| `HashTable.MovedPermutes` | src/fst/fstapi.c:6756-6760 | moving a hit to the front permutes the bucket |
| `ChainIndex.WriteIndex` | src/fst/fstapi.c:1643-1679 | the bytes of the index of zeros, positions and references |
| `ChainIndex.DecodeIndex` | src/fst/fstapi.c:5390-5487 | decoding them does to the tables, whatever they held, what the entries say one by one |
| `ChainIndex.DecodesExactly` | src/fst/fstapi.c:5390-5487 | each signal gets its position, or its alias's, or none, if and only if no leftover length makes it look like a reference; signals with chains get position and length always |
| `ChainIndex.FreshTables` | src/fst/fstapi.c:6225-6226 | with tables just allocated nothing is mistaken |
| `ChainIndex.StaleTables` | src/fst/fstapi.c:5378-5386 | tables kept from an earlier block: a signal without changes is given another one's chain |
| `ChainIndex.FirstBlockTables` | src/fst/fstapi.c:5390-5487 | these tables are what an earlier block leaves |
| `ChainIndex.OnlyLast` | src/fst/fstapi.c:5407-5472 | when no length left over refers to a signal before its own, only the signal stored last can be mistaken, and it is exactly if the signal its overwritten length refers to has an entry |
| `ChainIndex.QuietStays` | src/fst/fstapi.c:5474-5487 | a signal with an entry, or whose leftover length refers to no signal before it, is not mistaken, and is left as harmless for the next block |
| `ChainIndex.UsedResolved` | src/fst/fstapi.c:5474-5487 | references to earlier signals are followed to their position and length |
| `ChainIndex.UnusedResolved` | src/fst/fstapi.c:5474-5487 | a signal without changes stays without a chain unless mistaken |
| `Section.ReadSection` | src/fst/fstapi.c:5036-5376 | every field of a block comes back from its bytes, found from both ends; frame and times are inflated if stored smaller |
| `Section.Finish` | src/fst/fstapi.c:1762-1783 | the four patches turn the placeholder header into the header of the finished block |
| `Section.ReadTimeSection` | src/fst/fstapi.c:5098-5129 | the time section is found from the end of the block |
| `Section.U64Back` | src/fst/fstapi.c:387-417 | eight bytes, big end first, read back |
| `Merge.Push` | src/fst/fstapi.c:5574-5575 | pushing a signal keeps the buckets disjoint, acyclic lists |
| `Merge.Pop` | src/fst/fstapi.c:5662-5663 | so does taking the first one out |
| `Merge.Merger.AddChain` | src/fst/fstapi.c:5540-5575 | a loaded chain is queued at the time of its first change |
| `Merge.Merger.Step` | src/fst/fstapi.c:5620-5919 | one callback: the signal's next change at the current time, and the signal moves to the bucket of the change after; each step leaves fewer changes |
| `Merge.Merger.Play` | src/fst/fstapi.c:5582-5920 | every signal delivers exactly its chain, nothing lost or repeated, time indices never decreasing |
| `Merge.TimesNeverDecrease` | src/fst/fstapi.c:5582-5600 | callbacks are in time order when the time table is |
| `Merge.DecodeMoved` | src/fst/fstapi.c:5516-5553 | a chain decodes the same wherever it is loaded |
| `Reader.ReadBlock` | src/fst/fstapi.c:5022-5930 | from the bytes of a block to its callbacks: every selected signal gets what was written, no other gets any; in time order; the memory used is the memory recorded when all are selected |
| `Reader.LoadChains` | src/fst/fstapi.c:5498-5578 | selected signals with chains are loaded and queued |
| `Reader.SelectedTotal` | src/fst/fstapi.c:1481 | the chains of the selected signals are at most the recorded memory, and exactly it when all are selected |
| `Reader.SeenOfExactly` | src/fst/fstapi.c:1368-1381 | what is seen of a signal is what was written if and only if all distances fit |
| `Reader.ReportFrame` | src/fst/fstapi.c:5202-5347 | one callback per selected signal with its value when the block begins |
| `ValueAt.ValueReader.GetValue` | src/fst/fstapi.c:6335-6595 | the scan of a signal's chain from where it was left, or from the start: the value found and what is remembered |
| `ValueAt.ValueReader.FindsLatest` | src/fst/fstapi.c:6419-6516 | the value found is that of the last change by that time, or the frame's, unless the remembered position is stranded |
| `ValueAt.ResumedExactly` | src/fst/fstapi.c:6419-6474 | a resumed scan answers as a full one if and only if the remembered position is not stranded after the time asked |
| `ValueAt.RunOfQueries` | src/fst/fstapi.c:6419-6516 | over any run of queries that does not step back before the first change after a hit every answer is that of a full scan |
| `ValueAt.RunExactly` | src/fst/fstapi.c:6419-6516 | every answer of a run of queries is that of a full scan if and only if none steps back before the first change after a hit and then forward again to before what was hit |
| `ValueAt.SteppingBack` | src/fst/fstapi.c:6425-6428 | three queries that step back and get a wrong answer |
| `ValueAt.FullScanIsLast` | src/fst/fstapi.c:6430-6460 | a full scan finds the last change at or before the time |
| `ValueOfRun.AskRun` | src/fst/fstapi.c:5998-6595 | in the file of any run in which time goes forward, for a known signal: unless the time is at a seam, there is no answer exactly if no section was written or the time is before the first section or after the last; otherwise the value is the one the signal had at that time of the run, up to spelling, if the section that contains the time has its times right and the signal's own chain; other sections and signals do not matter |
| `ValueOfRun.CoveredExactly` | src/fst/fstapi.c:6071-6076 | in sections that adjoin, a block covers a time if and only if it lies between the first one's begin and the last one's end |
| `ValueFile.CoveringMeans` | src/fst/fstapi.c:6071-6076 | the covering block is the first whose begin and end times enclose the time |
| `ValueFile.ValueAtTime` | src/fst/fstapi.c:5998-6595 | with nothing remembered, an unknown handle has no value; for a known one the contents of the first block that covers the time are found if and only if the time is not at a seam, and then the answer is the last change by that time, or the frame's |
| `ValueFile.FindBlock` | src/fst/fstapi.c:6052-6101 | the loop over the blocks: it finds the first block whose begin and end times enclose the time, and none only if there is none; the place and length the code goes on with lead to the end of the block if and only if the time is not at a seam |
| `ValueFile.Misread` | src/fst/fstapi.c:6076-6093 | one byte after a block's tag there is no tag, and what is read there for a length is 256 times the block's length and the top byte of its begin time |
| `ValueFile.SeamOfTwo` | src/fst/fstapi.c:6076-6093 | a time shared by two blocks that is at a seam |
| `ValueFile.OpenBlock` | src/fst/fstapi.c:6103-6415 | the reader opened on the bytes of a block, in tables allocated for it, holds its times and frame and the changes there are to see of every signal that is asked for |
| `ValueFile.AgreesWithReplay` | src/fst/fstapi.c:5955-5999 | its answer is the last callback's value by that time, or the frame's if there is none |
| `Varint.ReadBack` | src/fst/fstapi.c:638-656 | an unsigned varint reads back as number and length, wherever it was written |
| `Varint.GetVarint` | src/fst/fstapi.c:420-442 | 32-bit and 64-bit readers: the number modulo the word, and the bytes consumed |
| `Varint.WriteVarint` | src/fst/fstapi.c:638-656 | forward writer |
| `Varint.CopyVarintToLeft` | src/fst/fstapi.c:482-507 | leftward writer: the same bytes, ending where the given position begins |
| `Varint.WordLengths` | src/fst/fstapi.c:641 | five bytes are enough for 32 bits, ten for 64 |
| `Varint.ReadBackSigned` | src/fst/fstapi.c:659-711 | every 64-bit signed number reads back, in at most ten bytes |
| `Varint.Leb128` | src/fst/fstapi.c:638-656 | the bytes of an unsigned number are its groups of seven bits, low ones first, the top bit set on all but the last, none more than needed |
| `Varint.SignedLeb128` | src/fst/fstapi.c:687-711 | those of a signed number likewise, bit 6 of the last byte being the sign |
| `Varint.GetSVarint64` | src/fst/fstapi.c:659-683 | signed reader, sign-extending from the last group |
| `Varint.WriteSVarint` | src/fst/fstapi.c:687-711 | signed writer |
| `FastLz.RoundTrip` | src/fst/fastlz.c:128-160 | compressing and decompressing any input of at least one byte gives it back, at both levels, whatever bytes follow the block |
| `FastLz.Compress` | src/fst/fastlz.c:128-136 | level 1 below 65536 bytes and level 2 from there on; the output is the stream of the greedy parse, restores the input and is at most n + ceil(n/32) bytes |
| `FastLz.CompressLevel` | src/fst/fastlz.c:152-160 | the same for either level |
| `FastLz.SizeBound` | src/fst/fastlz.h:56-60 | that is at most 66 bytes or 5% more than the input |
| `FastLz.WriterRoom` | src/fst/fstapi.c:1544-1553 | the chain writer's 2*wrlen+2 bytes are always enough |
| `FastLz.DocumentedRoom` | src/fst/fastlz.h:56-60 | so is the documented minimum buffer |
| `FastLzDecompress.Decompress` | src/fst/fastlz.c:138-150 | the in-place decoder computes the format's meaning of any bytes, with refusals and overruns |
| `FastLzDecompress.CopyMatch` | src/fst/fastlz.c:476-523 | overlapping copies, the 16-bit ones of x86 included, are byte-by-byte copies |
| `FastLzDecompress.CopyPairs` | src/fst/fastlz.c:500-515 | reading two bytes before writing two, four times in a row and then singly, is copying byte by byte at any distance of at least two |
| `FastLzCompress.CompressBody` | src/fst/fastlz.c:193-416 | table, buffer and literal-run headers patched after the fact: the tokens written are exactly those of the greedy parse, and spell the input |
| `FastLzCompress.FindMatch` | src/fst/fastlz.c:215-302 | the match the parse finds and the table it leaves; every match taken is one, for any hash function |
| `FastLzParse.FindMeans` | src/fst/fastlz.c:219-257 | which match the parse takes, in numbers: a byte repeated four times at level 2, or the table's position up to 8191 or 73724 back with three bytes the same, five from 8191 back on |
| `FastLzParse.PiecesAre` | src/fst/fastlz.c:346-365 | at level 1 a match of up to 264 bytes is one token, a longer one is cut after 262 |
| `FastLzCompress.ExtendMatch` | src/fst/fastlz.c:259-302 | a match ends at the first byte that differs, or as far as the comparisons go |
| `FastLzCompress.EmitMatch` | src/fst/fastlz.c:304-367 | long matches are split, far ones marked |
| `FastLzFormat.ReadWire` | src/fst/fastlz.c:424-474 | a token's bytes read back as the token, the level marker in the first byte aside |
| `FastLzFormat.Replay` | src/fst/fastlz.c:418-547 | decoding the bytes of tokens applies them in order |
| `FastLzFormat.FullBuffer` | src/fst/fastlz.c:439-473 | a full output buffer is not changed by what follows |
| `FastLzFormat.WireIs` | src/fst/fastlz.c:304-367 | a token's bytes in numbers: lengths, distances, the mark and the bias of a far one |
| `FastLzFormat.BlockDecodes` | src/fst/fastlz.c:418-547 | tokens within the ranges of their level, written one after the other and marked with the level, decode to what they spell, whoever made them |
| `FastLzFormat.Refusals` | src/fst/fastlz.c:428-522 | six short blocks the decoder takes or refuses: too much output or input, a repeat from before the beginning, an unknown level |
| `Lz4.RoundTrip` | src/fst/lz4.c:1298-1301 | partial safe decoding of a compressed block followed by any bytes, into a buffer of the original size, gives the original, for every input up to the limit |
| `Lz4.Compress` | src/fst/lz4.c:1461 | a block that restores the input, at most n + n/255 + 16 bytes; nothing for inputs over 0x7e000000 bytes |
| `Lz4.WriterRoom` | src/fst/fstapi.c:1544-1555 | 2*wrlen+2 bytes are enough for chains longer than 32 bytes |
| `Lz4Decompress.Decompress` | src/fst/lz4.c:1115-1290 | the in-place decoder computes the format's meaning of any bytes, error positions included |
| `Lz4Decompress.TableDistances` | src/fst/lz4.c:1141-1142 | for every offset from 1 the tables leave a distance that is a multiple of the offset and at least 8 |
| `Lz4Decompress.FarCopy` | src/fst/lz4.c:209-215 | copying at such a distance is copying at the offset |
| `Lz4Decompress.CopyMatch` | src/fst/lz4.c:1251-1278 | the 4+4 step, the eight-byte strides and their overshoot leave what copying byte by byte would |
| `Lz4Compress.CompressBlock` | src/fst/lz4.c:440-659 | the block spells the input, keeps the end-of-block rules and fits the bound |
| `Lz4Compress.Count` | src/fst/lz4.c:320-342 | the match length is maximal up to the limit |
| `Lz4Compress.Search` | src/fst/lz4.c:502-536 | a match found is an earlier occurrence within 65535 bytes, for any hash function |
| `Lz4Compress.CatchUp` | src/fst/lz4.c:538-539 | a match extended backwards is still one |
| `Lz4Compress.EmitSequence` | src/fst/lz4.c:541-601 | token, literals, offset and length as the format has them |
| `Lz4Format.Replay` | src/fst/lz4.c:1154-1283 | decoding the bytes of sequences applies them in order |
| `Lz4Format.DecodesTo` | src/fst/lz4.c:1149-1195 | with bytes following, a buffer of the exact size makes the last run end the block |
| `Lz4Format.WireIs` | src/fst/lz4.c:541-601 | the bytes of a sequence in numbers: token halves, 15 and 19, the offset low byte first |
| `Lz4Format.BlockDecodes` | src/fst/lz4.c:1149-1290 | any block whose matches begin at least 12 and end at least 5 bytes before the end of the text, with at least 5 last literals, decodes to its text, whoever made it |
| `Lz4Format.Eighteen` | src/fst/lz4.c:1149-1290 | one such block of ten bytes |
| `Lz4Format.Refusals` | src/fst/lz4.c:1149-1288 | short blocks the decoder refuses, and at which byte |
| `Escape.RoundTrip` | src/fst/fstapi.c:6852-6953 | every byte string comes back from its escaped form, which is printable |
| `Escape.BinToEsc` | src/fst/fstapi.c:6852-6890 | the escaped form |
| `Escape.ConvertedLen` | src/fst/fstapi.c:6815-6849 | is as long as predicted |
| `Escape.EscToBin` | src/fst/fstapi.c:6897-6953 | unescaping in place gives what the text means, writing never overtaking reading |
| `Escape.EscapedIs` | src/fst/fstapi.c:6852-6890 | what each byte is escaped as |
| `Escape.ReadIs` | src/fst/fstapi.c:6897-6953 | what `\x`, three octal digits, the letters and any other character are read as |
| `Sampling.PlayIs` | src/CpuTrace.cc:22-56 | playing callbacks gives one sample per falling clock edge, of the last numbers from before it, each read from its own signal's changes; a value stol refuses ends the run |
| `Sampling.OrderIndependent` | src/RegFileTrace.cc:24-62 | the samples do not depend on how callbacks of the same time are ordered, when handles differ and watched signals do not change at a falling edge |
| `Sampling.OneMore` | src/CpuTrace.cc:22-56 | one more callback: a 0 of the clock takes a sample, a 1 none; binary digits set a watched signal's number; a value with an x or z, or of another signal, changes nothing |
| `Sampling.ParseValue` | src/CpuTrace.cc:26-30 | unknown bits are skipped; blanks, a sign and binary digits up to another character are converted to an unsigned 64-bit number, no digits or too many are thrown; a value of digits alone is the sum of the powers of two its ones stand for, if below 2^63 |
| `Sampling.ParseMinusOne` | src/CpuTrace.cc:30 | a minus sign and a one is the largest 64-bit number; a minus sign alone, which is also how the reader spells some one-bit values, is thrown |
| `Sampling.ParseBinary` | src/CpuTrace.cc:30 | binary digits alone mean the sum of the digit at i times 2^(n-1-i), if that is below 2^63, and are thrown otherwise |
| `Sampling.ParseMeans` | src/CpuTrace.cc:30 | blanks, a sign or none, digits and any rest: the weighted sum, taken from 2^64 after a minus, within a signed 64-bit number, or thrown |
| `Sampling.ParseUnknown` | src/CpuTrace.cc:26-28 | a value is unknown exactly if it has an x or a z in it |
| `CpuTrace.CpuTrace.PcChanged` | src/CpuTrace.cc:22-56 | one callback: the trace is the retired instructions among the samples so far |
| `CpuTrace.CpuTrace.Init` | src/CpuTrace.cc:58-84 | all callbacks |
| `CpuTrace.TraceOfLists` | src/CpuTrace.cc:22-56 | the instruction trace is a function of the three signals' own changes |
| `CpuTrace.PcsInOrder` | src/CpuTrace.cc:51-52 | instructions are in time order |
| `RegFileTrace.RegFileTrace.MemChanged` | src/RegFileTrace.cc:24-62 | one callback: the trace is the register writes among the samples so far |
| `RegFileTrace.RegFileTrace.GetValue` | src/RegFileTrace.cc:89-109 | the last write to the register by that time, if any |
| `RegFileTrace.TraceOfLists` | src/RegFileTrace.cc:24-62 | the register writes are a function of the signals' own changes |
| `MemTrace.MemTrace.ProcessSignalChanged` | src/MemTrace.cc:41-119 | one callback: the trace is the bytes stored among the samples so far |
| `MemTrace.MemTrace.StoreLanes` | src/MemTrace.cc:94-117 | one access per enabled byte lane |
| `MemTrace.StoreWrites` | src/MemTrace.cc:94-117 | replaying them writes exactly the bytes a byte, half-word or word store covers within its word, each from its lane |
| `MemTrace.WordStored` | src/MemTrace.cc:94-117 | after a store of a word its four bytes, the little end first, add up to the data modulo 2^32 |
| `MemTrace.HalfStored` | src/MemTrace.cc:94-117 | after a half-word store two bytes add up to the sixteen bits of the data in their lanes |
| `MemTrace.ByteStored` | src/MemTrace.cc:94-117 | after a byte store the byte is the eight bits of the data in its lane |
| `MemTrace.NotStored` | src/MemTrace.cc:94-117 | no other byte changes, and none by what is no store or comes later |
| `MemTrace.ReplayIsMemory` | src/MemTrace.cc:166-189 | replaying the list of bytes is doing the accepted stores to memory in order |
| `MemTrace.MemTrace.GetValue` | src/MemTrace.cc:166-189 | the byte in memory at that time, initial contents included, negative chars narrowed back |
| `MemTrace.TraceOfLists` | src/MemTrace.cc:41-119 | the byte trace is a function of the signals' own changes |
| `Accesses.Scan` | src/RegFileTrace.cc:94-102 | the scan that stops at the first later access finds what replaying all of a time-ordered list up to then leaves |
| `Accesses.ReplayIsLast` | src/MemTrace.cc:176-184 | the last write decides; without one, what was there before |
| `Debugger.Debugger.Execute` | src/gdbstub_sys.cc:134-217 | any run of step, continue and breakpoint edits: the cursor stays in the trace and never goes back, and the registers are always the last writes by the current instruction's time, or 0xdeadbeef |
| `Debugger.Debugger.DoContinue` | src/gdbstub_sys.cc:134-161 | the cursor after continuing, registers refreshed |
| `Debugger.Debugger.DoStep` | src/gdbstub_sys.cc:163-185 | the cursor after a step; at the end -1, and the registers, not refreshed, still those of the last instruction |
| `Debugger.Debugger.UpdateState` | src/gdbstub_sys.cc:43-53 | registers shown at an earlier time become those of now, though registers without a write are skipped |
| `Debugger.Debugger.DoAddBreakpoint` | src/gdbstub_sys.cc:195-205 | the set of breakpoints with one more |
| `Debugger.Debugger.DoDeleteBreakpoint` | src/gdbstub_sys.cc:207-217 | and with one less |
| `Debugger.ContinueStops` | src/gdbstub_sys.cc:136-154 | continuing stops at the least index at or after the cursor with a breakpoint, else at the last |
| `Debugger.ContinueAgain` | src/gdbstub_sys.cc:136-154 | continuing once more does not move |
| `Debugger.SessionCursor` | src/gdbstub_sys.cc:134-217 | in any session, one more command: a step goes to the next instruction or stays at the last, continuing to the first breakpoint from here or the last, and breakpoint commands do not move |
| `Debugger.SessionBreakpoints` | src/gdbstub_sys.cc:195-217 | over any session an address has a breakpoint exactly if it was added, or there at first, and not deleted since |
| `Debugger.OneStep` | src/gdbstub_sys.cc:163-185 | five instructions and one step: the second |
| `Debugger.RegisterShows` | src/gdbstub_sys.cc:43-53 | 0xdeadbeef before any write; one more write shows from its own time on, cut to 32 bits, in its own register |
| `Debugger.WrittenStays` | src/gdbstub_sys.cc:45-50 | a register once written stays written |
| `Debugger.Debugger.constructor` | src/gdbstub_sys.cc:20-33 | the first instruction, no breakpoints, registers of its time |

## Left out

- zlib itself, the pack type `Z` for chains, the gzip wrapper around whole files, and failing or short system calls; files are byte sequences, and memory mapping, seeking and temporary files disappear in them.
- Variable-length string signals, real-valued signals and the endianness of doubles.
- The header, geometry, hierarchy, attribute and blackout blocks, the dump size limit, limiting the time range of a read, and VCD text output.
- The parallel writer, `FST_REMOVE_DUPLICATE_VC`, Judy arrays and the older index formats, none of which this build uses.
- Adding signals while a trace is being written.
- LZ4 dictionaries, streaming and `destSize`; the obsolete entry points; LZ4 without output limits and FastLZ without bounds checks.
- Reads past the end of malformed FastLZ and LZ4 input are reported by the model's decoders as an outcome of their own instead of being undefined.
- Bit operations are written as division and remainder by powers of two.
- The change buffer, `mem_for_traversal` and the bytes of a file grow as sequences; reallocation is not modelled. The slot that holds a list's head and then, during a flush, the chain's position is two variables.
- The value-at-time reader loads each chain when it is first needed, and keeps the block it opened while the times asked for are in it; the model loads the chains of all signals that are to be asked for at once (`ValueFile.OpenBlock`), follows a run of queries within it (`ValueAt.RunOfQueries`), and otherwise finds and opens the block anew.
- What the value-at-time reader makes of the bytes it takes for a block at a seam.
- Writer.Writer.EmitTimeChange: a change buffer beyond 2^30 bytes or 2^32 time indices in one section would wrap the C variables; the contract requires them to stay below.
- RoundTrip.ReportsAll: assumes that time tables are in step and distances fit; the exact conditions are those of RoundTrip.TablesInStep and Chain.RoundTrip.
- TraceFile.ReadFile: assumes that for no selected signal anything is mistaken in the tables kept from block to block or forms are mixed up; the exact condition is that of KeptTables.RunCleanExactly.
- KeptTables.RunClean: its conditions on the sections are enough but not necessary; what is necessary depends on where chains are stored and is stated of the blocks, in KeptTables.RunCleanExactly.
- ValueOfRun.AskRun: says nothing of the last time of a block that is not the last one, which may also be the first time of the next.
- Sampling.ParseValue: std::stol as C defines it for base 2; the prefix `0b`, which newer C libraries also accept, is not a number here.
- `dbg_sys_restart`, which does not refresh the registers; packet framing and command dispatch of the debugger stub; TCP, logging, command line and configuration.
