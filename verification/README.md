# riscv-core-harness: a verified model

This project models, in Dafny, the two hard cores of the harness and its companions, and proves
what they promise over all inputs and all runs.

**The link between platform and core.** `FifoModel` is the dual-clock FIFO with unbounded event
counts: its events are a rising edge of either clock or of both, and a synchronizer that captures a
count in mid-change gets the old or the new one. `AsyncFifo.Fifo` is the RTL's own register file
(wrapped binary counters, Gray codes, two-flop synchronizers, look-ahead flags, status pipeline, the
dual-port RAM), and every clock edge of it is proved to be an event of `FifoModel`; `GrayCode` proves
why sampling a changing Gray code is harmless, `FifoRefinement` why each register computation is
right. `Axi2Ram` is the bridge, `Window` a bridge and a FIFO driven one cycle at a time by the loops
of the simulation driver while the core does anything it likes on the other port, `History` the record
of every cycle of a window that the window's promises are functions of. `Credit` shows that a count
read from the status register is a promise, and that the three cycles between a pop and the next
status sample are exactly enough. `CorePort` is the core's side of a FIFO, a master that holds a
request until it is granted; a status access is granted at once. `Platform` and `Echo` are the message loops of both sides, `Frames` the
protocol between them and the end-to-end theorem on streams. `Session` is the platform program's main
loop on both windows at once, and a whole session of it with the echo firmware: the messages shown
are the lines sent.

**The linked lists of CycleMark.** `SortOrder` defines stable sorting on positions and the bottom-up
merge, `ListItems` the memoising comparators, and `Tour` the order in which the sort visits the items:
that of the list, so that what it caches and feeds into the checksum is the outcome of one walk along
the list. `MergeSort` is the in-place sort on heap nodes, `ListOrder` says when a scrambled list comes
back from a stable sort, `BenchSpec` what core_bench_list does and returns on sequences, with the
search results summed up search by search, and what a whole series of runs leaves behind. `BenchList`
is the same on the heap: find, reverse, splice, remove and undo, and the theorem that the benchmark puts
its list back, with the exact condition on items of equal index.

**Companions.** `Crc` (the checksum as a polynomial remainder), `NumberGrammar` and `CoreState` (the
number classifier and its corrupt/undo passes, and what its sixteen counters count), `Eprintf` (the
formatter against a reference rendering, and what each specifier means from its bytes).

`dafny verify dfyconfig.toml` checks everything.

## How to read the model

- A bus word is its bytes from the lowest address up (`Words`), so payload bytes and words need no
  conversion; only sizes and status words do.
- The registers of one clock domain are one record field of the class `AsyncFifo.Fifo`; the records
  of the bridge's two channels likewise. Each `always_ff` block is an update of such a record.
- `Window` has one class for both directions. Its `Surroundings` are arbitrary constants of the run:
  what the core drives in each cycle, and how each register bit settles that a synchronizer catches
  while it changes. The two windows share only the clock, so in `Session` the window that is not
  being driven catches up afterwards with as many silent cycles as the other one has taken.
- The core is a bus master that stalls until it is granted. In `Echo` this is `CoreLink`: a load of
  the data register returns the next word of the stream or never completes, a store is granted or
  never completes, and every status word tells some level of its FIFO, no matter which; the link
  records which status register was read how often and with what outcome. `CorePort.Load` and
  `CorePort.Store` show, on the registers of the FIFO, that such a master gets the next word of the
  stream or adds one, and gets it within four edges if it is there; `CorePort.LoadStatusA` and
  `CorePort.LoadStatusB` that it gets a status word in the first cycle and what that word tells.
- Polling loops need not end, so they take a bound (`polls`, or `patience` for the status reads of
  the core) after which the run is cut; the simulation itself ends after a fixed time
  (`simulation/sim.cpp:88-108`). All statements hold for every bound and every cut, and every
  contract says when a run may be cut and what it had to go through first: on the platform side each
  poll given up on has read a status word that reported nothing and idled for 50 cycles
  (`Platform.Waited`), and the window's record shows that it did; on the core side the stream or the status reads are used up, or no store is
  granted, and every status read that reported something, but for the last of a cut run, has moved a
  word (`Echo.Used`).
- Loops of the larger C functions are split into small methods, one for each stretch of code.
- What methods compute is a function of the state before the call; where code and such a function
  share a definition, a lemma says what the definition means without naming it: by the pins
  (`AsyncFifo.Fifo.GrantPins`), by the bytes of a script or a format (`Session.SentBefore`,
  `Eprintf.SpecifierMeans`), or by counting (`BenchSpec.SearchesCount`, `CoreState.BenchCrcIs`).
- Byte counts and positions are unbounded where the C types cannot overflow; where a type matters
  (Gray counters, 12-bit status fields, 32-bit counters, size arithmetic near the top of the word
  range, the most negative long) it is written out.

## Where code and documentation differ

- `core_bench_list` (lines 214-218 and 227-231 of `core_list_join.c`) walks the list with `finder` but
  feeds `list->info->data16` to the CRC each time; the model does the same (`BenchList.CrcAlong`).
- `software/defines.h` calls the FIFOs 4095 words deep; the hardware instantiates 128. The model is
  stated for every depth that the RTL's own parameter checks admit.
- The third "scientific" pattern of `core_state.c`, `-87e+832`, is rejected at its letter `e`: an
  exponent needs a dot before it (`CoreState.ThirdScientificPattern`).
- A payload size within one word of 2^XLEN wraps to zero payload words on both sides
  (`Frames.PayloadWordsExact`); the protocol theorems hold for all sizes below.
- After a late BREADY the bridge shows BVALID for one cycle more; an idle bridge may therefore still
  show a response (`Axi2Ram.LateResponse`).
- `core_bench_list` promises the list "back to original state" (lines 150 and 223 of
  `core_list_join.c`). Its last sort is stable and goes by idx alone, and `core_list_init` may give
  several items the same idx, so the promise can fail. What always comes back is each node's item and
  each item's word, in idx order (`BenchList.CoreBenchList`). A caller can tell from the indices alone:
  the order is restored whatever happens in between if and only if no two indices of the sorted list
  are equal (`ListOrder.AlwaysRestored`), and one fruitless search already loses it otherwise
  (`ListOrder.ReversalExactly`, `BenchSpec.FruitlessBench`). Without the sort by data, the outcome is
  known before the call for every list (`BenchSpec.BenchRestores`).
- `core_bench_list` does not update `res->list`, so a later run starts from the old head. That is still
  the first item whatever happens in between if and only if its idx is strictly the least
  (`ListOrder.AlwaysFirst`), which is what `BenchList.Iterate` asks for. `core_list_init` does not ensure
  it: with seed1 = 7 and the default size, item i = 7 gets the idx
  `0x3fff & (((8 & 7) << 8) | (7 ^ 7))`, which is 0, the idx of the head.

## Model

| member | source | states |
|---|---|---|
| GrayCode.GrayToBin | hardware/harness/async_fifo.sv:736-747 | the loop computes, for every width, the parity of the Gray bits from each position up |
| GrayCode.ParitiesInvert | hardware/harness/async_fifo.sv:724-747 | gray_to_bin inverts bin_to_gray for every width |
| GrayCode.GrayInverts | hardware/harness/async_fifo.sv:724-747 | bin_to_gray inverts gray_to_bin for every width |
| GrayCode.GrayStep | hardware/harness/async_fifo.sv:724-727 | the codes of a value and its increment differ in exactly one bit |
| GrayCode.EncodeStep | hardware/harness/async_fifo.sv:1069-1079 | consecutive event counts differ in exactly one code bit, also when the register wraps |
| GrayCode.SampleIsOldOrNew | hardware/harness/async_fifo.sv:830-853 | a Gray register caught in mid-change, each bit old or new, reads as the old or the new count |
| GrayCode.WrapDifference | hardware/harness/async_fifo.sv:924-927 | register subtraction gives the true difference of two counts less than a modulus apart |
| FifoModel.NextInv | hardware/harness/async_fifo.sv:830-1100 | every event keeps: synchronized and snapshot counts lag in order, flags are exact about the snapshot, the status pipeline lags by at most one transfer per stage |
| FifoModel.RunInv | hardware/harness/async_fifo.sv:830-1100 | the invariant holds along every run, counts only grow and pushed words are never lost |
| FifoModel.ReachableSafe | hardware/harness/async_fifo.sv:1160-1230 | in every reachable state at most Depth-1 words are held; port A's status overstates the free space by at most its pushes of the last three edges, port B's the readable words by its pops of the last three |
| FifoModel.FullFlagProgress | hardware/harness/async_fifo.sv:974-1007 | after three port A edges without a pop the full flag is set exactly when the FIFO is at capacity |
| FifoModel.EmptyFlagProgress | hardware/harness/async_fifo.sv:987-1019 | after three port B edges without a push the empty flag is set exactly when no word is left |
| FifoRefinement.CountAfterTransfer | hardware/harness/async_fifo.sv:756-763 | binary counter, Gray counter and RAM address after a transfer all stand for the next count |
| FifoRefinement.Sizes | hardware/harness/async_fifo.sv:178-180 | the FIFO holds one word fewer than the storage has, and the counters run to twice the storage |
| FifoRefinement.OccupancyOfRegisters | hardware/harness/async_fifo.sv:924-927 | the level computed from wrapped registers is the true difference of the counts |
| FifoRefinement.BinaryOf | hardware/harness/async_fifo.sv:822-825 | decoding a synchronized Gray register gives the wrapped count it stands for |
| FifoRefinement.FullNext | hardware/harness/async_fifo.sv:974-982 | the look-ahead full flag is set exactly when the level after this edge's push reaches the capacity |
| FifoRefinement.EmptyNext | hardware/harness/async_fifo.sv:987-995 | the look-ahead empty flag is set exactly when the level after this edge's pop is zero |
| FifoRefinement.StatusPipeline | hardware/harness/async_fifo.sv:1199-1283 | snapshots, level, status word and local response after an edge stand for the pipeline of the unbounded machine |
| FifoRefinement.Count | hardware/harness/async_fifo.sv:830-853 | counters, synchronizer stages and flag after an edge stand for those of the unbounded machine |
| FifoRefinement.PushStored | hardware/harness/async_fifo.sv:178-180 | a push lands in the unused slot: no stored word and not the word last popped is overwritten |
| FifoRefinement.NextStored | hardware/harness/dpram.sv:226-259 | through every event the RAM holds the words from the last popped one on, and a pop addresses the next word |
| FifoStatus.StatusDecodes | software/platform/fifo.h:155-194 | the decoders recover flags and counts from every status word, and the two counts add up to the capacity |
| Dpram.Ram.Write | hardware/harness/dpram.sv:226-236 | the byte loop replaces exactly the enabled bytes of the addressed word |
| Dpram.Ram.EdgeA | hardware/harness/dpram.sv:226-239 | a write changes one word under its byte enables, a read only the registered address |
| Dpram.Ram.EdgeB | hardware/harness/dpram.sv:246-259 | the same for port B |
| AsyncFifo.Fifo.constructor | hardware/harness/async_fifo.sv:1069-1100 | both resets together give the reset state of the unbounded machine |
| AsyncFifo.Fifo.WriteDomain | hardware/harness/async_fifo.sv:974-1079 | a write-clock edge updates all registers of the domain to those of the next abstract state and stores an accepted word |
| AsyncFifo.Fifo.ReadDomain | hardware/harness/async_fifo.sv:987-1100 | a read-clock edge updates all registers of the domain to those of the next abstract state and addresses a popped word |
| AsyncFifo.Fifo.EdgeA | hardware/harness/async_fifo.sv:1069-1079 | an edge of port A alone is an event of the unbounded machine |
| AsyncFifo.Fifo.EdgeB | hardware/harness/async_fifo.sv:1089-1099 | an edge of port B alone is an event; an accepted pop brings the next word to the data pins |
| AsyncFifo.Fifo.EdgeBoth | hardware/harness/async_fifo.sv:830-1100 | simultaneous edges, with every changing bit sampled either way, are an event of the unbounded machine |
| AsyncFifo.Fifo.GrayCodes | hardware/harness/async_fifo.sv:1069-1100 | the exported Gray registers are the codes of the counts before and after the edge |
| AsyncFifo.Fifo.Responses | hardware/harness/async_fifo.sv:1259-1307 | the pins show the reported status, an error with zeros for an invalid access, or, until the next accepted pop, still the word last popped |
| AsyncFifo.Fifo.Grants | hardware/harness/async_fifo.sv:944-969 | a data access is granted exactly in the cycle in which it fires, and only with room or a word: why a master that stalls until granted loses nothing |
| AsyncFifo.Fifo.GrantPins | hardware/harness/async_fifo.sv:944-969 | a port refuses exactly while its flag is set and its pins carry a well-formed data access or nothing; a status access (read up, write down, address 0) is granted in its first cycle, however full or empty the FIFO is |
| AsyncFifo.Drive | hardware/harness/async_fifo.sv:830-1100 | for every interleaving of edges and requests from reset, the words pushed are those the ticks present and the full flag lets in, the popped words are a prefix of them, and 0 <= w - r <= Depth-1 |
| Axi2Ram.Bridge.Edge | hardware/harness/axi2ram.sv:166-350 | both channels advance together |
| Axi2Ram.Handshakes | hardware/harness/axi2ram.sv:166-350 | whatever the master does, AWREADY, WREADY and BVALID are up only in their own phases and never together, and ARREADY never with read data |
| Axi2Ram.LateResponse | hardware/harness/axi2ram.sv:166-239 | for a BREADY that comes after any number of edges: BVALID stays up until then and for one cycle more, the bridge already being idle |
| Axi2Ram.BeatSizes | hardware/harness/axi2ram.sv:341-341 | the address of a burst advances by 1, 2, 4 or 8 bytes for the sizes 0 to 3 |
| Credit.PushCredit | hardware/harness/async_fifo.sv:1199-1214 | promised pushes find the full flag clear whatever the reader does, and a status sampled three quiet edges after the last push is such a promise |
| Credit.PopCredit | hardware/harness/async_fifo.sv:1217-1232 | promised pops find the empty flag clear whatever the writer does, and a status sampled three quiet edges after the last pop is such a promise |
| Credit.StatusReports | software/platform/fifo.h:179-194 | the count decoded from the bytes of a status word is the count the pipeline holds |
| Credit.NoSlack | hardware/harness/async_fifo.sv:1217-1232 | for every capacity: with only two quiet edges a status word can report a word that is gone |
| Credit.NoSlackLoss | hardware/harness/async_fifo.sv:1217-1232 | for every capacity: the pop made on that status word finds the empty flag set, as long as nothing more is pushed |
| History.LoggedNext | hardware/harness/async_fifo.sv:830-1100 | every cycle extends the record, which leads from reset to the present state and carries the core's requests and the credit, quiet cycles and fruitless status words they amount to |
| History.LoadsArePopped | hardware/harness/async_fifo.sv:1217-1232 | on the platform-to-core link the loads that the core's pins ask for and that are granted have returned exactly the popped words, in order |
| History.StoresArePushed | hardware/harness/async_fifo.sv:1199-1214 | on the core-to-platform link the stores that the core's pins ask for and that are granted have brought exactly the pushed words, in order |
| CorePort.WordsSeenNext | hardware/harness/async_fifo.sv:830-853 | whatever is pushed meanwhile, the words of now are seen by port B after three of its edges |
| CorePort.SlotsSeenNext | hardware/harness/async_fifo.sv:830-853 | whatever is popped meanwhile, the slots of now are seen by port A after three of its edges |
| CorePort.Load | hardware/harness/async_fifo.sv:944-969 | a load held until granted returns exactly the next word of the stream, and within four edges if a word is there, whatever the other port does |
| CorePort.Store | hardware/harness/async_fifo.sv:944-969 | a store held until granted adds exactly its word, and within four edges if a slot is free, whatever the other port does |
| CorePort.LoadStatusB | software/firmware/common/fifo.h:59-65 | a status load on port B is granted in its first cycle, moves nothing, and decodes to the level the status pipeline held, which exceeds the true one by at most the pops of the last three edges |
| CorePort.LoadStatusA | software/firmware/common/fifo.h:72-78 | the same on port A; the level falls short of the true one by at most the pushes of the last three edges |
| Window.Window.Cycle | simulation/sim.cpp:88-135 | one cycle of bridge and FIFO: the core's port sees the request its pins carry in that cycle, a promised transfer fires with the right word, nothing else moves the platform's stream, a status strobe returns the reported count, and the cycle goes into the record |
| Window.Window.AddressPhase | software/platform/axi4.cpp:447-462 | the AWREADY loop ends; two silent cycles, address latched |
| Window.Window.DataPhase | software/platform/axi4.cpp:464-478 | the WREADY loop ends; the first of two cycles strobes the word once |
| Window.Window.ResponsePhase | software/platform/axi4.cpp:480-487 | the BVALID loop ends; the bridge is idle again |
| Window.Window.WriteBeat | software/platform/axi4.cpp:445-493 | five cycles with one strobe on the third; a promised push appends its word |
| Window.Window.ReadAddressPhase | software/platform/axi4.cpp:638-653 | the ARREADY loop ends; two silent cycles, address latched |
| Window.Window.ReadDataPhase | software/platform/axi4.cpp:655-663 | the RVALID loop ends; exactly one strobe although RREADY is up for two cycles; the data is the popped word or the reported status |
| Window.Window.ReadBeat | software/platform/axi4.cpp:636-669 | four cycles with one strobe on the third; a status read at least one cycle after the last transfer beat renews the credit with the count it returns |
| Window.Window.Axi4Write | software/platform/axi4.cpp:430-496 | return codes; an n-word write produces exactly the beats of its words and leaves the bridge idle; promised pushes append all words in order |
| Window.Window.Axi4Read | software/platform/axi4.cpp:621-672 | return codes; an n-word read produces exactly its beats; promised pops return the next words in order |
| Window.AddrAtIs | software/platform/axi4.cpp:445-493 | beat k of an incrementing transfer goes to the address k words up, modulo the range of a word; of a fixed one to the same address |
| Window.WriteStrobes | software/platform/axi4.cpp:445-493 | 5n cycles and exactly n write strobes, word k at beat address k |
| Window.ReadStrobes | software/platform/axi4.cpp:636-669 | 4n cycles and exactly n read strobes: no read pops twice |
| Platform.RegionsMapped | software/defines.h:148-171 | register addresses at any 64 KiB region select status and data register for every FIFO size |
| Platform.FifoStatusWord | software/platform/fifo.h:63-94 | between platform accesses a status read always yields a valid credit: the count it reports |
| Platform.PtcFifoWrite | software/platform/fifo.h:108-120 | as many pushes as the credit covers all arrive, in order |
| Platform.CtpFifoRead | software/platform/fifo.h:134-146 | as many pops as the credit covers return the next words, in order |
| Platform.IdleStep | software/platform/platform.cpp:92-102 | 50 idle cycles pass; they move nothing and keep the credit |
| Platform.WritePtcWords | software/platform/platform.cpp:113-137 | however the free counts cut the transfer into chunks, exactly the words are pushed, never into a full FIFO; it stops early only when a status word after the last poll allowed still reports no room, and each poll has cost 50 cycles |
| Platform.WritePtcFramedMessage | software/platform/platform.cpp:221-237 | the pushed words are a prefix of the encoded frame, and all of it unless the FIFO has refused to take more for more than the polls allowed |
| Platform.SendLine | software/platform/platform.cpp:357-378 | a line of input is sent as a frame with its final NUL, in full unless the FIFO has refused to take more for more than the polls allowed |
| Platform.SendMessages | software/platform/platform.cpp:341-378 | with any number of cycles between messages, the pushed words are a prefix of the encoded messages, and all of them unless the FIFO has refused to take more for more than the polls allowed |
| Platform.NextCtpWord | software/platform/platform.cpp:143-149 | polling, then one pop that returns the next word: never from an empty FIFO; given up only when no poll allowed has found a word |
| Platform.DrainCtp | software/platform/platform.cpp:160-180 | exactly the words of an oversized payload are popped, all of them while polls remain |
| Platform.ReadCtpPayload | software/platform/platform.cpp:183-206 | the buffer receives exactly the next words, all of them while polls remain; the rest of it stays |
| Platform.ReadCtpFramedMessage | software/platform/platform.cpp:139-210 | exactly one frame is popped while polls remain; success iff it fits; size and buffer are the frame's |
| Platform.ReceiveMessages | software/platform/platform.cpp:384-409 | with any number of cycles between frames, the messages shown are what the popped words decode to, for every chunking and every cut; as many as asked for while polls remain |
| Platform.SendSession | software/platform/platform.cpp:341-378 | from reset, for every FIFO size, core behaviour and synchronizer outcome: what the core has popped is a prefix of the encoded messages, and all are pushed unless the FIFO has refused to take more for more than the polls allowed; the popped words are those that the core's pins have asked for and been granted, cycle by cycle |
| Platform.ReceiveSession | software/platform/platform.cpp:384-409 | from reset: what is shown is what the popped words decode to, and those are a prefix of the core's pushes; all rounds are served while polls remain; the pushed words are those that the core's pins have stored, cycle by cycle |
| Frames.AlignedQuotient | software/platform/platform.cpp:72-75 | clearing the low bits of a sum does not change its word count |
| Frames.PayloadWordsExact | software/firmware/echo/main.c:43-46 | the computed word count is the rounded-up quotient if and only if the size is at most 2^XLEN minus a word; beyond that it is zero |
| Frames.CeilIsPayload | software/platform/platform.cpp:157-158 | the receiver's formula and AlignUp give the same word count for every size |
| Frames.ChunkFlattens | software/platform/platform.cpp:221-237 | the padded words give the payload back, byte for byte |
| Frames.Pad | software/platform/platform.cpp:229-232 | padding the buffer in place gives exactly the words of the payload, also for a size whose word count wraps to zero |
| Frames.Fill | software/platform/platform.cpp:357-372 | bytes put into the word buffer are its first bytes |
| Frames.DecodeFirst | software/firmware/echo/main.c:118-148 | the first frame of a stream is read back byte for byte and the next word is the next header |
| Frames.DecodePrefix | software/firmware/echo/main.c:118-148 | every prefix of an encoded stream decodes to a prefix of its frames, oversized ones drained exactly |
| Frames.DecodeWhole | software/firmware/echo/main.c:176-190 | decoding continues at frame boundaries: whole frames and the rest decode independently |
| Frames.ReportDecodes | software/platform/platform.cpp:139-210 | the result of reading one frame adds exactly the message that its words decode to |
| Frames.AnswersWhole | software/firmware/echo/main.c:176-190 | answering continues at frame boundaries: whole frames and the rest are answered independently |
| Frames.AnswersOfEncoded | software/firmware/echo/main.c:176-190 | of whatever part of an encoded stream has arrived, the answers are exactly the payloads decoded from it, encoded again |
| Frames.EndToEnd | software/platform/platform.cpp:113-237 | platform to echo and back, on streams cut anywhere: the platform decodes a prefix of the fitting frames it sent, byte for byte, and all of them once everything has arrived |
| Echo.PtcFifoRead | software/firmware/common/fifo.h:92-102 | loads return the next words of the stream into the buffer, all of them unless the stream is used up |
| Echo.CtpFifoWrite | software/firmware/common/fifo.h:116-126 | stores append the words, all of them unless no store is granted any more |
| Echo.PtcReadWordsBlocking | software/firmware/echo/main.c:53-74 | the buffer receives exactly the next words whatever the counts say; all of them unless the stream or the run is used up |
| Echo.PtcDrainWordsBlocking | software/firmware/echo/main.c:99-107 | exactly the given number of words is taken unless the stream or the run is used up |
| Echo.PtcReadFrameBlocking | software/firmware/echo/main.c:118-148 | exactly one frame is taken unless the stream or the run is used up; success iff it fits; size and buffer are the frame's |
| Echo.CtpWriteWordsBlocking | software/firmware/echo/main.c:76-97 | exactly the words are appended whatever the counts say; all of them unless no store is granted any more or the run is used up |
| Echo.CtpWriteFrameBlocking | software/firmware/echo/main.c:156-174 | header and padded payload are appended, for every size, also one whose word count wraps; all of it unless no store is granted any more or the run is used up |
| Echo.NextFrame | software/firmware/echo/main.c:176-190 | a frame after complete ones adds exactly its own answer and its own message |
| Echo.EchoFrame | software/firmware/echo/main.c:176-190 | one turn answers a fitting frame with the same frame and a larger one with nothing, in full unless the stream, the stores or the run are used up |
| Echo.EchoLoop | software/firmware/echo/main.c:176-190 | for any stream of words: what is sent is always a prefix of the answers to what was taken, and all of them while stores are granted; with enough turns the whole stream is taken and answered; every status read on record that reports something has moved a word, but for the last, and only the incoming FIFO is asked while no answer is due |
| Session.SendTurn | software/platform/platform.cpp:343-378 | sending a line leaves the other link untouched while its cycles go by |
| Session.ReceiveTurn | software/platform/platform.cpp:380-436 | without input, a message is read if the status word tells of one, else 50 cycles go by; the other link stays untouched |
| Session.MainLoop | software/platform/platform.cpp:341-437 | for every sequence of polls: the inputs before the first one that is empty or two bytes with a q in front go out as lines, in order, and no others, the messages shown are what was popped, every poll without input shows a message or finds none, and the loop stops early only in a transfer whose FIFO has had nothing to move for more than the polls allowed |
| Session.SentBefore | software/platform/platform.cpp:343-378 | if poll k is the first whose input is empty or two bytes long with first byte 0x71, the lines sent are exactly the inputs before it, in order, and none of them is such an input |
| Session.Run | software/platform/platform.cpp:330-440 | the same from reset, for every FIFO size, core behaviour and synchronizer outcome on both links, which stay in step; what the core has popped and pushed is what its pins have asked for and been granted |
| Session.EchoedLines | software/platform/platform.cpp:341-437 | lines of up to 1023 bytes always fit both buffers: whatever part has got how far, the messages decoded are the lines sent as far as they have come back |
| Session.EchoSession | software/firmware/echo/main.c:176-190 | platform program and echo firmware from reset: if the firmware's loads and stores are the accesses that the core's pins ask for and are granted, the messages shown are a prefix of the lines sent, none too large, and all of them once every line is sent and both FIFOs are drained |
| ListItems.Compute | software/firmware/cyclemark/core_list_join.c:78-107 | which kernel runs with which parameter for each word; one call of it, and its checksum field keeps the first result that is not zero |
| ListItems.ComputedBy | software/firmware/cyclemark/core_list_join.c:76-107 | bits 2..0 zero: the state kernel with bits 6..3 in both nibbles of its parameter, but at least 0x22; one: the matrix kernel with that parameter; otherwise the word itself |
| ListItems.CalcFunc | software/firmware/cyclemark/core_list_join.c:67-115 | the first call caches the low seven bits of the value, folds all sixteen into the CRC and counts the kernel call; later calls return it and change nothing; the upper byte never changes, and a word that asks for no kernel keeps its low seven bits |
| ListItems.CmpComplex | software/firmware/cyclemark/core_list_join.c:117-122 | words and results are those after a visit to the first item and then to the second, also when they are one; orders by the cached values; words that ask for no kernel keep their low seven bits |
| ListItems.CmpIdx | software/firmware/cyclemark/core_list_join.c:129-137 | orders by idx; with NULL it regenerates both low bytes, otherwise it writes nothing |
| ListItems.RegeneratedUnique | software/firmware/cyclemark/core_list_join.c:129-137 | a regenerated word is determined by its upper byte |
| Tour.TouredAt | software/firmware/cyclemark/core_list_join.c:67-122 | a walk writes an item once, when it first comes to it, with the value of that moment; other words stay |
| Tour.TouredCrc | software/firmware/cyclemark/core_list_join.c:108-108 | the results' CRC takes in every value computed on the walk, once each, in the order of the list |
| Tour.PlainComputations | software/firmware/cyclemark/core_list_join.c:102-108 | for different uncached items that ask for no kernel these values are their words |
| SortOrder.StableOrderIs | software/firmware/cyclemark/core_list_join.c:477-496 | the reference order is the only arrangement of all positions that is sorted and stable |
| SortOrder.SortedUnique | software/firmware/cyclemark/core_list_join.c:477-496 | two stably sorted arrangements of the same positions are equal |
| SortOrder.PassStep | software/firmware/cyclemark/core_list_join.c:512-580 | merging two neighbouring runs keeps runs sorted, stable, sized and visited |
| SortOrder.NextPass | software/firmware/cyclemark/core_list_join.c:583-595 | after a pass the runs are those of the doubled run length |
| SortOrder.LastPass | software/firmware/cyclemark/core_list_join.c:583-595 | a single remaining run is the stable order, every element visited, odd leftovers included |
| MergeSort.StepOver | software/firmware/cyclemark/core_list_join.c:515-526 | walks at most insize nodes and counts them |
| MergeSort.Choose | software/firmware/cyclemark/core_list_join.c:535-563 | takes the next node from the run that merging prescribes, ties from the left |
| MergeSort.MergeTwo | software/firmware/cyclemark/core_list_join.c:531-576 | merges two runs of heap nodes onto the output list |
| MergeSort.Pass | software/firmware/cyclemark/core_list_join.c:504-582 | one pass merges all neighbouring runs, for any number of them |
| MergeSort.CoreListMergesort | software/firmware/cyclemark/core_list_join.c:497-596 | the same nodes are relinked into the one stable order by their final keys, for the program's two comparators and every other total order on data16 and idx, ending in null; with two or more nodes the words and results are those of visiting every item once in the order of the list, odd leftovers included; a single node is not compared |
| BenchList.CoreListFind | software/firmware/cyclemark/core_list_join.c:430-448 | the first matching node, or null when none matches |
| BenchList.CoreListReverse | software/firmware/cyclemark/core_list_join.c:463-474 | the same nodes linked in reverse |
| BenchList.Splice | software/firmware/cyclemark/core_list_join.c:184-190 | the found node's successor moves behind the head, all else keeps its order |
| BenchList.CoreListRemove | software/firmware/cyclemark/core_list_join.c:374-386 | the node after the item leaves the chain and the two exchange their data |
| BenchList.CoreListUndoRemove | software/firmware/cyclemark/core_list_join.c:404-415 | chain and data are as before the removal |
| BenchList.CrcAlong | software/firmware/cyclemark/core_list_join.c:214-218 | one CRC step of the head's word for every node from the finder on |
| BenchList.SortList | software/firmware/cyclemark/core_list_join.c:202-205 | sorting a list in any order gives all its nodes in non-decreasing key order, tied ones as they were; words and results are those of one walk along the list as it came |
| BenchList.FindLoop | software/firmware/cyclemark/core_list_join.c:166-200 | order, result and what to look for next are those of the searches on sequences, for every number of them |
| BenchList.FindAll | software/firmware/cyclemark/core_list_join.c:164-200 | the result is the sum over the searches, modulo 2^16, and the idx looked for last is the starting one plus their number, up to the overflow |
| BenchSpec.LowByteIs | software/firmware/cyclemark/core_list_join.c:168-168 | search i looks for the byte i modulo 256 |
| BenchSpec.SearchesGo | software/firmware/cyclemark/core_list_join.c:166-199 | the order after m searches turns on the first item with idx + i, while that does not overflow, or with low byte i modulo 256; the next idx is the starting one plus m |
| BenchSpec.SearchesCount | software/firmware/cyclemark/core_list_join.c:171-182 | found is the number of searches for which some item fits, missed the number of the others, modulo 2^16, and likewise the bits taken: bit 9 of a found word with bit 0 set, bit 8 of the second word of the reversed list otherwise |
| BenchSpec.SearchesAddUp | software/firmware/cyclemark/core_list_join.c:166-200 | the result is the sum over all searches, modulo 2^16: four for an item found, less one otherwise, and the bit |
| BenchSpec.SortedWords | software/firmware/cyclemark/core_list_join.c:202-205 | the sort by data keeps cached words, and the low seven bits of words that ask for no kernel |
| BenchSpec.SortedByOwnValues | software/firmware/cyclemark/core_list_join.c:202-205 | a list of words that ask for no kernel comes out in the stable order of the values its words had before |
| BenchSpec.SortedCrc | software/firmware/cyclemark/core_list_join.c:108-108 | the sort by data feeds the value of every item that had none cached into the results' CRC, once, in the order of the list |
| BenchSpec.PlainCrc | software/firmware/cyclemark/core_list_join.c:102-108 | for different uncached items that ask for no kernel: it feeds their words in the order of the list |
| BenchList.RemoveAndUndo | software/firmware/cyclemark/core_list_join.c:206-222 | remove, search and undo leave chain and items as they were; the checksum is that of the shortened list: one step of the head's word for each item from the first match on, or from the second if none matches |
| BenchList.SecondSort | software/firmware/cyclemark/core_list_join.c:223-225 | sorting by idx with NULL puts the items in idx order, ties as they were, and restores every word |
| ListOrder.SortedIsOriginal | software/firmware/cyclemark/core_list_join.c:223-225 | with strictly increasing indices the sorted arrangement is the identity |
| ListOrder.TiesStay | software/firmware/cyclemark/core_list_join.c:223-225 | items of equal idx leave the sort in the order in which it found them |
| ListOrder.RestoredExactly | software/firmware/cyclemark/core_list_join.c:148-151 | the last sort restores a sorted list if and only if it finds items of equal idx in their original order |
| ListOrder.FirstExactly | software/firmware/cyclemark/core_list_join.c:152-156 | the first item is first again if and only if the last sort finds no item of equal idx before it |
| ListOrder.ReversalExactly | software/firmware/cyclemark/core_list_join.c:148-151 | a sorted list comes back from its own reversal if and only if no two indices are equal |
| ListOrder.AlwaysRestored | software/firmware/cyclemark/core_list_join.c:148-151 | every scrambling of a sorted list is undone by the last sort if and only if no two indices are equal |
| ListOrder.AlwaysFirst | software/firmware/cyclemark/core_list_join.c:152-156 | the head of a sorted list is first again after every scrambling if and only if its index is strictly least |
| BenchSpec.FruitlessBench | software/firmware/cyclemark/core_list_join.c:148-236 | after a single search that finds nothing and no sort by data, a sorted list comes back if and only if no two indices are equal |
| BenchSpec.BenchRestores | software/firmware/cyclemark/core_list_join.c:148-236 | without the sort by data, a sorted list comes back if and only if the searches, a function of the list before the call, leave items of equal index in order |
| BenchSpec.BenchUnique | software/firmware/cyclemark/core_list_join.c:152-236 | order, words, indices, results and kernels before the call determine all that comes out: what is cached, both orders, the results and the checksum |
| BenchSpec.RunsUnique | software/firmware/cyclemark/core_main.c:63-73 | the same for any number of runs in turn |
| BenchList.CoreBenchList | software/firmware/cyclemark/core_list_join.c:152-236 | from any order of the list, for any kernels: each node has its item and each item its word back, in idx order, ties as the last sort found them; the order in between, what the first sort caches, the results' fields and the returned checksum are those of the run on sequences |
| BenchList.BenchAndFold | software/firmware/cyclemark/core_main.c:65-68 | after one run the results are those the comparisons left, with one fold of the returned checksum on top of their CRC |
| BenchList.Iterate | software/firmware/cyclemark/core_main.c:52-75 | with a head that is strictly first, any number of iterations leaves the list in idx order with every item and word in place, and, without ties, every link; the results, cleared at the start, are those of runs with 1 and -1 in turn, each folded into the CRC, and crclist is the CRC of the first two |
| Crc.Crcu8 | software/firmware/cyclemark/core_util.c:169-196 | the bit loop feeds the byte, low bit first |
| Crc.Crcu16 | software/firmware/cyclemark/core_util.c:199-204 | the fold of the two little-endian bytes |
| Crc.Crcu32 | software/firmware/cyclemark/core_util.c:205-210 | the fold of the four little-endian bytes |
| Crc.BytesOf16 | software/firmware/cyclemark/core_util.c:199-204 | the two bytes fed are all of the value, low byte first |
| Crc.BytesOf32 | software/firmware/cyclemark/core_util.c:205-210 | so are the four |
| Crc.FeedBytes | software/firmware/cyclemark/core_util.c:169-210 | feeding a concatenation is feeding its parts in turn |
| Crc.FeedLinear | software/firmware/cyclemark/core_util.c:169-196 | XOR-linear in message and initial value, for messages of any length |
| Crc.CrcIsRemainder | software/firmware/cyclemark/core_util.c:169-196 | the checksum is the reflected remainder modulo x^16+x^15+x^2+1, and nothing else is |
| NumberGrammar.FoldMeets | software/firmware/cyclemark/core_state.c:209-322 | after each text the machine is in a state if and only if the text has that state's form: integer, float, scientific, or a definite part of one |
| NumberGrammar.RejectsExactly | software/firmware/cyclemark/core_state.c:209-322 | INVALID if and only if no continuation of the text is a number |
| NumberGrammar.CharClasses | software/firmware/cyclemark/core_state.c:191-196 | digits, signs, dot and e by their codes; no character is in two classes |
| CoreState.Switch | software/firmware/cyclemark/core_state.c:222-316 | next state and transition counters for every state and symbol |
| CoreState.CoreStateTransition | software/firmware/cyclemark/core_state.c:209-322 | the state is that of the text up to comma or NUL; the pointer stops behind the comma, at the NUL, or just past the first offending byte |
| CoreState.NextTokenAdvances | software/firmware/cyclemark/core_state.c:209-322 | each call advances on non-NUL input and never passes the first NUL |
| CoreState.ScanBlock | software/firmware/cyclemark/core_state.c:63-71 | the scan ends and counts every token's final state |
| CoreState.FinalCount | software/firmware/cyclemark/core_state.c:63-71 | a final count is the number of tokens that end in the state, in 32 bits |
| CoreState.TransitionCount | software/firmware/cyclemark/core_state.c:222-316 | a transition count is the number of symbols read in the state, for INT and FLOAT of those that leave it, and for INVALID of those that reject from START or SCIENTIFIC |
| CoreState.CorruptBlock | software/firmware/cyclemark/core_state.c:75-83 | exactly the stepped bytes that are not separators are XORed |
| CoreState.SteppedIs | software/firmware/cyclemark/core_state.c:75-83 | the bytes a pass touches are those at the multiples of the step |
| CoreState.UndoRestores | software/firmware/cyclemark/core_state.c:95-103 | with equal seeds the block is restored if and only if the low byte is 0 or no stepped byte originally equals ',' XOR that byte |
| CoreState.NulSurvives | software/firmware/cyclemark/core_state.c:72-83 | with step >= 2 one of the two final NUL bytes survives corruption |
| CoreState.CoreInitState | software/firmware/cyclemark/core_state.c:132-189 | the block is as many selected patterns with separators as leave two bytes, then NUL bytes |
| CoreState.PatternKinds | software/firmware/cyclemark/core_state.c:112-189 | the low three bits of a seed choose four bytes of an integer, eight of a float, of a scientific number but for one, or of a text that is no number |
| CoreState.CoreBenchState | software/firmware/cyclemark/core_state.c:46-111 | the checksum over the counts of both scans, and the block after both passes |
| CoreState.BenchCrcIs | software/firmware/cyclemark/core_state.c:104-111 | the checksum is one feed of sixteen counters in the order of the states, each the number of tokens or of counted symbols of both scans |
| CoreState.InitAndBench | software/firmware/cyclemark/core_state.c:46-189 | on a fresh block both scans end inside it, and equal seeds restore it exactly under the condition above |
| CoreState.ThirdScientificPattern | software/firmware/cyclemark/core_state.c:117-118 | the pattern -87e+832 is rejected at its fourth byte |
| Eprintf.Context.Ewc | software/firmware/common/eprintf.c:80-94 | a character is appended unless 511 are stored; NUL bytes are stored but not counted |
| Eprintf.Convert | software/firmware/common/eprintf.c:105-119 | the digit loop writes the number's digits and terminator inside a scratch buffer of 3*sizeof(long)+2 bytes |
| Eprintf.Context.Euts | software/firmware/common/eprintf.c:105-127 | prints the digits of every unsigned long in base 10 and 16 |
| Eprintf.Context.Eits | software/firmware/common/eprintf.c:136-153 | prints every long, the most negative included |
| Eprintf.DigitsReadBack | software/firmware/common/eprintf.c:105-127 | printed decimal and hexadecimal digits parse back to the number |
| Eprintf.SignedReadBack | software/firmware/common/eprintf.c:136-153 | printed signed decimals parse back to the number |
| Eprintf.DigitsPrinted | software/firmware/common/eprintf.c:105-127 | printed numbers have only digits of the base and no zero in front |
| Eprintf.DigitsFit | software/firmware/common/eprintf.c:108-108 | no number needs more than the scratch buffer |
| Eprintf.PutArg | software/firmware/common/eprintf.c:226-268 | each conversion prints the rendering of its argument |
| Eprintf.FormatStep | software/firmware/common/eprintf.c:210-276 | each turn of the loop consumes one specifier or character and writes its rendering |
| Eprintf.Format | software/firmware/common/eprintf.c:210-276 | the loop writes exactly the reference rendering of format and arguments |
| Eprintf.SpecifierMeans | software/firmware/common/eprintf.c:226-268 | from the bytes of %c, %s, %d, %u, %x, %ld, %lu, %lx: the next argument is written as the byte, the text ("(null)" for none), or digits that read back to it in base 10 or 16; the format goes on behind |
| Eprintf.LiteralMeans | software/firmware/common/eprintf.c:210-276 | %% is one percent sign; other bytes and unknown specifiers stand for themselves |
| Eprintf.FormatMeans | software/firmware/common/eprintf.c:186-304 | for every text without percent sign, specifier and fitting argument, and text behind: the payload is text, rendering, text and NUL, as long as 511 characters hold it |
| Eprintf.Finish | software/firmware/common/eprintf.c:280-291 | terminated and padded in place, the buffer is the words of the payload |
| Eprintf.Eprintf | software/firmware/common/eprintf.c:186-304 | one frame is sent, its payload the rendering cut to 511 characters plus NUL, its header the exact length; the count is returned |

## Left out

- The MPFS FIFO branch, vendor RAM and FIFO macros, `NoPerfectMemory` latency, reset of one domain only, and scholar_riscv_core: vendor or external blocks, or documented as unsupported.
- The response-valid and error outputs of the FIFO's storage, which perfect memory makes constant or which nobody reads.
- AXI bursts, IDs, response codes, and concurrent reads and writes on one bridge; bridge properties are stated for this repository's driver.
- Liveness with several messages in flight: platform and echo both write blocking, so each can wait for the other.
- Linux device mapping, the select and read calls themselves, logging, tracing, argument parsing, firmware loading, memory dispatch, UART and build scripts.
- core_matrix.c, core_main.c beyond `iterate`, core_list_init and core_list_insert_new; inside calc_func the state and matrix kernels are an arbitrary function (`Results.bench`).
- spike_parser.cpp, simulation_vs_spike.cpp, the ISA generators and YAML tests.
- BenchList.CoreBenchList: the kernels are an arbitrary function of parameter and number of the call; what they cache, order and checksum are stated in terms of it. Lists are at most 2^30 nodes long, so that run lengths fit 32 bits.
- BenchList.Iterate: a head tied with another item may be overtaken, and the next run would start in the middle of the list; runs on such a part of the list are not modelled.
- MergeSort.CoreListMergesort: the list is not empty, as the code requires (an empty one leaves `tail` null at line 582).
- Eprintf.Eprintf: no NUL is passed to %c, since count and byte_index would then diverge; the Spike build that returns at once is not modelled.
- Window.Window.Axi4Write: the size check of the driver is omitted, because a whole number of words is always aligned; a null data pointer is an empty sequence.
- Platform.ReceiveMessages: printing and the local re-termination of the received text are left out, here and in `Session.MainLoop`; what select and read return is the parameter `script`.
- Session.EchoSession: that the firmware's loads and stores are the accesses granted to the core's pins is a hypothesis, since the core's pipeline is not part of this model; neither is its timing.
