# Verified models of len-fpga's protocols

This project models, in Dafny, the parts of the len-fpga system whose correctness rests on an argument longer
than one line of Verilog or C, and proves that argument. `dafny verify dfyconfig.toml` checks all of it.

| Files | What they model |
|---|---|
| `Fifo`, `FifoSpec`, `GrayCode`, `Powers` | the dual-clock FIFO with Gray-coded pointers |
| `WriteBridge`, `ReadBridge`, their `Spec` and `Flow` files, `Pointers`, `AxiResponse`, `Histories` | the AXI4-Lite to Wishbone bridges |
| `Arbiter` | the two-master Wishbone arbiter |
| `Adapter`, `AdapterSpec` | both bridges and the arbiter wired together |
| `Plic`, `PlicSpec`, `Tournament` | the interrupt controller |
| `Crc32`, `Folds` | the nibble-table CRC-32 and the bit-serial CRC it stands for |
| `SerialLoad`, `Boot`, `SerialImages`, `Bytes` | the boot loader that takes two images from the UART, the firmware around it, and the script that sends them |
| `Pwm`, `PwmSpec` | the bit-reversed PWM output |

Hardware is modelled twice. A specification (`FifoSpec`, `WriteBridgeSpec`, ...) describes one clock with counts that
never wrap and histories that are never forgotten, and its lemmas are about whole runs of such clocks: what comes out
is what went in, and everything that went in does come out. A class (`Fifo`,
`WriteBridge`, ...) has the registers of the source; each always block is a method, and every clock edge is proved to
take the registers to those of the specification's next state. All widths and depths are parameters.

## What the proofs found

* **FIFO, read port.** The memory's output is its word at the *latched* read address, so a popped word stays on `dout`
  only until the writer reuses its slot. `PoppedWordShownIff` gives the exact condition; two write edges can never
  violate it, and `ThirdWriteEdgeOverwrites` is a run with a FIFO of two words in which the third does. Reading the
  head before popping it is always safe (`HeadStaysShown`).
* **Write bridge, ready flags.** The comments of `axilwr2wbsp.v` at lines 224-225 and 259-260 say the flags drop when
  the FIFO becomes full. The expression used (`!=` and `==` joined by `&&`, where the read bridge has `||`) is stricter:
  it drops them whenever the two pointers are on different laps (`LooksRoomyMeansSameLap`, `ReadyDropsEarly`). A flag
  that is down with nothing held is up again after one clock on which the bus moves and the buffer has room
  (`ReadyComesBack`), so this costs throughput only.
* **PLIC, completions.** A completion is accepted from any target and in any state. The two flip-flops of a gateway
  follow the claim/complete protocol exactly under the condition of `GatewayFollowsProtocolIff`. Completing a source
  that is still pending keeps its interrupt exactly when the input is still high one clock later
  (`EarlyCompletionLosesInterruptIff`).
* **PLIC, read channel.** A waiting read starts the coherency stall that withdraws its own response, so an `r_valid`
  met by a low `r_ready` is not held (`ResponseIsNotHeld`); ARM IHI 0022, section A3.2.1, requires it to be.
* **Boot loader, size check.** Each image is checked only against the size of the whole DRAM (`FaultsIff`).
  A ramfs longer than 0x02000000 bytes passes and runs off the end of the DRAM, where the memory map faults
  (`VexiiRiscv.v:17491`); a pair of images boots if and only if the ramfs is no longer than that (`SentImagesLoad`,
  `StoresStayInDramIff`).
* **Boot loader, overlap.** A kernel longer than 0x06000000 bytes passes too, and survives the second load exactly when
  the ramfs repeats its tail (`KernelIsWholeIff`); `LongKernelBootsDamaged` has the files that boot damaged. A payload
  with a bad checksum has already been written to memory (`BurstIsRejected`, `Loader.SerialLoad`).
* **Device tree.** `copy_dtb` takes the difference of two `uintptr_t` pointers, a number of eight-byte words, for a
  number of bytes, so an eighth of the tree is copied: the copy is whole exactly when memory already held the rest
  (`DtbIsCopiedIff`). What is copied survives the loads exactly under the condition of `DtbSurvivesIff`; a kernel longer
  than 0x07000000 or a ramfs longer than 0x01000000 bytes reaches it (`ImagesMissDtbIff`, `LongRamfsBootsWithoutDtb`).

## Model

| member | source | states |
|---|---|---|
| `GrayCode.EncodeIsWire` | ip/sd/generic_fifo_dc_gray.v:241-258 | the wire equation of the Gray pointers is binary-to-Gray encoding at every width |
| `GrayCode.DecodeSolvesWire` | ip/sd/generic_fifo_dc_gray.v:276-277 | the self-referring wire equation for the binary value has exactly one solution, the decoded value |
| `GrayCode.DecodeEncode` | ip/sd/generic_fifo_dc_gray.v:241-277 | decoding a Gray pointer gives back the binary pointer at every width |
| `GrayCode.AdjacentCodes` | ip/sd/generic_fifo_dc_gray.v:226-258 | the Gray codes of a pointer and its successor, the wrap included, differ in exactly one bit |
| `GrayCode.SampleIsOldOrNew` | ip/sd/generic_fifo_dc_gray.v:265-269 | a cross-domain sample with every bit independently old or new is the old or the new pointer as a whole |
| `GrayCode.OppositeLapsMeansFull` | ip/sd/generic_fifo_dc_gray.v:282-284 | equal address bits with different top bits mean exactly that the counts are one whole buffer apart |
| `FifoSpec.StepKeepsInv` | ip/sd/generic_fifo_dc_gray.v:226-284 | on every edge of either clock or both: stale copies never pass the real pointers, never more than the depth is stored, a low flag is safe to act on although it compares a stale copy |
| `FifoSpec.RunPopsInOrder` | ip/sd/generic_fifo_dc_gray.v:206-284 | for every interleaving of edges from any reachable state, pops hand out the words in the order pushed |
| `FifoSpec.FifoOrder` | ip/sd/generic_fifo_dc_gray.v:206-284 | from reset, what came out is a prefix of what went in, behind by at most the depth |
| `FifoSpec.FlagsBecomeExact` | ip/sd/generic_fifo_dc_gray.v:95-284 | once both pointers rest, two edges of each clock in any order make full and empty exact |
| `FifoSpec.FlagsFollowPointers` | ip/sd/generic_fifo_dc_gray.v:279-284 | after every permitted edge each flag is high exactly when its side's pointer has come up to what that side had seen of the other |
| `FifoSpec.SamplesAreFresh` | ip/sd/generic_fifo_dc_gray.v:265-269 | every edge brings its side the other side's current pointer, on simultaneous edges the old or the new one, and leaves the other side alone |
| `FifoSpec.EveryWordComesOut` | ip/sd/generic_fifo_dc_gray.v:206-284 | whatever the writer does, a reader that pops whenever empty lets it has the first k words after one read edge for each and two more |
| `FifoSpec.EveryPlaceIsFilled` | ip/sd/generic_fifo_dc_gray.v:206-284 | whatever the reader does, a writer that pushes whenever full lets it has filled all free places after one write edge for each and two more |
| `FifoSpec.HeadStaysShown` | ip/sd/generic_dpram.v:144-156 | after a read edge without a pop, alone or together with a write edge, the output is the head of the queue, whatever the writer does |
| `FifoSpec.PoppedWordShownIff` | ip/sd/generic_dpram.v:144-156 | a popped word stays on the output exactly until the writer has gone a whole lap past it |
| `FifoSpec.PoppedWordHoldsForTwoWriteEdges` | ip/sd/generic_dpram.v:144-156 | two write edges after a pop cannot overwrite the popped word |
| `FifoSpec.ThirdWriteEdgeOverwrites` | ip/sd/generic_dpram.v:144-156 | a permitted run in which the third write edge does |
| `Fifo.DualClockFifo.WriteEdge` | ip/sd/generic_fifo_dc_gray.v:226-284 | a write clock edge takes the registers and the memory to those of the queue with the word appended |
| `Fifo.DualClockFifo.ReadEdge` | ip/sd/generic_fifo_dc_gray.v:243-280 | a read clock edge takes the registers to those of the queue with its head removed or not |
| `Fifo.DualClockFifo.BothEdges` | ip/sd/generic_fifo_dc_gray.v:206-284 | simultaneous edges with arbitrarily mixed samples are a step of the queue |
| `Fifo.DualClockFifo.PopWord` | ip/sd/generic_fifo_dc_gray.v:206-258 | a pop puts the oldest unread word on the output |
| `Pointers.PtrIsRemainder` | ip/adapters/axilwr2wbsp.v:289-345 | a pointer register of LGFIFO + 1 bits holds its count modulo twice the depth |
| `Pointers.LooksFullMeansFull` | ip/adapters/axilrd2wbsp.v:196-200 | the bridges' pointer comparison holds exactly when the counts are one buffer apart |
| `Pointers.LooksRoomyMeansSameLap` | ip/adapters/axilwr2wbsp.v:222-229 | the write bridge's test for room holds exactly when both counts are on one lap |
| `WriteBridgeSpec.StepKeepsCounts` | ip/adapters/axilwr2wbsp.v:162-346 | no held address or data is ever overwritten, last <= mid <= first <= last + depth, and no acknowledgement is miscounted |
| `WriteBridgeSpec.StepKeepsInv` | ip/adapters/axilwr2wbsp.v:117-409 | every clock keeps the counts, the verdicts and the order of issue, errors and drains included |
| `WriteBridgeSpec.StepKeepsIssueOrder` | ip/adapters/axilwr2wbsp.v:129-286 | the slave sees each launched write at most once and in order, and the unanswered ones are the last it saw |
| `WriteBridgeSpec.StepKeepsOkayIssued` | ip/adapters/axilwr2wbsp.v:267-379 | only a write that the slave accepted is answered OKAY |
| `WriteBridgeSpec.ErrorFreeRunPairsInOrder` | ip/adapters/axilwr2wbsp.v:117-195 | in every error-free run the k-th write on Wishbone carries the k-th address with the k-th data and strobes, and the accepted counts differ by at most one |
| `WriteBridgeSpec.ResponsesInOrder` | ip/adapters/axilwr2wbsp.v:329-409 | over every run each write gets at most one response, in order, and it is that write's verdict |
| `WriteBridgeSpec.ResponseIsHeld` | ip/adapters/axilwr2wbsp.v:355-409 | a response waits unchanged until it is taken |
| `WriteBridgeSpec.EachError` | ip/adapters/axilwr2wbsp.v:348-391 | at every error the failed write gets SLVERR, those before it not yet delivered are OKAY, and the slave had accepted it |
| `WriteBridgeSpec.FirstError` | ip/adapters/axilwr2wbsp.v:348-391 | at the first error since reset every answer before it is OKAY, delivered or not |
| `WriteBridgeSpec.ErrorRunDelivers` | ip/adapters/axilwr2wbsp.v:348-409 | the responses handed over in a run from reset are OKAY up to the first failed write, then SLVERR, then DECERR for everything launched before the drain |
| `WriteBridgeSpec.DrainEnds` | ip/adapters/axilwr2wbsp.v:327-409 | with bready recurring, a drain has answered everything outstanding with DECERR and ends one clock after as many ready clocks as there were writes owed |
| `WriteBridgeSpec.DrainMeasure` | ip/adapters/axilwr2wbsp.v:315-391 | while draining nothing is launched and first - last falls with every response taken, error mode ending exactly at zero |
| `WriteBridgeSpec.ReadyDropsEarly` | ip/adapters/axilwr2wbsp.v:222-262 | a run from reset at whose end both ready flags are low with one of four places in use |
| `WriteBridgeSpec.ReadyComesBack` | ip/adapters/axilwr2wbsp.v:200-264 | a ready flag that is low with nothing held is high after a clock on which the bus moves and the buffer has room |
| `WriteBridgeSpec.LaterWritesFail` | ip/adapters/axilwr2wbsp.v:348-391 | over every run from a drain on, with any backpressure, the failed write keeps SLVERR and each later one launched before it gets DECERR |
| `WriteBridgeFlow.TakesWhatIsHanded` | ip/adapters/axilwr2wbsp.v:117-195 | over every run the addresses and beats the bridge goes on to issue are exactly those handed over with valid and ready, in order: of each address the word that holds it, data and strobes unchanged |
| `WriteBridgeFlow.WritesWhatIsHanded` | ip/adapters/axilwr2wbsp.v:117-195 | in every error-free run from reset the k-th write on Wishbone is at the word of the k-th address handed over, with the k-th beat handed over |
| `WriteBridgeFlow.PairIsLaunched` | ip/adapters/axilwr2wbsp.v:117-195 | an address and data that are both there, held or just handed over, are launched as soon as the bus moves and the buffer has room |
| `WriteBridgeFlow.ReadyAfterLaunchIff` | ip/adapters/axilwr2wbsp.v:197-265 | right after a launch awready is up exactly when a response is taken or the lap lasts, and wready in these cases or when the data was held |
| `WriteBridgeFlow.WritesFollowWithoutGap` | ip/adapters/axilwr2wbsp.v:197-265 | with both channels ready, one write is taken and launched a clock while the bus moves and responses are taken or the lap lasts |
| `WriteBridgeFlow.AnswerIsRecorded` | ip/adapters/axilwr2wbsp.v:267-379 | an ack or err is the verdict of the oldest write without one |
| `WriteBridgeFlow.VerdictIsHanded` | ip/adapters/axilwr2wbsp.v:329-409 | a write that has its verdict and whose turn it is gets its response on the first clock with bready, draining or not |
| `WriteBridgeFlow.DrainAnswersAll` | ip/adapters/axilwr2wbsp.v:315-379 | while draining one DECERR a clock is made up until every write has its verdict, whether or not any are taken |
| `WriteBridgeFlow.DeliveryCatchesUp` | ip/adapters/axilwr2wbsp.v:329-409 | over every run with enough bready clocks, whenever they come, every verdict there was is delivered |
| `WriteBridgeFlow.EveryWriteIsAnswered` | ip/adapters/axilwr2wbsp.v:117-409 | outside errors every write accepted is answered after four clocks each that do not stand in the way, whenever they come and whatever else is offered |
| `WriteBridgeFlow.ResetIsIdle` | ip/adapters/axilwr2wbsp.v:117-409 | a reset leaves both channels ready, no request, no response and no error |
| `WriteBridge.Bridge.Tick` | ip/adapters/axilwr2wbsp.v:117-409 | a clock edge takes all registers to those of the specification's next state |
| `WriteBridge.Bridge.AwreadyNext` | ip/adapters/axilwr2wbsp.v:197-230 | the eight-way condition for awready is the specification's two-way one |
| `WriteBridge.Bridge.WreadyNext` | ip/adapters/axilwr2wbsp.v:232-265 | the same for wready |
| `WriteBridge.Bridge.BrespNext` | ip/adapters/axilwr2wbsp.v:355-379 | the response code on offer is that of the write whose turn it is |
| `ReadBridgeSpec.StepKeepsCounts` | ip/adapters/axilrd2wbsp.v:112-268 | the shadow register is in use only with the request line high and arready low, and outstanding + stb + shadow is first - mid outside error mode |
| `ReadBridgeSpec.StepKeepsInv` | ip/adapters/axilrd2wbsp.v:112-341 | every clock keeps the counts, the answers and the order of issue, errors and drains included |
| `ReadBridgeSpec.StepKeepsIssueOrder` | ip/adapters/axilrd2wbsp.v:112-180 | the slave sees each accepted read at most once and in order, the shadow register included |
| `ReadBridgeSpec.ErrorFreeRunIsTransparent` | ip/adapters/axilrd2wbsp.v:112-341 | in every error-free run the addresses on Wishbone are the accepted ones in order, and the j-th response carries the data of the j-th ack |
| `ReadBridgeSpec.ResponsesInOrder` | ip/adapters/axilrd2wbsp.v:238-341 | over every run each read gets at most one response, in order, and it is that read's answer |
| `ReadBridgeSpec.EachError` | ip/adapters/axilrd2wbsp.v:277-324 | at every error the failed read gets SLVERR, those before it not yet delivered are OKAY, and the slave had accepted it |
| `ReadBridgeSpec.FirstError` | ip/adapters/axilrd2wbsp.v:277-324 | at the first error since reset every answer before it is OKAY, delivered or not |
| `ReadBridgeSpec.ErrorRunDelivers` | ip/adapters/axilrd2wbsp.v:277-341 | the responses handed over in a run from reset are OKAY up to the first failed read, then SLVERR, then DECERR for everything accepted before the drain |
| `ReadBridgeSpec.LaterReadsFail` | ip/adapters/axilrd2wbsp.v:277-324 | over every run from a drain on, with any backpressure, the failed read keeps SLVERR and each later accepted one gets DECERR |
| `ReadBridgeSpec.DrainMeasure` | ip/adapters/axilrd2wbsp.v:209-324 | while draining no read is accepted and first - last falls with every response taken, error mode ending exactly at zero |
| `ReadBridgeSpec.DrainEnds` | ip/adapters/axilrd2wbsp.v:287-341 | with rready recurring, a drain has answered everything outstanding with DECERR and ends one clock after as many ready clocks as there were reads owed |
| `ReadBridgeFlow.TakesWhatIsHanded` | ip/adapters/axilrd2wbsp.v:112-180 | over every run the word addresses the bridge goes on to issue are exactly those of the addresses handed over with arvalid and arready, in order |
| `ReadBridgeFlow.ReadsWhatIsHanded` | ip/adapters/axilrd2wbsp.v:112-180 | in every error-free run from reset the k-th read on Wishbone is of the word of the k-th address handed over |
| `ReadBridgeFlow.ReadIsOffered` | ip/adapters/axilrd2wbsp.v:112-180 | an accepted read is on the bus on the next clock or waits behind the one that is |
| `ReadBridgeFlow.ReadyComesBack` | ip/adapters/axilrd2wbsp.v:209-236 | outside errors arready is up after every clock on which the bus moves and that leaves room |
| `ReadBridgeFlow.AnswerIsRecorded` | ip/adapters/axilrd2wbsp.v:238-324 | an ack or err is the answer, with its data, of the oldest read without one |
| `ReadBridgeFlow.AnswerIsHanded` | ip/adapters/axilrd2wbsp.v:326-341 | a read that has its answer and whose turn it is gets it on the first clock with rready, draining or not |
| `ReadBridgeFlow.DrainAnswersAll` | ip/adapters/axilrd2wbsp.v:238-324 | while draining one DECERR a clock is made up until every read has its answer, whether or not any are taken |
| `ReadBridgeFlow.DeliveryCatchesUp` | ip/adapters/axilrd2wbsp.v:326-341 | over every run with enough rready clocks, whenever they come, every answer there was is delivered |
| `ReadBridgeFlow.AllAckedIsDelivered` | ip/adapters/axilrd2wbsp.v:238-341 | from reset, as many rready clocks after an error-free run as it had acks deliver the data of all of them |
| `ReadBridgeFlow.EveryReadIsAnswered` | ip/adapters/axilrd2wbsp.v:112-341 | outside errors every read accepted is answered after three clocks each that do not stand in the way, whenever they come and whatever else is offered |
| `ReadBridgeFlow.ResetIsIdle` | ip/adapters/axilrd2wbsp.v:112-341 | a reset leaves the bridge ready, with no request, no response and no error |
| `ReadBridge.Bridge.StoreData` | ip/adapters/axilrd2wbsp.v:270-285 | returned data never hits a slot still owed to the AXI side |
| `ReadBridge.Bridge.Tick` | ip/adapters/axilrd2wbsp.v:112-341 | a clock edge refines the specification, and a response waiting for rready keeps valid, data and code |
| `Arbiter.StepKeepsInv` | ip/adapters/wbarbiter.v:116-220 | the other master has nothing outstanding, the owner's count is the slave's, and all requests in flight are the owner's |
| `Arbiter.RepliesReachTheIssuer` | ip/adapters/wbarbiter.v:205-219 | for every behaviour of masters and slave, an ack or err is seen by the master that issued the request it ends, and by no other |
| `Arbiter.WaitsForOneTenure` | ip/adapters/wbarbiter.v:141-156 | a master that keeps asking owns the bus on the clock after the owner drops its cycle, and not before |
| `Arbiter.IdleParksAtOther` | ip/adapters/wbarbiter.v:135-143 | however long both masters are idle after a bus cycle, the bus is parked at the one that did not hold it last |
| `Arbiter.OwnershipPassesIff` | ip/adapters/wbarbiter.v:141-156 | the bus passes on exactly when its owner is idle and the other asks, or both are idle and the owner had it last |
| `Arbiter.WbArbiter.Tick` | ip/adapters/wbarbiter.v:116-156 | a clock edge refines the specification, and the owner does not change during a bus cycle |
| `Arbiter.WbArbiter.Route` | ip/adapters/wbarbiter.v:198-220 | the bus carries the owner's request and only the owner sees the slave's reply |
| `AdapterSpec.EveryoneIsServed` | ip/adapters/axi4lite_to_wb.v:374-417 | what each bridge assumes of its slave and the arbiter of its masters follows from the one slave behind the arbiter being well-behaved |
| `AdapterSpec.StepKeepsInv` | ip/adapters/axi4lite_to_wb.v:159-417 | on every clock each bridge's count of open requests is the arbiter's count for its channel while the bridge is in a cycle, errors and resets included |
| `AdapterSpec.RunIsTwoRuns` | ip/adapters/axi4lite_to_wb.v:159-417 | every run of the whole is a run of each bridge alone, so all that is proved of the bridges holds in it; the shared slave sees each bridge's requests once and in order |
| `AdapterSpec.ErrorFreeRunSharesTheBus` | ip/adapters/axi4lite_to_wb.v:159-417 | in every error-free run, in terms of the adapter's own ports: the slave sees reads and writes each once and in order, at the words of the addresses handed over, every write with its own data and strobes, and each read is answered with the data on the bus on the clock of its own ack |
| `AdapterSpec.ResponsesAreTaken` | ip/adapters/axi4lite_to_wb.v:159-417 | each response channel moves on exactly when its own ready is up and its next answer is there |
| `Adapter.AxiLiteToWb.Tick` | ip/adapters/axi4lite_to_wb.v:159-417 | a clock edge of the wired-up registers is a step of the specification, and the bus shows the owner's cycle and strobe with the address and data of the request the slave may take |
| `Tournament.TreeShapeIrrelevant` | ip/plic/AxiLite4Plic.v:1041-1134 | a tree of two-way choices of any shape picks what a linear scan picks |
| `Tournament.ReduceFindsWinner` | ip/plic/AxiLite4Plic.v:1041-1134 | the balanced tree over any number of requests finds the valid one of greatest priority, the smallest index among equals |
| `PlicSpec.ClaimIsHighestPriority` | ip/plic/AxiLite4Plic.v:942-1136 | the tree's winner is above the threshold exactly when a pending enabled source is, and is then the one of greatest priority and smallest id |
| `PlicSpec.ClaimOnBus` | ip/plic/AxiLite4Plic.v:1135-1688 | the same on the bus, over every run: the claim read first requested for a target hands out, on whatever later clock it fires, the best source pending and enabled for that target one clock before, judged by that target's threshold now |
| `PlicSpec.LineIff` | ip/plic/AxiLite4Plic.v:1135-1688 | a target's interrupt line is up exactly when a source pending and enabled for it one clock before exceeds its threshold now |
| `PlicSpec.ReadStage` | ip/plic/AxiLite4Plic.v:2133-2618 | a read is taken, with its own address, as soon as none waits, and stays until its response is taken |
| `PlicSpec.ReadIsAnswered` | ip/plic/AxiLite4Plic.v:1710-1737 | a waiting read is answered within two clocks on which the master is ready |
| `PlicSpec.ReadIsAnsweredAtOnce` | ip/plic/AxiLite4Plic.v:1710-1737 | and on the very next clock if it came to an idle bus |
| `PlicSpec.StepKeepsWinnersFresh` | ip/plic/AxiLite4Plic.v:1361-1378 | while a read waits, the winners registered one clock ago are still pending |
| `PlicSpec.ClaimIsPending` | ip/plic/AxiLite4Plic.v:1654-1688 | every non-zero claim takes a source that is pending at that moment |
| `PlicSpec.SourceFollowsProtocol` | ip/plic/AxiLite4Plic.v:2002-2345 | every source goes from idle to pending to in service and back only by a sample, a claim and a completion, as long as software completes only what it has claimed |
| `PlicSpec.ClaimsAreSeparated` | ip/plic/AxiLite4Plic.v:2002-2345 | over every run, between two clocks that claim one source for any targets lie a clock that completes it and then a clock that samples its input high |
| `PlicSpec.CompletionsAreSeparated` | ip/plic/AxiLite4Plic.v:2002-2345 | and between two clocks that complete it lie one that samples its input high and then one that claims it |
| `PlicSpec.GatewayFollowsProtocolIff` | ip/plic/AxiLite4Plic.v:2002-2345 | the two flip-flops follow the protocol exactly when no claim takes a source just being raised and no completion names one pending or just being raised |
| `PlicSpec.EarlyCompletionLosesInterruptIff` | ip/plic/AxiLite4Plic.v:2002-2345 | after the completion of a source still pending, both its flip-flops on the next clock but one: it is pending exactly when its input is high on the clock between and it is not claimed then |
| `PlicSpec.ResponseIsNotHeld` | ip/plic/AxiLite4Plic.v:1710-1737 | a read response not taken at once is withdrawn for a clock |
| `PlicSpec.CompletionEndsService` | ip/plic/AxiLite4Plic.v:2244-2345 | a source in service leaves it on a clock exactly when a completion that names it is written then |
| `PlicSpec.ConfigWriteLands` | ip/plic/AxiLite4Plic.v:2347-2600 | a priority, threshold or enable write changes the one entry it names to the value written; nothing else changes the configuration |
| `PlicSpec.WriteIsAnswered` | ip/plic/AxiLite4Plic.v:1342-1360 | every write is answered once, its response waits until it is taken, and only then is the next write taken |
| `Plic.Controller.Tick` | ip/plic/AxiLite4Plic.v:2002-2618 | a clock edge with any completion takes the registers to the specification's next state; a claim takes a pending source for as long as software has kept to the protocol |
| `Plic.Controller.GatewaysNext` | ip/plic/AxiLite4Plic.v:2002-2345 | sampling, claim and completion, in the source's order of assignment, for any completion; the protocol's transition of every source when software keeps to it |
| `Plic.Controller.BestNext` | ip/plic/AxiLite4Plic.v:2604-2610 | the registered winners are those of the linear scan over the ending clock's requests |
| `Crc32.LookupIsFourShifts` | firmware/crc32.c:17-18 | one table lookup is four single-bit shifts, for every state and nibble |
| `Crc32.UpdateIsEightBits` | firmware/crc32.c:15-20 | updating with a byte is its eight bits entering the shift register one by one |
| `Crc32.ChecksumIsSerialCrc` | firmware/crc32.c:3-25 | init, update and final compute the bit-serial CRC-32 (section 8 of RFC 1952) of every byte sequence |
| `Crc32.CheckValue` | firmware/crc32.c:3-25 | the characters "123456789" have the customary check value 0xCBF43926 |
| `Crc32.BurstChangesChecksum` | firmware/crc32.c:15-25 | messages that differ only inside 32 consecutive bits, at any alignment, never share a checksum |
| `Crc32.FourByteWindow` | firmware/crc32.c:15-25 | nor do messages that differ only inside four consecutive bytes |
| `Folds.BurstReachesTheEnd` | firmware/crc32.c:15-20 | any machine whose step is injective and loses distance slowly carries a change inside one window to its final state |
| `SerialLoad.Loader.Read32` | firmware/serial.c:8-18 | four bytes in order are joined into a word |
| `SerialLoad.Loader.ReadPayload` | firmware/serial.c:20-31 | memory holds exactly the bytes taken and the result is their checksum, unless they run off the end of the DRAM |
| `SerialLoad.Loader.SerialLoad` | firmware/serial.c:33-68 | how the load ends, the bytes taken and memory are those of the stream-level description, on all exits and on an access fault |
| `SerialLoad.StoreWrites` | firmware/serial.c:24-28 | writing byte after byte puts each at its own address and changes nothing else |
| `SerialLoad.RejectedHeaderStoresNothing` | firmware/serial.c:39-50 | a rejected header takes eight bytes and writes nothing; every other load writes all it took and had room for |
| `SerialLoad.FaultsIff` | firmware/serial.c:47-57 | a load faults exactly when an accepted header announces more bytes than fit between the load address and the end of the DRAM |
| `SerialLoad.LoadEndsIff` | firmware/serial.c:33-68 | from the bytes of the stream alone: exactly when a load is accepted, rejected or faults, that only the header is taken exactly when its magic is wrong or its size too large, and what is taken and written otherwise |
| `SerialLoad.LoadIsLocal` | firmware/serial.c:33-68 | a load depends on no byte of the stream but those it takes |
| `SerialLoad.FrameLoads` | firmware/serial.c:33-68 | a frame of announced length that finds room is taken whole and accepted exactly when its checksum is the payload's |
| `Boot.FramesLoadInTurn` | firmware/start.c:37-46 | two sound frames back to back boot, with exactly their bytes taken, if and only if the second finds room |
| `Boot.BootEndsIff` | firmware/start.c:37-46 | for every stream: it boots exactly when both loads are accepted, and each failure ends the boot in its own way |
| `Boot.BootsIff` | firmware/start.c:37-46 | from the bytes of the stream alone: it boots exactly when two frames with the right magic, a permitted size, room and the right checksum follow one another |
| `Boot.LoadImages` | firmware/start.c:37-46 | the two loads with a panic after each failure, and the memory they leave |
| `Boot.CopyDtb` | firmware/start.c:7-14 | the copy of the device tree, as long in bytes as the tree is in eight-byte words |
| `Boot.StartFirmware` | firmware/start.c:59-63 | device tree, kernel and ramfs go to memory in this order |
| `Boot.DtbIsCopiedIff` | firmware/start.c:7-14 | the tree is whole after the copy exactly when memory already held the part not copied |
| `Boot.DtbSurvivesIff` | firmware/start.c:59-63 | what was copied survives both loads exactly when the images repeat it where they cover it |
| `Boot.ImagesMissDtbIff` | firmware/start.c:59-63 | no byte of the tree is written exactly when both images end below it |
| `Boot.StoresStayInDramIff` | firmware/mmio.h:63-69 | every address written is inside the DRAM exactly when each image fits between its address and the end |
| `Boot.KernelIsWholeIff` | firmware/start.c:37-46 | the kernel is whole after both loads exactly when the ramfs agrees with it where they overlap |
| `Boot.BothImagesInMemory` | firmware/start.c:37-46 | what every address holds after the bytes of both images have been written |
| `SerialImages.JoinIsLittleEndian` | firmware/serial.c:12-15 | four bytes are read as a number whose first byte counts least |
| `SerialImages.WordRoundTrip` | firmware/serial.c:12-15 | the sender's little-endian word is the word the loader reads |
| `SerialImages.SentImagesLoad` | scripts/serial_boot.sh:41-56 | two files that pass the size check boot, the script's standard CRC agreeing with the firmware's table, if and only if the ramfs fits into the DRAM behind its address; otherwise the load faults there |
| `SerialImages.LongKernelBootsDamaged` | firmware/start.c:37-46 | files that pass every check and boot with a kernel byte overwritten |
| `SerialImages.LongRamfsBootsWithoutDtb` | firmware/start.c:59-63 | files that pass every check and boot with the device tree overwritten |
| `SerialImages.BurstIsRejected` | firmware/serial.c:57-63 | a payload damaged inside 32 consecutive bits is never accepted, for every length, position and content: it is taken whole, written and rejected, or faults for want of room |
| `SerialImages.WindowIsRejected` | firmware/serial.c:57-63 | so is one damaged inside four consecutive bytes |
| `SerialImages.DamagedKernelFails` | firmware/start.c:37-46 | a kernel image damaged inside 32 consecutive bits never boots, and nothing is loaded after it |
| `SerialImages.DamagedRamfsFails` | firmware/start.c:37-46 | nor does a ramfs image damaged so, behind whatever good kernel |
| `PwmSpec.ReversedValue` | rtl/audio_pwm.v:318-324 | wiring the counter backwards computes the recursive bit reversal, at every width |
| `PwmSpec.ReversedTwice` | rtl/audio_pwm.v:318-324 | reversal is an involution |
| `PwmSpec.FullPeriodCount` | rtl/audio_pwm.v:318-324 | over a full period exactly t reversed values lie below t |
| `PwmSpec.WindowCount` | rtl/audio_pwm.v:309-333 | in every aligned window of 2^k counts a sample is reached floor(s / 2^j) times or once more, with the exact condition for once more |
| `PwmSpec.WindowDuty` | rtl/audio_pwm.v:309-333 | the same for clocks of the registered output |
| `PwmSpec.DutyIsExact` | rtl/audio_pwm.v:309-333 | from any phase, a full period of clocks has the output high on exactly sample + 1 of them |
| `PwmSpec.SignedDuty` | rtl/audio_pwm.v:299-333 | in terms of the signed input sample: its value counted from the most negative one, plus one |
| `PwmSpec.WordDuty` | rtl/audio_pwm.v:299-333 | after a word has been handed over, every full period until the next one is high on as many clocks as the signed word counts from the most negative one, and one more |
| `PwmSpec.ResetDuty` | rtl/audio_pwm.v:299-333 | after a reset the output is low, and then high on one clock of every period |
| `PwmSpec.FlipTopIsOffset` | rtl/audio_pwm.v:303-303 | inverting the top bit moves a two's complement sample up by half the range |
| `Pwm.PwmOutput.ReverseCounter` | rtl/audio_pwm.v:318-324 | the generate loop reverses the counter's wires |
| `Pwm.PwmOutput.Tick` | rtl/audio_pwm.v:299-333 | a clock edge takes counter, sample and output to those of the numeric description, the counter wrapping at its width |

## Left out

- Fifo.DualClockFifo.constructor: starts all pointers at zero; the reset and clear synchronizers are not modelled, nor are settling times beyond each sampled bit being old or new.
- The FIFO's level indicators `wr_level` and `rd_level`.
- Fifo.DualClockFifo.WriteEdge: excludes a write while full, as the source does; what such a write destroys is not described.
- WriteBridge.Bridge.Tick: addresses are unbounded and divided by four (32-bit data); truncation to the AW bits of the bus is not modelled, nor are `awprot` and the unused `fifo_empty`.
- ReadBridge.Bridge.Tick: likewise; the data of a DECERR answer is whatever the data FIFO holds.
- WriteBridgeSpec.ResponsesInOrder: runs without reset in between; a reset discards everything, as it does in the source.
- ReadBridgeSpec.ResponsesInOrder: likewise.
- The bridges assume a slave that, within a bus cycle, follows Wishbone B4, section 3.1.3, and a depth of at least two.
- Adapter.AxiLiteToWb.Tick: the options OPT_READONLY and OPT_WRITEONLY are not modelled.
- Arbiter.WbArbiter.Tick: the schemes PRIORITY and LAST and the option OPT_ZERO_ON_IDLE are not modelled.
- Plic.Controller.Tick: register accesses arrive decoded; address decoding, the packing of enable bits, field widths, bus error responses and reset during operation are not modelled.
- Plic.Controller.constructor: describes the registers one clock after reset, when the winner registers hold the stand-in request.
- PlicSpec.ClaimsAreSeparated: requires software to complete only claimed ids, as the specification asks of it; `GatewayFollowsProtocolIff` and `EarlyCompletionLosesInterruptIff` say what the hardware does otherwise.
- SerialLoad.Loader.SerialLoad: of the memory map only the end of the DRAM is modelled; a load address below the DRAM is not told apart. Printing and the UART itself are left out, a read being the next byte of a stream.
- Boot.LoadImages: a panic and an access fault are result values.
- Boot.CopyDtb: the source of the copy is a sequence of bytes; its length is taken to be that between the two labels.
- Pwm.PwmOutput.Tick: the sample clock, the stream handshake's timing and the register file of the audio core.
- The display, PMC, CLINT, SD and PS/2 cores and the remaining firmware.
