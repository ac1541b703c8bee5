# The host side of the HTC transport, verified

This project models how a host drives a WiFi chip over SPI: user threads append
packets to a transmit queue, a driver task moves them through an SPI mailbox
under credit flow control, and received frames bring credits back in their
trailers. Beside the transport it models the beacon parser and the two ways of
reaching the chip's memory. `dafny verify dfyconfig.toml` checks everything.

| file | models |
|---|---|
| `Bytes.dfy` | machine integers, little-endian fields, mailbox padding |
| `Credits.dfy` | the two credit channels of a pool: in-band reports and the polled 8-bit counter, against unbounded counts |
| `Trailer.dfy` | trailer records and their parser, in place on the endpoints |
| `Netbuf.dfy`, `Framing.dfy` | network buffers; header, padding, the send and receive paths on buffers |
| `Pools.dfy` | what frames report, against the true counts of every pool |
| `Target.dfy` | the device: fallible registers, write FIFO, credits, frames |
| `Wire.dfy` | the transmitted frames as the device decodes them, against the charges and the requests |
| `Driver.dfy` | the driver task as a state machine with the world moving beside it |
| `ReverseCredits.dfy` | the host's own trailers for returned receive buffers |
| `InfoElem.dfy` | 802.11 information elements and the RSN and WPA suites (sections 9.4.2.1 and 9.4.2.25 of IEEE Std 802.11-2016) |
| `TargetMemory.dfy`, `Bmi.dfy`, `Diag.dfy` | target memory over the boot message interface and the diagnostic window |

## How the driver is modelled

`DriverTask.Driver` has the fields of the driver context. Its methods follow the
functions of the source; `Interfere` stands for everything that may happen
between two of their steps: submissions, interrupts, the completion of a
transfer, and any moves of the device. `Valid` is the invariant between two
passes. It says that

- every pool's 8-bit credit fields are the true counts modulo 256, no credit is
  granted that was not returned, and available plus outstanding credits are the
  pool's maximum; frames are numbered modulo 256 and an emptied pool asked for
  an update;
- the cached write space and the bytes in or on their way to the FIFO fit into it;
- a request is current exactly while one of the transfer flags is set;
- the packet interrupt is unmasked, pending, or parked for an unfinished
  transfer, and in exactly one of these places; the enable register follows the
  shadow except after a failed write or, without edge detection, a fatal error;
- a wait for buffer space has its interrupt unmasked and a level it can reach;
- every submitted message is completed, current or queued exactly once, and in
  order unless the purge ran;
- what users received is what the device sent, in order;
- the frames the device saw, as it decodes them, are for each pool a subsequence
  of those charged to it, and what they carry is a subsequence of the requests
  completed or current; `Unsent` counts the charged frames that never arrived.

An assert of the source spins for ever; here it sets `halted`, after which
nothing is promised. The contracts say when that can happen: after a failed
access or a frame that breaks the protocol, or for a request longer than a credit
at the front of the queue. `Device.faults` counts failed accesses and broken
frames; each contract speaks of those that occur during its own call, so a failure
that the driver tolerated earlier does not weaken it. The device also keeps what its
registers showed (`rxShown`, `spaceShown`, `countersShown`, `naps`, `causeShown`), so
that a contract can say not only what an answer means but also which reading of the
device it rests on, and when an operation must succeed. Conditions that are read in
the middle of a pass are named by ghost results (`Pass`, `RxView`).

Register accesses may fail at any time. A failed register write may or may not
have reached the device. The device is assumed to return credits only for frames
that arrived, to report in-band only credits it returned, to queue frames whose
length matches their header, is at most 4096 bytes and whose first four bytes are
not all zero, and to present its counters and lookahead truthfully when an
access succeeds.

## What the code does that its comments do not say

- After 256 credits returned without an in-band report, polling stops granting
  credits until an in-band report arrives (`Credits.WrappedGapStallsPolling`). The comment on the guard
  says it prevents a wrap-around; it does, at the price of the stall.
- With edge detection, the fatal error path empties the enable register and then
  writes the shadow back, so interrupts are not masked as its comment says: the
  register is empty afterwards if and only if the host does not detect by edge
  (`DriverTask.Driver.BusInterrupt`, `DriverTask.FatalErrorOnEdgeHost`).
- In the sleeping-core branch nothing is armed and the readiness check still
  fails, although the refreshed cache may have room. Without a failed access this
  branch is the only one that refuses despite room
  (`DriverTask.Driver.CheckSpace`, `DriverTask.Driver.TxReady`).
- `CollectCredits` does not count the record header against the free tail
  (`ReverseCredits.ReportFitsIffHeaderDoes`).
- `CollectCredits` names the queue in place of the endpoint. Queue 6 may count, but
  this build has six endpoints (`ENDPOINT_MAX`, `common_src/include/htc_api.h:43-44`
  with `custom_src/include/wlan_config.h:116`), so a parser of the same build asserts
  on its report (`ReverseCredits.QueueSixIsUnknown`); the report is accepted if and
  only if neither queue 6 nor queue 7 is reported
  (`ReverseCredits.ReportAcceptedIffEndpointsExist`).
- The receive buffer's 16-bit length wraps for payload lengths above 65498
  (`Framing.SizingCoversFrame`); the protocol limit of 4090 excludes them.
- The comment that a boot-interface receive always has a whole word is wrong for
  the tail of a read: a read is right at every timing if and only if its length is
  a multiple of four (`Bmi.MemoryReadIsRightIffWords`, `Bmi.OneByteReadEarly`).
- A WPA element that ends after its version is ignored, while such an RSN element
  sets the defaults (`InfoElem.Applied`).
- The pools hold the advertised credits only for counts from 2 to 257
  (`Credits.PoolsHoldCreditCount`).

## Model

| member | source | states |
|---|---|---|
| Credits.NeverOvergrants | common_src/htc/htc.c:104-224 | over every interleaving of returns, reports, polls and sends from the start, the pool never exceeds its maximum, grants at least the reported and at most the returned credits, and available plus outstanding credits equal the maximum |
| Credits.StepKeepsInv | common_src/htc/htc.c:104-224 | every event keeps the 8-bit fields equal to the true counts modulo 256, and moves the grant exactly as the unbounded counts say |
| Credits.PollIsExactIffGapFits | common_src/htc/htc.c:142-155 | a poll makes the grant equal to everything returned if and only if fewer than 256 returned credits are unreported; the early return fires if and only if the gap has wrapped, and then changes nothing but the last counter read |
| Credits.WrappedGapStallsPolling | common_src/htc/htc.c:145-150 | once the gap has wrapped, no sequence of polls, returns and sends grants another credit before an in-band report arrives |
| Credits.StallIsReachable | common_src/htc/htc.c:145-150 | a run of 256 sends, returns and polls ends in that stall: all credits back at the device, pool empty, poll without effect |
| Credits.ReportsMerge | common_src/htc/htc.c:205-221 | two reports for an endpoint leave the same state as one report of their sum |
| Credits.SchedulesAgree | common_src/htc/htc.c:104-224 | two histories with the same counts agree after a poll while the gap fits, and without a poll once everything is reported |
| Credits.PollsOnlyBorrow | common_src/htc/htc.c:104-224 | beside a host that never polls, a polling host differs by exactly the credits it took early |
| Credits.PollingLeavesNoTrace | common_src/htc/htc.c:104-224 | once every returned credit has been reported, no early credit is left and the pool equals that of a host that never polled |
| Credits.ChargeIsExactIffAffordable | common_src/htc/htc.c:492 | the 8-bit subtraction of a charge is the true one if and only if the pool holds the credits |
| Credits.PoolsHoldCreditCount | common_src/htc/htc.c:158-182 | the distributed pools add up to the advertised count if and only if that count is from 2 to 257 |
| Bytes.PaddedLenIsLeastMultiple | common_src/include/driver_cxt.h:363 | the bit-mask form of the padded length is the least multiple of a power-of-two block that is not below the length |
| Trailer.ProcessCreditEntry | common_src/htc/htc.c:205-221 | one report entry updates the endpoint in place as the reconciliation rule says |
| Trailer.ProcessCreditRpt | common_src/htc/htc.c:184-224 | the entries are applied in order up to the first that names no endpoint, which is an assert |
| Trailer.ProcessRecord | common_src/htc/htc.c:322-384 | what one record does in place: credits, a guarded lookahead, or an assert |
| Trailer.ProcessTrailer | common_src/htc/htc.c:287-400 | the pointer walk over any byte string terminates inside it and has exactly the effect of its list of records; a cut-off record is an assert |
| Trailer.RecordsThenLeftover | common_src/htc/htc.c:303-318 | every byte string is encoded complete records followed by a stump that starts no record |
| Trailer.RecordsOfEncode | common_src/htc/htc.c:303-318 | parsing returns exactly the records that were encoded, whatever stump follows |
| Trailer.ReplayMeans | common_src/htc/htc.c:322-384 | records are accepted if and only if each is acceptable; then all credit entries apply in order and the last guarded lookahead wins |
| Trailer.LookAheadIsTakenIffGuarded | common_src/htc/htc.c:329-345 | the four bytes of a lookahead report are taken if and only if its two guard bytes add up to 255, whatever follows them |
| Trailer.LookAheadRoundTrip | common_src/htc/htc.c:287-345 | a lookahead put between a guard and its complement is found again by the parser |
| Trailer.TrailerAcceptedIffRecords | common_src/htc/htc.c:287-400 | a trailer is processed without an assert if and only if its bytes are a concatenation of complete acceptable records, with the in-order fold of their credits as effect |
| Netbuf.Netbuf.Length | custom_src/driver/cust_driver_netbuf.c:506-527 | the length of a packet is that of its buffer and all fragments |
| Netbuf.Netbuf.Push | custom_src/driver/cust_driver_netbuf.c:671-684 | opens room in front without touching the bytes in use |
| Netbuf.Netbuf.Pull | custom_src/driver/cust_driver_netbuf.c:759-772 | removes bytes from the front only |
| Netbuf.Netbuf.Trim | custom_src/driver/cust_driver_netbuf.c:776-789 | removes bytes from the end only |
| Framing.HeaderRoundTrip | include/htc.h:70-84 | decoding an encoded header gives back every field |
| Framing.HeaderBytes | include/htc.h:70-84 | encoding a decoded header gives back its six bytes |
| Framing.TransferEndsAtMailboxEnd | common_src/hw_interface/hw_api.c:130-142 | a transfer ends exactly at the mailbox end and stays inside the mailbox if and only if it is no longer than the mailbox |
| Framing.CreditsRequiredIsLeast | common_src/driver/driver_txrx.c:133-144 | the credits computed at submission are the least number of credit buffers that hold the padded frame, and one if and only if the readiness check lets the frame pass |
| Framing.PollEndpoint | common_src/htc/htc.c:142-155 | the in-place arithmetic of a poll computes the specified endpoint |
| Framing.ChargeEndpoint | common_src/htc/htc.c:475-499 | when a frame is refused, asserted or charged; a charge draws the sequence number and asks for an update exactly when it empties the pool |
| Framing.PrepareSubmit | common_src/driver/driver_txrx.c:115-146 | header space is reserved in front of unchanged bytes and the credits follow the padded length |
| Framing.WriteHeader | common_src/htc/htc.c:560-564 | the field stores write exactly the encoded header and leave the rest |
| Framing.SendPacket | common_src/htc/htc.c:465-571 | a charged frame carries the header with its endpoint, flags and number; a refused one is unchanged |
| Framing.FilledHeaderDecodes | common_src/htc/htc.c:560-564 | the device decodes the endpoint, and the true payload length if and only if it fits 16 bits |
| Framing.ClockOut | common_src/hcd/spi_hcd.c:1224-1282 | the bytes clocked are the buffer, every fragment and the padding, as many as the transfer length |
| Framing.SendOne | common_src/driver/driver_txrx.c:233-260 | the frame on the bus decodes to the request's endpoint, payload and number, and the request's payload is kept |
| Framing.Transmit | common_src/driver/driver_txrx.c:66-161 | from submission to completion the caller's bytes come back unchanged whether or not there were credits |
| Framing.SizingCoversFrame | common_src/htc/htc.c:53-60 | the buffer sized from a lookahead holds the announced frame if and only if its payload length is at most 65498, where the 16-bit arithmetic does not wrap |
| Framing.ConfirmHeader | common_src/htc/htc.c:607-640 | a header that is short or differs from the lookahead is refused; otherwise exactly the padding is trimmed |
| Framing.StripTrailer | common_src/htc/htc.c:642-673 | the trailer is bounded, applied and trimmed, and the header pulled |
| Framing.ProcessRecvHeader | common_src/htc/htc.c:592-682 | a received buffer is taken apart in place as specified: endpoints, outcome and payload |
| Framing.ReceiveInvertsFraming | common_src/htc/htc.c:592-682 | for every payload, trailer and padding within the payload limit, the buffer has the padded size and comes apart into what was framed |
| Framing.ReceiveCreditsTrailer | common_src/htc/htc.c:592-682 | receiving a framed list of records credits every entry in order and finds the last guarded lookahead |
| Pools.HonestFrameKeepsPool | common_src/htc/htc.c:184-224 | an honest frame that is accepted leaves each pool's account exact and takes no credit away |
| Pools.CourteousIffAccepted | common_src/htc/htc.c:592-682 | receiving a frame does not end in an assert if and only if the frame obeys the protocol |
| DriverTask.PollBalances | common_src/htc/htc.c:104-156 | a poll of one pool keeps the accounts of all pools |
| DriverTask.ChargeBalances | common_src/htc/htc.c:480-499 | a charge keeps the accounts, the numbering and the starvation mark of all pools |
| DriverTask.FrameBalances | common_src/htc/htc.c:184-224 | an accepted honest frame keeps the accounts of all pools |
| DriverTask.FilledOnWire | common_src/driver/driver_txrx.c:246-252 | the padded frame shows the device the endpoint, the whole payload, its length and its number |
| Wire.AllOutIffPoolsAgree | common_src/driver/driver_txrx.c:233-260 | no more frames went out than were charged, and as many if and only if every pool's frames are exactly those charged to it |
| DriverTask.SendingFollows | common_src/driver/driver_txrx.c:246-258 | charging and sending one packet keeps the frames on the wire in step with the charges and the requests, whether or not the frame arrives |
| DriverTask.PurgePartitions | common_src/driver/driver_main.c:589-620 | a purge leaves only control packets, completes only others, and treats each packet once |
| DriverTask.PurgeKeepsOrder | common_src/driver/driver_main.c:589-620 | a purge keeps the order of both kinds of packets |
| DriverTask.FramedIsDelivered | common_src/driver/driver_txrx.c:42-56 | for every endpoint, payload and trailer within the limits, the user gets exactly the payload that the device framed, and nothing from the transport's own endpoint |
| DriverTask.EndpointsDrawOn | common_src/util/util.c:28-37 | the control endpoints have a credit each of their own, and every data endpoint draws on the rest |
| DriverTask.Driver.constructor | common_src/htc/htc.c:158-182 | the state after start-up satisfies the whole invariant |
| DriverTask.Driver.SubmitTxRequest | common_src/driver/driver_txrx.c:115-161 | a submission appends one priced packet that carries the user's message |
| DriverTask.Driver.BusTransferComplete | common_src/hcd/spi_hcd.c:1338-1353 | completion moves a transfer from in progress to complete, and does nothing when none is in progress |
| DriverTask.Driver.Interfere | common_src/driver/driver_main.c:194-252 | any number of moves of users, interrupts and the device keep the shared part of the invariant, only append to the queue, and complete but never start a transfer |
| DriverTask.Driver.Pause | common_src/driver/driver_main.c:62-160 | the whole invariant survives whatever happens between two steps of the driver task |
| DriverTask.Driver.MaskSPIInterrupts | common_src/hcd/spi_hcd.c:207-218 | the shadow loses exactly the mask and the enable register follows; the call back into unmasking is dead code |
| DriverTask.Driver.UnmaskInterrupts | common_src/hcd/spi_hcd.c:721-732 | the shadow gains exactly the mask and the enable register follows; the mutual recursion ends |
| DriverTask.Driver.EnableHwDetect | common_src/hcd/spi_hcd.c:169-196 | with edge detection the enable register is rewritten with the shadow, even after a fatal error; without, it is untouched |
| DriverTask.Driver.ServiceErrors | common_src/hcd/spi_hcd.c:804-829 | an error interrupt is fatal, its causes and no others are acknowledged, and the enable register is emptied, not the shadow |
| DriverTask.Driver.ServiceWatermark | common_src/hcd/spi_hcd.c:839-857 | servicing the watermark ends the wait, resets the level and fills the cache from the register |
| DriverTask.Driver.ServiceFunctionSources | common_src/hcd/spi_hcd.c:860-874 | packet and CPU interrupts are masked until dealt with |
| DriverTask.Driver.ServiceSources | common_src/hcd/spi_hcd.c:831-874 | each source that is seen is masked and serviced, and no other |
| DriverTask.Driver.AckPacketInterrupt | common_src/driver/driver_main.c:507-518 | the packet cause and no other is acknowledged |
| DriverTask.Driver.ReadAndAckCause | common_src/hcd/spi_hcd.c:780-801 | the causes considered are those the register showed and that are enabled; those the host layer owns, and no others, are acknowledged |
| DriverTask.Driver.BusInterrupt | common_src/hcd/spi_hcd.c:761-897 | nothing is serviced during a transfer; otherwise what is seen is what the register showed of the enabled causes; exactly the interrupts seen are masked until dealt with, a packet becomes pending, a watermark ends the wait, a CPU interrupt is noted, an error is fatal, and the invariant is kept; after an error the enable register is empty if and only if the host does not detect interrupts by edge; it asserts only after an access that failed meanwhile |
| DriverTask.FatalErrorOnEdgeHost | common_src/hcd/spi_hcd.c:804-829 | from the start-up state, a fatal error on an edge-detecting host leaves the enable register as it was at start-up |
| DriverTask.Driver.OpenTransfer | common_src/hcd/spi_hcd.c:453-459 | the packet interrupt is masked before data moves |
| DriverTask.Driver.CloseTransfer | common_src/hcd/spi_hcd.c:500-506 | it is unmasked afterwards, or parked until a pending transfer completes |
| DriverTask.Driver.WriteData | common_src/hcd/spi_hcd.c:461-498 | the size register holds the length that is clocked; a write never overfills the device FIFO, and a pending one that completes early is still seen as complete |
| DriverTask.Driver.RequestWrite | common_src/hcd/spi_hcd.c:631-669 | the cached write space shrinks by the transfer and its overhead without wrapping and stays at most the true free space; the packet interrupt is not lost |
| DriverTask.Driver.RequestRead | common_src/hcd/spi_hcd.c:631-657 | a read takes exactly the frame at the front, with the size register set to the length asked for, and restores the packet interrupt |
| DriverTask.Driver.ChargeAndFill | common_src/htc/htc.c:465-571 | a packet is charged and numbered, and all pools stay balanced |
| DriverTask.Driver.SendPacket | common_src/driver/driver_txrx.c:233-260 | the packet becomes the current request with the payload the user submitted; its charge is the one the frame shows, and exactly one frame that decodes to it reaches the wire unless an access failed meanwhile or a fatal error stands |
| DriverTask.Driver.PostProcessRequest | common_src/driver/driver_txrx.c:91-106 | the current request is set only when there is none, and anything but a pending transfer is complete |
| DriverTask.Driver.ReleaseIrqMask | common_src/driver/driver_main.c:268-275 | a parked packet interrupt is unmasked exactly once |
| DriverTask.Driver.CompleteTx | common_src/driver/driver_main.c:262-285 | the user gets back the submitted message |
| DriverTask.Driver.TakeApart | common_src/htc/htc.c:592-682 | a filled receive buffer has the specified effect on the endpoints |
| DriverTask.Driver.RxComplete | common_src/driver/driver_txrx.c:42-56 | an accepted frame moves its reports from announced to reported, delivers its payload, and keeps every pool's account; it asserts if and only if the frame breaks the protocol |
| DriverTask.Driver.ProcessPendingInterrupts | common_src/hw_interface/hw_api.c:35-81 | an interrupt that was raised and enabled when detected is serviced: errors are fatal, a packet becomes pending, a watermark ends the wait; a completed transfer is handed back, once; the invariant is kept |
| DriverTask.Driver.FinishTransfer | common_src/hw_interface/hw_api.c:57-64 | a completed request goes back to its user exactly once, and afterwards a request is current if and only if a transfer is in progress |
| DriverTask.Driver.ServiceCpuInterrupt | common_src/hw_interface/hw_api.c:66-76 | the CPU interrupt is unmasked again |
| DriverTask.Driver.GetLookAhead | common_src/hcd/spi_hcd.c:952-1010 | the lookahead is that of the next frame, none if and only if the register showed fewer than four bytes, and the assert that it is not zero never fires |
| DriverTask.Driver.AssembleLookAhead | common_src/hcd/spi_hcd.c:978-1006 | the two words, byte by byte, are the first four bytes of the next frame |
| DriverTask.Driver.FindFrame | common_src/driver/driver_main.c:523-550 | a frame is found if and only if a lookahead was held or fetched and as many bytes as a header and as the announced payload were shown to be buffered; otherwise no lookahead is held, and without one the packet interrupt is unmasked |
| DriverTask.Driver.RearmPacketInterrupt | common_src/driver/driver_main.c:534-539 | with nothing to read the packet interrupt is no longer pending but unmasked |
| DriverTask.Driver.RxReady | common_src/driver/driver_main.c:479-587 | without a failed access, ready if and only if there is no fatal error, a free bus, a pending packet interrupt, a buffer, a lookahead, enough bytes and a receive request; each of these is what the host held or the device showed |
| DriverTask.Driver.GetRxRequest | common_src/driver/driver_main.c:552-579 | a receive request left from before is kept; otherwise one is there if and only if buffers were available and the system gave one |
| DriverTask.Driver.RecvPacket | common_src/driver/driver_txrx.c:271-291 | a synchronous receive takes the announced frame into a buffer that holds it |
| DriverTask.Driver.ReceiveOne | common_src/driver/driver_main.c:78-102 | exactly the frame at the front is received, credited and delivered, nothing else is; a frame that breaks the protocol never gets past it, and it asserts only after an access that failed, or such a frame, meanwhile |
| DriverTask.Driver.ProgramWriteBufferWaterMark | common_src/hcd/spi_hcd.c:519-605 | pending means an armed interrupt, an unchanged cache and exactly the level that leaves room for the length, or 1 when that is the whole FIFO; success means that the core was seen asleep twice, the cache is fresh and nothing is armed; it asserts if and only if the length is zero or above the FIFO size |
| DriverTask.Driver.SampleSleep | common_src/hcd/spi_hcd.c:557-592 | a core seen asleep twice is not waited for: the cache is refreshed and the level reset; otherwise it is, and the cached space stays as it was |
| DriverTask.Driver.RefreshWriteBufferSpace | common_src/hcd/spi_hcd.c:613-620 | the cache stays at most the true free space |
| DriverTask.Driver.GetCreditCounterUpdate | common_src/htc/htc.c:104-156 | the counters are read once, and the pool becomes what they showed makes of it; the accounts are kept |
| DriverTask.Driver.CheckCredits | common_src/driver/driver_main.c:412-447 | an empty pool, and only an empty pool, is polled; success if and only if the pool then holds a credit; a deadlock is declared, and packets are completed unsent, only if no receive buffers are available, and without them it is declared whenever the pool stays empty |
| DriverTask.Driver.DetectDeadlock | common_src/driver/driver_main.c:419-439 | the purge runs exactly after two attempts, resets the count, and only then packets are completed unsent |
| DriverTask.Driver.DropTxDataPackets | common_src/driver/driver_main.c:589-620 | without submissions meanwhile the queue is the stable filter and the others are completed in order; with them, no packet is lost or doubled |
| DriverTask.Driver.CheckSpace | common_src/driver/driver_main.c:455-466 | a cached space with room suffices; otherwise the register is read, and without a failed access the answer is whether what it showed has room; a refusal waits for exactly the level that leaves room, or found the core asleep; the watermark assert never fires from here |
| DriverTask.Driver.TxReady | common_src/driver/driver_main.c:292-472 | ready means that the packet at the front may be sent: no fatal error, free bus, no wait, a credit, a length within a credit, and room; not ready means that a listed reason holds, a pool empty after a poll and a core seen asleep in this call among them; a credit deadlock is declared if and only if the front lacks a credit and no receive buffers are available, and only then, after two attempts, packets are completed unsent; it asserts only after an access that failed meanwhile or on an oversize packet |
| DriverTask.Driver.SendOneQueued | common_src/driver/driver_main.c:106-125 | the packet sent is the one found ready, despite appends in between; exactly one frame goes out and decodes to it, and a frame is lost only if an access failed meanwhile |
| DriverTask.Driver.MayBlock | common_src/driver/driver_main.c:138-157 | the task may block only if no interrupt is detected, no pending packet finds a buffer, no completed transfer waits and the transmit side is held up; it is kept awake only by one of these; a deadlock is counted if and only if it may block |
| DriverTask.Driver.TransmitPart | common_src/driver/driver_main.c:106-125 | afterwards the transmit side is held up: a transfer, a fatal error, a wait, an empty queue, an empty pool, a sleeping core or an access that failed meanwhile; at most one frame is appended to the wire, it carries the request now current, and none is lost unless an access failed meanwhile |
| DriverTask.Driver.ReceivePart | common_src/driver/driver_main.c:78-102 | without a failed access, one more frame is received if and only if the conditions of the receive side hold, and it is the one whose lookahead was read; otherwise none is |
| DriverTask.Driver.DriverMain | common_src/driver/driver_main.c:62-160 | one pass keeps the whole invariant and hands back a transfer that was complete; without a failed access one frame is received if and only if the receive side's conditions hold when it looks; at most one frame is appended to the wire, it carries the current request, and none is lost; the transmit side is left held up for one of the listed reasons; packets are completed unsent only if credits were checked without receive buffers after two attempts; it answers that the task may block only if no interrupt was detected and no pending packet had a buffer; it stops in an assert only after an access that failed in this pass or on an oversize packet |
| DriverTask.Driver.ServeAndReceive | common_src/driver/driver_main.c:62-102 | the first half of a pass: interrupts are served, then a frame is received if and only if the conditions hold |
| DriverTask.Driver.SendAndAnswer | common_src/driver/driver_main.c:106-157 | the second half of a pass: at most one frame is sent, then the answer whether the task may block |
| DriverTask.Driver.Run | common_src/driver/driver_main.c:62-160 | any number of passes with anything between and within them keep the whole invariant; the wire only grows, and no charged frame is lost unless an access failed during the run |
| DriverTask.Driver.CreditsConserved | common_src/htc/htc.c:158-182 | in every reachable state each pool's credits plus the charges not granted back equal its maximum, no more is granted than was returned, and the pools together hold the advertised count |
| DriverTask.Driver.WireShowsCharges | common_src/driver/driver_txrx.c:233-260 | in every reachable state each pool's frames on the wire are a subsequence of those charged to it, and equal to it for all pools if and only if no frame was lost |
| DriverTask.Driver.WireCarriesRequests | common_src/driver/driver_txrx.c:233-260 | in every reachable state what the frames on the wire carry is a subsequence of the completed and current requests, none twice; until a purge in the order of submission, and without loss everything that left the queue |
| DriverTask.Driver.StarvationIsAnnounced | common_src/htc/htc.c:492-499 | in every reachable state the frames charged to a pool are numbered consecutively modulo 256 and an empty pool that began with credits asked for an update in the last of them; the frames the device saw are some of these in order, and show both as soon as all of them arrived |
| ReverseCredits.GetQueueCtrlIndex | common_src/driver/driver_main.c:184-192 | the index is the first queue that serves the endpoint, or eight |
| ReverseCredits.RxbufEnqueue | common_src/driver/driver_netbuf.c:52-77 | a returned buffer counts for its queue unless the endpoint is the transport's own or the queue is the shared one |
| ReverseCredits.CountedIffServed | common_src/driver/driver_netbuf.c:52-77 | a returned buffer counts for a queue if and only if it is the first to serve the endpoint, is not the shared one, and the endpoint is not the transport's own |
| ReverseCredits.CollectCredits | common_src/htc/htc.c:419-460 | in place, the buffer of fourteen bytes receives exactly the specified trailer and exactly the reported counts are cleared |
| ReverseCredits.ReportRoundTrip | common_src/htc/htc.c:419-460 | the trailer parser finds one credit record with exactly the collected entries, and fourteen bytes hold it |
| ReverseCredits.ReportedIffFits | common_src/htc/htc.c:435-450 | a queue is reported, with its whole count, if and only if it counts something and there is room behind the waiting queues in front of it |
| ReverseCredits.ReportAcceptedIffEndpointsExist | common_src/htc/htc.c:198-203 | for all counts, rooms and endpoints the trailer parser takes the report without an assert if and only if neither queue 6 nor queue 7 is reported, and then its effect is that of the collected entries in order |
| ReverseCredits.QueueSixIsUnknown | common_src/htc/htc.c:198-203 | one buffer counted for queue 6 gives a report on which the trailer parser asserts |
| ReverseCredits.EntriesAddUp | common_src/htc/htc.c:184-224 | applying credit entries in order leaves each pool as one report of their sum would |
| ReverseCredits.CreditsGivenAreCountsCleared | common_src/htc/htc.c:419-460 | an accepted report gives every pool exactly the sum of the counts that the collection cleared of its queues |
| ReverseCredits.CollectionConserves | common_src/htc/htc.c:437-450 | what is reported for a queue and what is left add up to its count, all or nothing |
| ReverseCredits.CollectsWhatFits | common_src/htc/htc.c:437-450 | as many waiting queues are reported as fit into the free tail |
| ReverseCredits.ReportFitsIffHeaderDoes | common_src/htc/htc.c:438-454 | the trailer fits into the free tail if and only if the record header fits as well, because the code does not count the header |
| ReverseCredits.TwelveBytesAreTooFew | common_src/htc/htc.c:517-519 | with the twelve free bytes the caller insists on, six waiting queues give fourteen bytes |
| ReverseCredits.RunConserves | common_src/driver/driver_netbuf.c:52-77 | over every run of returned buffers and collections, reported plus counted credits equal the buffers given back modulo 256, and the shared queue never counts |
| InfoElem.SelectorParse | common_src/api_interface/api_ioctl.c:510-599 | the word comparisons of the four selector functions give the bit that the suite's organisation and type bytes stand for |
| InfoElem.FlagsTell | common_src/api_interface/api_ioctl.c:510-648 | bit by bit, over the bytes of the listed suites: TKIP if and only if type 2 of the element's own kind is listed, CCMP for 4, WEP for 1 or 5, none for 0 and in an RSN element for any unknown cipher; 802.1X for 1, the pre-shared key for 2 and none for 0; no other bit is ever set |
| InfoElem.BitsPinMask | common_src/api_interface/api_ioctl.c:510-648 | these conditions leave exactly one mask |
| InfoElem.ParseList | common_src/api_interface/api_ioctl.c:614-629 | the loop over a suite list ends behind it with the or of all its suites |
| InfoElem.SecurityIeParse | common_src/api_interface/api_ioctl.c:601-653 | for every well-formed security element the masks say, bit by bit, which suites are listed; where a list is absent they are CCMP for RSN, TKIP for WPA, and 802.1X; a count of zero at the very end of the element is an absent list |
| InfoElem.ScanSummary.SetSsid | common_src/api_interface/api_ioctl.c:688-696 | a name of at most 32 bytes is copied, a longer one ignored |
| InfoElem.ScanSummary.ParseRsn | common_src/api_interface/api_ioctl.c:697-714 | an RSN element of version 1 sets the RSN masks, another version nothing |
| InfoElem.ScanSummary.ParseVendor | common_src/api_interface/api_ioctl.c:715-736 | a WPA element of version 1 that goes beyond its version sets the WPA masks, other vendor elements nothing |
| InfoElem.ParseInfoElem | common_src/api_interface/api_ioctl.c:655-743 | for every list of well-formed elements the pointer loop ends at the end of the buffer; the masks of each kind are those of the last element that sets them, bit by bit, and the name is the last of at most 32 bytes; a buffer without the fixed fields is an error |
| InfoElem.SummaryTells | common_src/api_interface/api_ioctl.c:655-743 | the fold over any list of elements holds what the last element of each kind says, and is unchanged without one |
| TargetMemory.LoadAfterStore | common_src/bmi/bmi.c:299-407 | loading what was stored gives it back, across the wrap of the address space |
| TargetMemory.StoreConcat | common_src/bmi/bmi.c:372-404 | storing contiguous pieces is storing the whole |
| TargetMemory.LoadConcat | common_src/bmi/bmi.c:318-344 | loading contiguous pieces is loading the whole |
| Bmi.HeaderReads | include/bmi_msg.h:70-90 | the device reads the command, address, length and data that were written |
| Bmi.Host.BufferSend | common_src/bmi/bmi.c:60-114 | a command is executed once, after the credit counter was read and showed a credit; without a failed access it succeeds if and only if the last poll showed a credit, and it gives up only after a whole time-out of polls; a failed send executed it at most once |
| Bmi.Host.BufferReceive | common_src/bmi/bmi.c:117-169 | for any length, what is read is what had arrived of the response; for a word or more, at least a word had; it fails only after a failed access or a whole time-out without a word |
| Bmi.Host.ReadMemory | common_src/bmi/bmi.c:299-347 | for any length a read returns the target's whole words and of the tail what had arrived when it was read, and changes no memory; for whole words that is exactly the target's memory; it fails only after the boot phase, a failed access, or a time-out without a credit or a word |
| Bmi.Host.ChunkLength | common_src/bmi/bmi.c:376-386 | chunks are 244 bytes, and at the end what remains rounded up to whole words |
| Bmi.Host.WriteMemory | common_src/bmi/bmi.c:351-407 | a write stores the buffer rounded up to whole words; a failed one leaves a prefix of whole words, and fails only after the boot phase, a failed access, or a time-out without a credit |
| Bmi.WriteThenRead | common_src/bmi/bmi.c:299-407 | a write and a read of the same place succeed and are the identity, unless an access fails or a time-out passes without a credit or a word |
| Bmi.ReadIsRightIffWord | common_src/bmi/bmi.c:130-154 | reading a response is right at every timing that the wait allows if and only if nothing or exactly one word is read |
| Bmi.MemoryReadIsRightIffWords | common_src/bmi/bmi.c:299-347 | a memory read of any length is right at every timing if and only if the length is a whole number of words |
| Bmi.OneByteReadEarly | common_src/bmi/bmi.c:130-154 | a read of one byte that has not arrived shows what the bus returns instead of memory |
| Diag.PokeWhole | common_src/driver/driver_diag.c:84-86 | with the upper address bytes in place the last write starts the access once, with the whole address, even if it is cut short |
| Diag.Chip.SetUpperByte | common_src/driver/driver_diag.c:65-78 | hitting one address byte four times sets that byte and starts nothing |
| Diag.Chip.SetAddressWindowRegister | common_src/driver/driver_diag.c:53-89 | on every outcome memory is untouched or was accessed with the whole address |
| Diag.Chip.WriteRegDiag | common_src/driver/driver_diag.c:173-198 | a word is written at its address, or memory is untouched, or the access failed after writing it |
| Diag.Chip.ReadRegDiag | common_src/driver/driver_diag.c:139-163 | a word is read from its address and memory is untouched |
| Diag.Chip.WriteDataDiag | common_src/driver/driver_diag.c:237-252 | a buffer is stored rounded up to whole words if and only if no access fails; a failed write leaves a prefix of whole words |
| Diag.Chip.ReadDataDiag | common_src/driver/driver_diag.c:210-225 | a buffer is loaded rounded up to whole words if and only if no access fails, and nothing behind it changes |
| Diag.WriteThenRead | common_src/driver/driver_diag.c:210-252 | writing a buffer through the window and reading it back succeeds if and only if no access fails, and is the identity |

## Left out

- Configuration variants: 16-bit credit counters, reserving a credit for control, several receive queues in the driver task, disabled asserts, bundled lookaheads, the byte-wise window routine.
- The reverse-credit branches inside `Htc_SendPacket`; the collection itself is modelled.
- The queue-front insertion of endpoint-0 requests, which changes the head between the readiness check and the dequeue.
- Distribution of credits on a CPU interrupt after sends have begun; it resets the pools and is taken as part of start-up.
- The host's interrupt line: interrupt properties are stated over the enable register and its shadow.
- A transfer that completes before the driver task has set its in-progress flag is lost by the completion callback; the model lets a transfer complete only after that.
- Shut-down, byte-swap configuration (constant during a run), asynchronous requests, wake-up of the driver thread, blocking times.
- The test that packet interrupts are among the configured ones (`driver_main.c:520-522`); they always are.
- Liveness, and any claim that a whole frame is buffered when a receive is found ready; the code compares free bytes with the payload length.
- The 16-bit count of the transmit queue, which wraps after 65535 packets.
- Channel, signal strength and BSSID of a scan summary, which are copied; malformed 802.11 elements.
- Boot commands other than memory reads and writes; the segmented firmware address.
- DriverTask.Driver.SubmitTxRequest: works on packets as values, so aliasing between a queued request and its user is not captured; `Framing.Transmit` proves on buffers that the user's bytes are restored.
- DriverTask.Driver.SendPacket: builds the wire bytes as a sequence; `Framing.ClockOut` proves the loop over fragments and padding.
- DriverTask.Driver.ServiceCpuInterrupt: the reads and writes of the CPU interrupt status registers are not modelled, only the unmasking.
- DriverTask.Driver.MayBlock: does not promise that an interrupt will end the wait, because in the sleeping-core branch none is armed.
- Bmi.Host.BufferReceive: calls that ask for no timeout are not modelled, because their wait need not end; no memory read makes one.
- Framing.ProcessRecvHeader: excludes a buffer that ends before a trailer it announces, because the source reads past it; other short buffers are included.
- DriverTask.Driver.TakeApart: excludes the same buffers.
- Scheduling of the driver thread, and the WMI layer above the transport.
