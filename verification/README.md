# NSS driver: descriptor rings and stateful cores

A Dafny model of the host side of the NSS network accelerator driver, with proofs about whole runs
rather than single calls. `dafny verify dfyconfig.toml` checks it.

| file | what it models |
|---|---|
| Machine.dfy | the fixed-width integers |
| RingIndex.dfy | masked index arithmetic of all rings, and what a reader and a writer of one ring agree on |
| Framing.dfy | how a packet becomes a frame of host-to-firmware descriptors and how a reader gets it back |
| H2nRing.dfy | the three producers of that ring (packets, crypto, empty buffers) against a concurrent firmware |
| Reassembly.dfy | the automaton that rebuilds frames from firmware-to-host descriptors, on values |
| N2hRing.dfy | the consumer of that ring and its two reassembly handlers, on socket buffers in the heap |
| Napi.dfy | the causes of a poll: strict priority, weights, what is owed for the bits read |
| Poll.dfy | the poll itself, over three receiving rings and the refill |
| Capwap.dfy | the tunnel table and its reference counts under any interleaving of threads |
| LogReader.dfy | the firmware log ring and the cursor of an open reader |
| Freq.dfy | the frequency controller: sliding window and rate limits |
| BufPool.dfy | donating host pages to the firmware |
| Mtu.dfy | from interface MTUs to buffer sizes |
| ConnQuota.dfy | the connection quota shared by IPv4 and IPv6 |

Each component pairs an imperative form, in the shape of the C code, with a specification it is
proved against: a ring with the unbounded sequence of everything ever published; the heap handlers
with the automaton, and the automaton with a declarative definition of a frame; a controller, a
buffer pool or a quota with the run of events so far. The theorems are about the specifications and
carry over to the methods through their contracts.

The firmware and other threads are adversaries bound only by their protocol. `FirmwareReads` and
`FirmwareProduces` may do anything their side allows before every index the host samples, every
further slot it writes or takes, every handler and every read of the status register, on all rings
of the core; `Appends` before every log entry read; `Interfere` between any two locked sections. Allocation, DMA mapping, message replies and header pulls are parameters or
nondeterministic choices, so every result holds for all of them.

## Where the code does not do what it is meant to

Each of these is proved with a concrete run or an exact condition; the model keeps the code's behaviour.

- A packet with page data in the head and a frag_list is sent without that page data
  (`PayloadsCoverPacket`, `MixedPacketLosesBytes`).
- A first linear piece that already is a chain, arriving over an open chain, frees the open chain but
  leaves it open (`NestedChainFreesTwice`); buffers end up in two places exactly then (`ExactlyOnePlaceIff`).
- Buffer types without a case in `nss_core_rx_pbuf` forget the buffer (`LostIff`, `CommandRespForgotten`).
- A cause bit without a handler keeps the poll loop turning (`UnknownCausesStall`).
- A log reader that the firmware laps in mid-read prints entries out of order, or twice
  (`RunsBackwardsIff`, `NotIncreasingIff`, `LappedReadRunsBackwards`, `LappedReadRepeats`).
- A frequency change that cannot be queued still blocks scaling until a finished acknowledgement,
  and none will come for that change; only one for another change, say from the frequency sysctl,
  releases it (`FrozenIff`, `UnqueuedChangeFreezes`, `IpqFreezes`).
- A packet of size - 1 or size segments can never fit its ring, yet it is answered as queue-full even on
  an empty one (src/nss_core.c:1972, `SendBuffer`).
- Clearing the frequency samples clears their sum but not the samples, and the sum stays wrong
  (`WindowSurvivesReset`).
- A donation that fails half-way keeps what was accepted and rules out any further one (`DonatedOnce`).
- The frame size that decides about flushing is shared by both cores (`GrowthUnflushedIff`,
  `SharedFrameSizeHidesGrowth`).
- The two connection sysctls have a semaphore each, so overlapping requests can break the shared
  total (`TotalLostIff`, `QuotaKeptIff`, `OverlapAdmitsAnyCount`).
- Rejected module parameters stay in force as counts (`StartKeepsParameters`), and an update that the
  firmware refuses later is not undone (`UpdateDisagreesIff`).

Where comments and code differ the code is modelled: the quota comments say "8k" and "power of 2"
(src/nss_ipv4.c:339, src/nss_ipv6.c:342) while the code checks for at most 8196 and multiples of 1024;
the pool-size message says "greater than 1" (src/nss_n2h.c:1103) while 1 is accepted.

## Model

| member | source | states |
|---|---|---|
| `RingIndex.AndMask` | src/nss_core.c:1956 | C's `& (size - 1)`, written bit by bit, reduces any number to its ring position, for every power of two |
| `RingIndex.NextSlot` | src/nss_core.c:1080 | the masked increment moves an index to the slot of the next unbounded counter |
| `RingIndex.AdvanceSlot` | src/nss_core.c:2081 | one masked addition moves an index over a whole frame |
| `RingIndex.FreeCountExact` | src/nss_core.c:1995 | the free-space expression equals capacity (size - 1) minus the descriptors in flight, for every ring size up to 2^14 and every fill level |
| `RingIndex.PendingCountExact` | src/nss_core.c:950 | the occupancy expression is exact although its 32-bit subtraction wraps |
| `RingWindow.WindowKept` | src/nss_core.c:1817-1822 | writing any slot past the published ones leaves every unread descriptor in place |
| `RingWindow.WindowPublished` | src/nss_core.c:2078-2083 | one index store turns everything staged into readable descriptors, in order |
| `Framing.FragArrayWellFramed` | src/nss_core.c:1764-1839 | a frags[] packet is FIRST, middles, LAST; only the last descriptor is not DISCARD and it alone names the skb |
| `Framing.FragListWellFramed` | src/nss_core.c:1848-1934 | a frag_list packet is FIRST, middles, LAST; only the first descriptor is not DISCARD and it alone names the skb |
| `Framing.EncodeWellFramed` | src/nss_core.c:1668-1934 | every successful send (simple, recycled, frags[], frag_list, crypto) writes a well-formed frame with exactly one owner |
| `Framing.PacketDescribed` | src/nss_core.c:1668-1934 | told from the skb, for every mapped packet: one descriptor per piece (one in all if bounced), each with the address its piece was mapped at, the piece's offset, lengths and priority, the owner where it belongs, checksum and segmentation bits and mss exactly as the skb asks, every other bit the caller's |
| `Framing.ReuseDescribed` | src/nss_core.c:1705-1722 | a recycled packet is one descriptor over the larger of its used part and the maximal buffer, marked for reuse |
| `Framing.DecodeEncode` | src/nss_core.c:1668-1934 | round trip: a reader that sees only flags, opaque values and lengths recovers owner, kind and piece lengths |
| `Framing.ReadAll` | src/nss_core.c:1940-2105 | the concatenated frames of any sequence of sends parse to exactly the packets sent |
| `Framing.UniquelyDecodable` | src/nss_core.c:1940-2105 | two send sequences with the same descriptors sent the same packets |
| `Framing.ReaderSeesPrefix` | src/nss_core.c:2078-2083 | whatever part of the stream the firmware has read, it has recovered a prefix of the packets, whole and in order |
| `Framing.PayloadSum` | src/nss_core.c:1798-1823 | payload lengths on the ring plus the bytes left out add up to the skb's length, for every consistent skb |
| `Framing.PayloadsCoverPacket` | src/nss_core.c:1893-1926 | the payload lengths add up to the skb's length if and only if a packet sent as a frag_list has no page data in its head and none nested in a member |
| `Framing.MixedPacketLosesBytes` | src/nss_core.c:1881-1926 | a 200-byte packet with page data and a frag_list is announced as 140 bytes |
| `Framing.InterfaceFieldFaithful` | src/nss_core.c:1631 | which interface numbers survive the 8-bit cast, exactly |
| `H2nRings.H2nRing.FirmwareRecoversPackets` | src/nss_core.c:1940-2105 | at every moment the firmware has recovered whole packets in sending order, all of them once it has caught up, and at most size - 1 descriptors are in flight |
| `H2nRings.H2nRing.WriteSlot` | src/nss_core.c:1624-1639 | filling the next spare slot extends what is staged and keeps the ring valid, whatever the firmware has read meanwhile |
| `H2nRings.H2nRing.Publish` | src/nss_core.c:2078-2083 | the history of published descriptors grows by exactly the staged frame |
| `H2nRings.H2nRing.Reserve` | src/nss_core.c:1988-2025 | success guarantees room; failure only if there was none on entry, and then the stop flag is set and the full count raised |
| `H2nRings.H2nRing.SendCrypto` | src/nss_core.c:1551-1618 | a crypto send publishes one self-contained frame with its buffer's name, address and length, or, if the ring is full, nothing; it always succeeds when a slot is free |
| `H2nRings.H2nRing.SimpleSkb` | src/nss_core.c:1668-1755 | stages the frame of an unscattered packet, recycled or not, or nothing on a mapping error |
| `H2nRings.H2nRing.AppendPieces` | src/nss_core.c:1802-1823 | the scatter loop stages one descriptor per piece and succeeds exactly when every piece is usable, with the firmware reading between any two writes |
| `H2nRings.H2nRing.FragArraySkb` | src/nss_core.c:1764-1839 | stages the complete frags[] frame exactly when every mapping succeeds |
| `H2nRings.H2nRing.FragListSkb` | src/nss_core.c:1848-1934 | stages the complete frag_list frame exactly when every mapping succeeds and no member carries page data |
| `H2nRings.H2nRing.Scatter` | src/nss_core.c:2057-2067 | the chosen helper stages the packet's frame, within the space that was reserved |
| `H2nRings.H2nRing.SendBuffer` | src/nss_core.c:1940-2105 | a send publishes at once a frame that describes every piece of the skb with its own mapping, or changes neither the published descriptors nor the record of packets; when each failure can occur, and that a packet of size - 1 or more segments never fits |
| `H2nRings.H2nRing.AddEmpty` | src/nss_core.c:1266-1364 | a refill round stages a fresh empty buffer exactly when skb, page (in paged mode) and mapping can be had, and else gives back what it took; the buffer announced is the one allocated, headroom included |
| `H2nRings.H2nRing.StageEmpties` | src/nss_core.c:1265-1366 | the refill loop ends with the first attempt that fails or with the ring full, every buffer staged being fresh, distinct and the one its attempt mapped |
| `H2nRings.H2nRing.Refill` | src/nss_core.c:1249-1375 | exactly size - 1 buffers are queued if and only if no attempt fails; else exactly those before the first failure are published, in all three modes, each announced as large as it was allocated (in jumbo mode less the headroom) |
| `Reassembly.Step` | src/nss_core.c:963-1082 | after every descriptor at most one of the linear and the paged chain is open |
| `Reassembly.BatchingIrrelevant` | src/nss_core.c:941-1086 | however polls cut the descriptor stream, the frames delivered, buffers freed and state left are those of one pass |
| `Reassembly.OpenFrameHeld` | src/nss_core.c:777-913 | if the stream leaves a frame open, the automaton holds exactly its pieces; refused nested chains in between do not count |
| `Reassembly.NothingHeld` | src/nss_core.c:1034-1066 | if the stream leaves no frame open, the automaton holds nothing |
| `Reassembly.DeliveredIffCompletes` | src/nss_core.c:637-1087 | over any stream a frame is delivered if and only if the piece completes it by the declarative definition: from its FIRST piece on, nothing of the other kind, no second FIRST but a refused one, up to LAST |
| `Reassembly.StepConserves` | src/nss_core.c:963-1082 | one descriptor neither loses nor duplicates an skb, except for the exactly stated excess of a nested chain |
| `Reassembly.RunConserves` | src/nss_core.c:963-1082 | over any stream: received plus counted twice equals held plus handed on plus freed plus forgotten |
| `Reassembly.NothingLost` | src/nss_core.c:587-630 | a stream of dispatched types forgets no buffer |
| `Reassembly.ExcessIff` | src/nss_core.c:830-845 | a descriptor counts a buffer twice if and only if it is a nested chain refused while a linear frame with the buffer in it is open |
| `Reassembly.AllExcessIff` | src/nss_core.c:830-845 | over any stream a buffer is counted twice if and only if the stream frees an open frame that contains it |
| `Reassembly.ExactlyOnePlaceIff` | src/nss_core.c:585-631 | of dispatched types, an skb received once is in exactly one place (an open chain, handed on, or freed) if and only if no frame that contains it is freed while open |
| `Reassembly.OnePlaceOrForgottenIff` | src/nss_core.c:585-631 | of any type, an skb received once is in one place or forgotten, never in two, under exactly the same condition |
| `Reassembly.LostIff` | src/nss_core.c:628-630 | an skb is forgotten if and only if the stream completes a frame that contains it under a type without a case |
| `Reassembly.CommandRespForgotten` | src/nss_core.c:628-630 | a command response that is a whole frame is neither held nor handed on nor freed |
| `Reassembly.CallsIff` | src/nss_core.c:579-631 | which calls any events make, told by buffer type: hand-on for packets, extended and virtual packets and bounces, status handler for status, free for status, empties and what is dropped, crypto driver for crypto responses |
| `Reassembly.BroughtIff` | src/nss_core.c:963-1078 | over any stream, what reaches nss_core_rx_pbuf is what arrives alone or begins a frame that the stream completes, under the completing type |
| `Reassembly.HandedOnIff` | src/nss_core.c:585-606 | over any stream, a buffer goes to a consumer if and only if it is so brought as one of the five types handed on |
| `Reassembly.StatusIff` | src/nss_core.c:608-612 | the status handler gets exactly the status messages so brought; they and empty buffers are freed |
| `Reassembly.CryptoDelivered` | src/nss_core.c:971-983 | the crypto driver gets exactly the crypto responses of the stream, in order |
| `Reassembly.NestedChainFreesTwice` | src/nss_core.c:830-845 | three descriptors after which a freed skb is still delivered |
| `N2hRings.Receiver.Link` | src/nss_core.c:874-888 | `frag_list` and `next` lead through the later pieces in order of arrival and end at `tail` |
| `N2hRings.Receiver.Account` | src/nss_core.c:894-896 | head's len and truesize are the sum of all payload lengths, its data_len the sum without the first, modulo 2^32 |
| `N2hRings.Outlet.RxPbuf` | src/nss_core.c:579-631 | for each buffer type, which of hand-on, status handler and free are called, and that no other type makes a call |
| `N2hRings.Receiver.FirstLinear` | src/nss_core.c:830-860 | a first piece frees the open chain and starts its own, or is freed itself if it already is a chain |
| `N2hRings.Receiver.HandleLinear` | src/nss_core.c:777-913 | the linear handler on the heap frees what the automaton says and returns a buffer exactly when a frame is complete: that frame, in the complete linked shape, the data of every piece starting where its descriptor said |
| `N2hRings.Receiver.AddRxFrag` | src/nss_core.c:737-738 | the first buffer's frags[] and lengths extend to the new page |
| `N2hRings.PageFragsAt` | src/nss_core.c:666-738 | told by position, the page fragments of a paged frame: the first buffer's own, then each later piece's page at its descriptor's offset and length |
| `N2hRings.PageTruesizeIs` | src/nss_core.c:737-738 | its truesize is the first buffer's own and a page for every later piece, modulo 2^32 |
| `N2hRings.KindOf` | src/nss_core.c:968-1034 | what a descriptor is taken for, by its type and what it names |
| `N2hRings.Receiver.CollectPaged` | src/nss_core.c:637-750 | a paged piece extends, replaces or completes the open frame, with exactly the frees that takes |
| `N2hRings.Receiver.HandlePaged` | src/nss_core.c:637-771 | the paged handler returns a buffer exactly when a frame is complete and its header can be pulled: that frame, with all its pages; otherwise a complete frame is freed |
| `N2hRings.Receiver.PassUp` | src/nss_core.c:1077 | a frame that a handler returned goes to nss_core_rx_pbuf, whole and through its first buffer |
| `N2hRings.Receiver.ConsumePaged` | src/nss_core.c:1034-1053 | a paged piece first gives up an open linear chain; all calls made are those of the automaton step, and a frame leaves whole |
| `N2hRings.Receiver.ConsumeLinear` | src/nss_core.c:1055-1077 | a linear piece first gives up an open paged frame; all calls made are those of the automaton step, and a frame leaves whole |
| `N2hRings.Receiver.Consume` | src/nss_core.c:963-1082 | one turn of the consumer refines one step of the automaton, call for call: every free, hand-on, status and crypto call that the step prescribes is made, in order, and no other |
| `N2hRings.N2hRing.TakeOne` | src/nss_core.c:968-1081 | takes the next waiting descriptor, in order and once, and handles it as the automaton prescribes |
| `N2hRings.N2hRing.Drain` | src/nss_core.c:962-1085 | takes exactly the given number of descriptors while the firmware keeps producing |
| `N2hRings.N2hRing.PublishRead` | src/nss_core.c:1084-1085 | private and published read index agree and stand for everything taken |
| `N2hRings.N2hRing.HandleCauseQueue` | src/nss_core.c:919-1087 | each call consumes min(waiting, weight) descriptors, in order, of what the firmware had produced when its index was sampled, and leaves the ring, the chains and the calls made consistent |
| `N2hRings.N2hRing.BatchesExplainEvents` | src/nss_core.c:919-1087 | over any run: what was taken is a prefix of what the firmware produced, and the calls made are those the one-pass parser yields for it |
| `N2hRings.N2hRing.ConsumersGet` | src/nss_core.c:585-606 | of the real calls: a buffer was handed to a consumer if and only if the descriptors taken bring it as one of the five types handed on |
| `N2hRings.N2hRing.WholePacketHandedOn` | src/nss_core.c:600-606 | a packet in one descriptor, once taken, has gone to a consumer, unless it is paged and yields no header |
| `N2hRings.N2hRing.CryptoDriverGets` | src/nss_core.c:971-983 | of the real calls: the crypto driver got exactly the crypto responses among the descriptors taken, in order |
| `N2hRings.PoppedOnce` | src/nss_core.c:968-1081 | a buffer taken off the ring was taken once |
| `N2hRings.N2hRing.EveryBufferInOnePlace` | src/nss_core.c:585-1082 | at any time between polls, a buffer ever taken off the ring is in the receiver's open chain, handed on or freed, and in one of these only, if and only if no frame that contains it was freed while open |
| `Napi.PrioritizedIsMostUrgent` | src/nss_core.c:1406-1460 | the choice is the most urgent bit set; none is chosen if and only if only unknown bits are set |
| `Napi.ProgressIffKnown` | src/nss_core.c:1481-1528 | a turn lowers (budget, pending causes) if and only if a known bit is pending |
| `Napi.UnknownCausesStall` | src/nss_core.c:1523-1527 | with only unknown bits pending a turn changes nothing, so the loop does not end |
| `Napi.SpentTurnKeeps` | src/nss_core.c:1498-1511 | a turn that uses up the budget leaves its cause pending, and only queues use any |
| `Napi.OnlyTheServedGoes` | src/nss_core.c:1498-1521 | a turn drops at most the cause it served, and a cause that is not a queue's always |
| `Napi.OwedIff` | src/nss_core.c:1479-1520 | a cause is pending exactly when it was read from the register and no handler has cleared it since |
| `Napi.ReadNotForgotten` | src/nss_core.c:1477-1520 | a bit read is pending or was cleared by a handler that ran after it was read |
| `Napi.ServedKeeps` | src/nss_core.c:1498-1521 | a turn serves nothing out of order and drops a queue bit only when its ring was drained |
| `Napi.IntCtx.ReadCause` | src/nss_core.c:1474-1479 | the pending causes and the record grow by exactly the bits the register yields |
| `Napi.IntCtx.Settle` | src/nss_core.c:1502-1520 | a queue's bit survives exactly when it used up its weight; `cause` stays exactly what is owed for the bits read |
| `Poll.Channel.Serve` | src/nss_core.c:919-1087 | a ring gives up min(waiting, weight) descriptors, at least counting those waiting before the call, and only this extends the ring's list of turns |
| `Poll.NssCore.FirmwareSteps` | src/nss_core.c:1481-1533 | firmware work on all four rings takes nothing, undoes nothing and leaves everything consistent |
| `Poll.NssCore.ServeQueue` | src/nss_core.c:1497-1498 | the handler takes from the ring of the cause, what that ring shows up to the weight, and nothing from the others |
| `Poll.NssCore.ServeNonQueue` | src/nss_core.c:1190-1398 | a request for buffers refills the empty-buffer ring up to the first failure and counts as one refill; room on the transmit ring, and nothing else, lets senders go on |
| `Poll.NssCore.QueueTurn` | src/nss_core.c:1497-1511 | one turn for a queue: the record tells of exactly the handler that ran, and a bit is dropped only with everything due on its ring taken |
| `Poll.NssCore.OtherTurn` | src/nss_core.c:1513-1521 | one turn for another cause: a request is dropped only with the buffers due queued, or an allocation or mapping having failed |
| `Poll.NssCore.Dispatch` | src/nss_core.c:1490-1527 | one turn serves the most urgent cause within the budget and takes from its ring exactly what is reported |
| `Poll.NssCore.ServeOne` | src/nss_core.c:1482-1527 | the same with the firmware at work before it |
| `Poll.NssCore.ServePending` | src/nss_core.c:1482-1528 | the inner loop ends, by (budget, pending causes), with budget left if and only if nothing is pending; every cause it dropped has been dealt with on the real rings |
| `Poll.NssCore.ReadRegister` | src/nss_core.c:1530-1532 | a read of the register makes due what is then on the rings of the causes then pending |
| `Poll.NssCore.ReadCause` | src/nss_core.c:1530-1532 | the same with the firmware at work before it |
| `Poll.NssCore.Pass` | src/nss_core.c:1482-1532 | one pass of the outer loop covers what was asked for before it and the bits it reads |
| `Poll.NssCore.Repeat` | src/nss_core.c:1481-1533 | the outer loop ends; its last act is a read of the register; budget is left if and only if nothing is pending |
| `Poll.NssCore.NoBitForgotten` | src/nss_core.c:1474-1533 | every bit of the values read in a poll is pending or was cleared by a handler |
| `Poll.NssCore.DueIsDone` | src/nss_core.c:1481-1533 | a cause that is not pending has everything due to it done: its ring emptied that far, the buffers queued or an attempt failed, senders released |
| `Poll.NssCore.HandleNapi` | src/nss_core.c:1466-1545 | over three real rings and the refill, with the firmware at work throughout: the descriptors taken are the work reported and never exceed the budget; the poll completes and re-enables the interrupt if and only if it did less; the register is read before the first and after the last handler; every bit pending before or yielded is pending still, or what it stood for when the poll began has been taken off its ring, refilled or released |
| `Poll.NssCore.Complete` | src/nss_core.c:1535-1542 | completion only enables the interrupt |
| `Capwap.TunnelTable.HeldIsInstalled` | src/nss_capwap.c:65-95 | while a thread holds a reference its handle is installed, not retired, and counted |
| `Capwap.HeldStaysInstalled` | src/nss_capwap.c:287-336 | whatever other threads do, an entry that a thread holds stays in the table with its holder |
| `Capwap.TunnelTable.Hold` | src/nss_capwap.c:69-74 | one holder more, counted |
| `Capwap.TunnelTable.TakeReference` | src/nss_capwap.c:287-295 | the locked lookup counts one more holder exactly when the entry is there |
| `Capwap.TunnelTable.GiveBackReference` | src/nss_capwap.c:80-85 | the lock-free decrement finds the same handle again and counts one holder less |
| `Capwap.TunnelTable.InstanceAlloc` | src/nss_capwap.c:233-261 | a handle is installed exactly when memory was found and the entry was free |
| `Capwap.TunnelTable.Retire` | src/nss_capwap.c:536-547 | a handle leaves the table if and only if no thread is between its increment and its decrement |
| `Capwap.TunnelTable.Interfere` | src/nss_capwap.c:249-258 | any schedule of other threads' locked sections has the effect it has on the abstract table |
| `Capwap.TunnelTable.TxMsg` | src/nss_capwap.c:267-338 | against any schedule of other threads: the tunnel is found exactly when its entry is there at the locked lookup, every way out balances the increment, and the table is what the schedule alone would leave |
| `Capwap.TunnelTable.DataUnregister` | src/nss_capwap.c:525-558 | busy exactly while the entry has a holder, retired exactly when it has none; without an entry the source follows a null pointer |
| `LogReader.LineFits` | src/nss_log.h:38-40 | a terminated message and a thread number of up to five characters make a line of at most 151 bytes |
| `LogReader.LineRead` | src/nss_log.h:39 | a line is three fields of known width from which thread number, timestamp and message read back |
| `LogReader.LapSlot` | src/nss_log.c:260-266 | a slot holds the entry asked for if and only if the firmware has not lapped it, else the newest of the same slot |
| `LogReader.LogMemory.Fetch` | src/nss_log.c:260-266 | the slot read yields that entry |
| `LogReader.SkippedHadLeft` | src/nss_log.c:238-254 | every entry the reader skipped had left the ring when the read that skipped it sampled the index |
| `LogReader.RunsBackwardsIff` | src/nss_log.c:259-289 | of any two lines, the later prints an older entry if and only if the log at its fetch had not reached its slot again since what the earlier one found |
| `LogReader.NotIncreasingIff` | src/nss_log.c:259-289 | of any two lines, the later prints an older entry or the same one again if and only if the log at its fetch had not come round to its slot again |
| `LogReader.PrintedInOrder` | src/nss_log.c:259-289 | in particular, as long as neither line is lapped, entries come out in strictly increasing order |
| `LogReader.LappedReadRunsBackwards` | src/nss_log.c:259-289 | a first read of any exactly full ring, with one entry written before its first fetch, prints entry n and then entry 1 |
| `LogReader.LappedReadRepeats` | src/nss_log.c:238-289 | with a ring of two that read prints entries 2 and 1, and the next read prints entry 2 again |
| `LogReader.CopyLines` | src/nss_log.c:259-282 | the lines of a read are consecutive, each copied or not as copy_to_user has it, and only the last may fail |
| `LogReader.CopyTotal` | src/nss_log.c:277-278 | a read returns the length of its lines |
| `LogReader.CopyFits` | src/nss_log.c:284-288 | with lines of at most 151 bytes a read never exceeds the caller's buffer |
| `LogReader.CopyStops` | src/nss_log.c:259-289 | a read stops before the sampled index only when another line might not fit or a copy failed |
| `LogReader.CopyGoesOn` | src/nss_log.c:287-288 | a read goes on after a line only while another line of 151 bytes is sure to fit, with a byte to spare |
| `LogReader.CopyRecord` | src/nss_log.c:233-289 | every read continues the reader's one record, whatever the firmware writes meanwhile |
| `LogReader.Reader.CopyLoop` | src/nss_log.c:259-289 | the loop with its cursor and counters computes the specified read, line for line |
| `LogReader.Reader.Read` | src/nss_log.c:189-295 | over any mix of appends and reads: increasing sequence numbers, gaps only over entries that had left, consecutive lines from the restart point up to one of the three stops, bytes returned within the caller's size; the user gets the text of exactly its lines |
| `Freq.IndexMovesByOne` | src/nss_freq.c:219-262 | in every run the scale stays in range and moves by at most one per event, only on a request |
| `Freq.FrozenUntilAck` | src/nss_freq.c:209-231 | after a request, queued or not, the scale is frozen until a finished acknowledgement |
| `Freq.AckBetweenRequests` | src/nss_freq.c:58-65 | between any two requests of a run lies a finished acknowledgement |
| `Freq.FrozenIff` | src/nss_freq.c:58-63 | with a full window the controller is frozen if and only if a change it asked for, queued or not, is unacknowledged; the first finished acknowledgement releases it |
| `Freq.UnqueuedChangeFreezes` | src/nss_freq.c:222-231 | for any load bands and any steady load above the middle one: seven samples whose change is never queued, after which nothing moves the scale before a finished acknowledgement |
| `Freq.IpqFreezes` | src/nss_hal/ipq806x/nss_hal_pvt.c:1198-1223 | with the bands of the 110, 600 and 800 MHz table a steady load of 0x8001 does it |
| `Freq.QuietStretch` | src/nss_freq.c:234-262 | the down counter equals the number of counted samples since the last overloaded up-check or down-check |
| `Freq.SlowsDownOnlyWhenQuiet` | src/nss_freq.c:246-262 | a step down comes only at the 60001st counted sample of a stretch without overload and without a step up |
| `Freq.SlideOldest` | src/nss_freq.c:170-175 | a sample pushes the oldest load out of the ring and the newest in |
| `Freq.WindowHolds` | src/nss_freq.c:167-190 | from boot on the ring is the last four loads in order, `sum` their total modulo 2^32, `sample_count` min(samples, 4) |
| `Freq.AverageIsMean` | src/nss_freq.c:192 | with loads below 2^30 the average is the floor of the mean of the last four |
| `Freq.CountedIff` | src/nss_freq.c:177-211 | the scale is looked at on exactly the samples that follow four others with no change unacknowledged |
| `Freq.ChecksUpIff` | src/nss_freq.c:219 | every third of these, and no other, is an up-check |
| `Freq.ChecksDownIff` | src/nss_freq.c:246 | the 60001st of a quiet stretch of the others, and no other, is a down-check |
| `Freq.AverageAt` | src/nss_freq.c:192 | the average acted on is that of the last four loads of the run, as far as 32 bits carry their sum |
| `Freq.RisesIff` | src/nss_freq.c:219-232 | over any run the scale rises, by one, if and only if a queued up-check finds the mean of the last four loads above the band, below the top scale |
| `Freq.FallsIff` | src/nss_freq.c:246-259 | over any run the scale falls, by one, if and only if a queued down-check finds the mean below the band, above the bottom scale |
| `Freq.RequestsIff` | src/nss_freq.c:219-259 | exactly when a change is asked for, queued or not |
| `Freq.SlidesKeepSkew` | src/nss_freq.c:172-174 | the error of `sum` against the ring never changes, however many samples come |
| `Freq.WindowSurvivesReset` | src/nss_init.c:139-147 | after a reset `sum` is right again if and only if the discarded ring added up to zero modulo 2^32 |
| `Freq.Controller.HandleAck` | src/nss_freq.c:47-68 | the controller is in the state of the run extended by the acknowledgement |
| `Freq.Controller.SlideIn` | src/nss_freq.c:170-175 | the wrapping 32-bit update of the window |
| `Freq.Controller.Rescale` | src/nss_freq.c:213-262 | the scale algorithm on a full window |
| `Freq.Controller.Decide` | src/nss_freq.c:158-262 | the handler's field updates are one step of the run |
| `Freq.Controller.HandleCoreStats` | src/nss_freq.c:150-263 | the controller is in the state of the run extended by the sample, so its scale moves exactly as `RisesIff` and `FallsIff` say |
| `BufPool.PagesFor` | src/nss_n2h.c:909 | the least number of pages that holds the size |
| `BufPool.DonateConserves` | src/nss_n2h.c:918-972 | however a donation ends, every page allocated is with the firmware, freed, or in an unanswered message, and in one of these only |
| `BufPool.GrantedDistinct` | src/nss_n2h.c:927 | no page is counted twice |
| `BufPool.MessageSizes` | src/nss_n2h.c:925-938 | every message carries 1 to 32 pages, except the empty one a request for nothing sends |
| `BufPool.MessageIs` | src/nss_n2h.c:925-938 | a message carries the next pages allocated and falls short of 32, or of what is left, only by a refused allocation |
| `BufPool.DonateSettles` | src/nss_n2h.c:939-963 | the firmware has the pages of all messages, or all but the last; that one is freed unless it timed out |
| `BufPool.SuccessIffAllDonated` | src/nss_n2h.c:966-971 | success if and only if the firmware got every page asked for |
| `BufPool.SuccessIffTaken` | src/nss_n2h.c:919-967 | in terms of the world: success if and only if every message the request takes is acknowledged and has its first allocation granted |
| `BufPool.ServeDonates` | src/nss_n2h.c:1094-1100 | a first write in range donates the pages it asks for if and only if the world lets it through; one out of range changes nothing |
| `BufPool.OnePageDonated` | src/nss_n2h.c:1094-1100 | for example, a request for one byte donates the first page |
| `BufPool.PanicIffRefused` | src/nss_n2h.c:919-938 | the BUG_ON is reached if and only if, after some acknowledged messages, the first allocation for the next one fails; nothing was freed before |
| `BufPool.PoolWithinLimit` | src/nss_n2h.c:1090-1104 | over all sysctl writes pages are conserved and the donated total stays within 8 MB, so never wraps |
| `BufPool.DonatedOnce` | src/nss_n2h.c:1090-1093 | once a single page was accepted, also of a failed donation, nothing more can be donated |
| `BufPool.N2h.BufPoolFree` | src/nss_n2h.c:889-895 | frees the pages of the message, in order |
| `BufPool.N2h.BufsCfgCallback` | src/nss_n2h.c:258-281 | an ACK adds the page size times the count it carries to `buf_sz_allocated` modulo 2^32, any other answer nothing |
| `BufPool.N2h.FillMessage` | src/nss_n2h.c:925-938 | fills the page table with the allocations up to the first failure or the limit |
| `BufPool.N2h.BufPoolCfg` | src/nss_n2h.c:901-972 | the nested loops end, also with failures in mid-message, with the ledger and outcome of the specification, if the firmware echoes page size and count |
| `BufPool.N2h.BufCfgHandler` | src/nss_n2h.c:1072-1105 | in terms of the world: when a write succeeds, when it panics, when it is refused or invalid; on success `buf_sz_allocated` is exactly the request rounded up to pages, on failure less |
| `Mtu.MaxMtu` | src/nss_phys_if.c:243-248 | a maximum of the table, attained |
| `Mtu.FrameCovers` | src/nss_phys_if.c:262-268 | the frame size is the least of the three that covers every MTU, if and only if none exceeds 9600 |
| `Mtu.AlignUpLeast` | src/nss_phys_if.c:622 | the masked expression is the least multiple of the cache line that holds the frame |
| `Mtu.BufHolds` | src/nss_phys_if.c:622-629 | the buffer holds frame, header and padding, is never below the payload size, and wastes less than a cache line |
| `Mtu.BufIsLines` | src/nss_phys_if.c:622-629 | exactly: whole cache lines for frame and header, and the padding, or the payload size if that is more |
| `Mtu.BuffersHoldEveryFrame` | src/nss_phys_if.c:599-629 | over all registrations, unregistrations and MTU changes on both cores every buffer holds MTU + 14 + 256 of every interface |
| `Mtu.AnnouncedSizeFits` | src/nss_phys_if.c:608 | the least buffer size announced by an accepted change never exceeds the buffers it leaves |
| `Mtu.RegisteredIff` | src/nss_phys_if.c:421-459 | over any run an interface is registered if and only if it was registered and not unregistered since |
| `Mtu.TableHolds` | src/nss_phys_if.c:421-647 | over any run each core's entry for an interface is what was set last: 1500 by registration, 0 by unregistration, the MTU by an accepted change |
| `Mtu.TableEmpty` | src/nss_phys_if.c:421-647 | an entry never set is 0 |
| `Mtu.UnregisteredStopsCounting` | src/nss_phys_if.c:446-459 | whatever frame size a later change calls for, an interface other than an unregistered one needs it |
| `Mtu.FlushesIff` | src/nss_phys_if.c:633-644 | over any run a change asks for a flush if and only if it is accepted and calls for a larger frame than the last one accepted on either core |
| `Mtu.UnflushedIff` | src/nss_phys_if.c:618-644 | an accepted change grows the buffers unflushed if and only if they are too small and the recorded frame size is not |
| `Mtu.PrevIsLastFrame` | src/nss_phys_if.c:644 | over any run the recorded frame size is that of the last change accepted on either core |
| `Mtu.BufIsLastFrame` | src/nss_phys_if.c:618-629 | over any run a core's buffers are those of the last change accepted on that core |
| `Mtu.GrowthUnflushedIff` | src/nss_phys_if.c:618-644 | over any run growth goes unflushed if and only if the last accepted change was on the other core and called for a frame as large |
| `Mtu.GrowthIsFlushed` | src/nss_phys_if.c:633-644 | so never while one core's MTUs change |
| `Mtu.SharedFrameSizeHidesGrowth` | src/nss_phys_if.c:633-644 | with two cores in use one core's buffers can grow unflushed |
| `Mtu.Core.GetMtuSz` | src/nss_phys_if.c:233-270 | the loop computes the frame size for the maximum MTU |
| `Mtu.Resize` | src/nss_phys_if.c:618-629 | MTU, frame size and buffer size after an accepted change |
| `Mtu.PhysIf.Register` | src/nss_phys_if.c:421-441 | resets the interface's MTU on its core and leaves the buffer size alone |
| `Mtu.PhysIf.Unregister` | src/nss_phys_if.c:446-459 | clears the interface's MTU on both cores |
| `Mtu.PhysIf.ChangeMtu` | src/nss_phys_if.c:589-647 | when a change is accepted, when it flushes, that the least buffer size announced is the MTU plus 192, and that a refused change changes nothing |
| `ConnQuota.CheckIsExact` | src/nss_ipv4.c:343-346 | next to a good count the wrapped 32-bit sum is the real one for every int |
| `ConnQuota.GoodBounds` | src/nss_ipv4.c:338-339 | being whole quanta, valid counts are at least 1024 each and at most 8192 together, so the "8k" of the comment holds after all |
| `ConnQuota.QuotaKept` | src/nss_ipv4.c:408-469 | over any serialised requests of both families the counts stay whole quanta, at least 256 and together at most 8196 |
| `ConnQuota.TakesEffectIff` | src/nss_ipv4.c:329-469 | what one request comes to on both sides, in terms of the number and its fate: exactly when it becomes the count |
| `ConnQuota.DriverAndFirmwareAgree` | src/nss_ipv6.c:411-469 | driver and firmware hold the same counts after any requests, unless the firmware acts on one that timed out |
| `ConnQuota.AgreementLostIff` | src/nss_ipv4.c:444-448 | the one request after which they differ |
| `ConnQuota.StepsAreHandler` | src/nss_ipv4.c:417-469 | the steps of one request, run without interruption, are the handler |
| `ConnQuota.OverlapKeepsEachWhole` | src/nss_ipv6.c:347-350 | however requests overlap, each settled count is a whole number of quanta and at least 256 |
| `ConnQuota.SettledAfter` | src/nss_ipv4.c:417-469 | of all steps only an acknowledgement changes a settled count |
| `ConnQuota.TotalLostIff` | src/nss_ipv6.c:347-350 | in any interleaving a step loses the shared total if and only if it is an acknowledgement whose count does not fit beside the other family's settled one |
| `ConnQuota.QuotaKeptIff` | src/nss_ipv6.c:347-350 | over any interleaving the total is kept throughout if and only if there is no such acknowledgement |
| `ConnQuota.UninterruptedLosesTotalIff` | src/nss_ipv4.c:343-346 | a request that is not interrupted loses the total if and only if its check passed against a pending count and would have failed against the settled one |
| `ConnQuota.OverlapAdmitsAnyCount` | src/nss_ipv4.c:427-438 | an interleaving that gets any count at all accepted |
| `ConnQuota.UpdateDisagreesIff` | src/nss_ipv4.c:489-509 | exactly when the unconfirmed update leaves driver and firmware apart |
| `ConnQuota.StartKeepsParameters` | src/nss_core.c:1149-1163 | after a start the counts are the module parameters, valid or not |
| `ConnQuota.Quota.Ipv4ConnCfgProcess` | src/nss_ipv4.c:329-375 | which requests reach the firmware, and the error codes of the others |
| `ConnQuota.Quota.Ipv6ConnCfgProcess` | src/nss_ipv6.c:332-379 | which requests reach the firmware, and the error codes of the others |
| `ConnQuota.Quota.Ipv4ConnCfgHandler` | src/nss_ipv4.c:408-469 | a failed request restores the earlier count exactly and returns -EINVAL |
| `ConnQuota.Quota.Ipv6ConnCfgHandler` | src/nss_ipv6.c:411-469 | a failed request restores the earlier count exactly and returns -EINVAL |
| `ConnQuota.Quota.Ipv4UpdateConnCount` | src/nss_ipv4.c:489-509 | a request that cannot be sent is undone, one that is refused later is not |
| `ConnQuota.Quota.Ipv6UpdateConnCount` | src/nss_ipv6.c:489-511 | a request that cannot be sent is undone, one that is refused later is not; every failure is -EINVAL, unlike IPv4's |
| `ConnQuota.Quota.StartCore0` | src/nss_core.c:1149-1163 | the two parameters are stored, then checked one after the other |

## Left out

- Starting indices: rings start at index 0, while the driver takes the first index from the device memory map.
- Descriptor fields the driver never writes (metadata, reserved words) and the interface number a received descriptor carries to its consumer.
- DMA mapping, cache maintenance, barriers and interrupt registers; unmapping after a failed scatter starts from an index that has already advanced (src/nss_core.c:1813, src/nss_core.c:1900), so of a failed send it is only claimed that nothing was published.
- The choice whether a buffer is recycled (src/nss_core.c:1691-1721) is an input of `SendBuffer`; `maxBuf` stands for max_buf_size plus the headroom.
- `BUG_ON` for more than MAX_SKB_FRAGS fragments on transmit is a precondition of `SendBuffer`; on receive the number of page fragments per frame is not bounded.
- H2nRings.H2nRing.FirmwareRecoversPackets: covers rings that carry packets and crypto requests; the empty-buffer ring, whose descriptors carry no frame bits, is covered by `Refill`.
- N2hRings.N2hRing.HandleCauseQueue: assumes the firmware returns each buffer address once, since a buffer that came back twice would be linked into two chains; a buffer allocated anew at an old address counts as a new one.
- Poll.NssCore.HandleNapi: assumes status bits the driver knows and a finite supply of them, since the source does not end otherwise (`UnknownCausesStall`); the decongestion callbacks, the masking of the unblock interrupt, the first-time initialisation in the refill, the coredump notification and senders that fill the transmit ring again during the poll are not part of the poll model.
- N2hRings.Receiver.HandlePaged: the header pull is a success or a failure; how it moves 14 bytes from the first fragment into the linear part is left to the kernel.
- What consumers do with delivered frames, the NSS_SKB_COUNT statistic (not balanced for chain members) and all other counters except the queue-full and refill counts.
- The steps of the CAPWAP data_register around the allocation, the message callbacks and the unlocked statistics.
- LogReader.Reader.Read: no seeks, no wrap of the 32-bit entry counter and no exchange of the log buffer while files are open.
- Freq.WindowHolds: runs without a reset of the samples; `WindowSurvivesReset` says what a reset does. The sysctl that switches scaling on and off and the workqueue are left out.
- BufPool.N2h.BufPoolCfg: assumes the firmware echoes page size and count; an answer after the timeout is not modelled, its pages are counted as unanswered.
- Mtu.PhysIf.ChangeMtu: the synchronous message is one accepted-or-not input, and the result of the flush itself is ignored as in the source; the buffer-size run starts at the payload size, which must be at least 1792.
- ConnQuota.Quota.Ipv4ConnCfgHandler: parse errors and reads, which leave everything unchanged, are left out, and so is a second start of core 0, which stores the parameters again without sending those already sent.
- debugfs and sysctl text, statistics, message headers, the other message senders, power management and platform start-up.
