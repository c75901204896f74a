# Verification model of lrndis

lrndis is firmware that makes an STM32F4 board appear to a PC as an RNDIS network adapter, with a DHCP server, a
DNS responder and a few software timers behind it. This project models the parts with protocol, state or arithmetic
content and proves what they promise. One module per component:

- `RndisReceive`: 64-byte USB packets are reassembled into messages, checked, and delivered as Ethernet frames.
- `RndisTransmit`, `RndisTransmitRuns`: the five-state transmitter, and every interleaving of its main-loop sends with
  completion interrupts (the readiness test and the critical section of rndis_send are separate steps).
- `RndisRoundTrip`: what a frame is on the wire, and what the device's own receiver makes of it.
- `RndisControl`: the control channel, which builds completions in place over requests in a 120-byte buffer.
- `DhcpOptions`, `DhcpLeases`, `DhcpServer`, `DhcpRuns`: option writer and reader (section 2 of RFC 2132), the lease
  table over whole runs, the server that merges datagrams into one static record and answers in place, and what holds
  of the replies to any sequence of datagrams.
- `SysClock`, `TimerMath`: the lock-free microsecond clock and wrapped 32-bit time stamps.
- `TimerWalk`, `SoftTimers`, `TimerRuns`: the walk over the timer list on values, the intrusive list that is walked
  while callbacks relink it, and many passes over it (with `Lists` for sequences without repetition).
- `DnsParser`, `DnsServer`: the question parser, the responder, and an independent decoder of messages written from
  sections 3.1 and 4.1.1 to 4.1.4 of RFC 1035 with which replies are read back.
- `Mailbox`, `ReceivePath`: the one-slot mailbox between the packet interrupt and the main loop, and the way from USB
  packets through it to the network stack.
- `LinkMemory`, `LinkOutput`: the gathering of a buffer chain into the array the transmitter reads from, with
  completions arriving between its copies.
- `Bytes`, `RndisFormat`: bytes, little-endian words, uint32 arithmetic, and the cutting of transfers into packets.

Code that updates variables in place is a class or a method with loops over arrays, proved equal to a function of the
old state; what the firmware promises is proved about those functions. Interrupts are step relations over a small
system state. Calls into the USB core are recorded in ghost sequences, in the order they are made, and data transfers
also with the bytes they have when they complete.

## Where the code and the expectation differ

- A message that needs the padding byte counts it in MessageLength but not in DataLength, so the device's own receiver
  counts such a message bad (`RndisRoundTrip.RoundTrip` says for exactly which sizes).
- The receive check adds in 32 bits. If the sum wraps, the slice handed over lies outside the message
  (`RndisReceive.DeliveredExactly`); the model records it as `Wild`.
- The filter value of a set request is read after the completion has been written over the request, so some
  offsets read bytes of the completion instead (`RndisControl.FilterIsTheRequestsValue` says exactly which).
- The DHCP option reader takes PAD bytes, which section 3.1 of RFC 2132 allows, for empty options: it skips an even number
  of them, and an odd number makes it misread the option behind (`DhcpOptions.PadsExactly`,
  `DhcpOptions.AddressBehindPads`).
- A client with an all-zero MAC is acknowledged but not recorded (`DhcpLeases.ZeroMacHoldsNothing`).
- The DNS responder copies the authority and additional counts and accepts labels of more than 63 bytes; its replies
  decode exactly when neither matters (`DnsServer.ReplyDecodes`).
- A callback that unlinks the timer saved as the next cuts the walk short: that timer is still visited, and fires if it is
  due, and those behind it are not visited (`TimerWalk.CompleteExactly`, `TimerWalk.CutShort`).
- A message that states the length of some of its leading packets is cut there, and its rest is taken for another message
  (`RndisReceive.AnyMessage`), so a message that does not state its own length is not always ignored.
- A timer that another callback restarts in the same pass can fire at once: the pass compares its new stamp with the older
  time of the pass, and the difference wraps (`SoftTimers.EarlyExactly`, `TimerRuns.RestartedFires`).
- A callback that unlinks the saved timer and links it again makes the walk start over, so that timers are visited twice
  (`TimerWalk.VisitedAgainExactly`, `TimerWalk.VisitedTwice`).
- linkoutput_fn fills its static array before its second test, also after a timed-out wait. The driver keeps only a
  pointer and reads the array packet by packet until a transfer is complete, so a frame whose data transfer is not
  complete by then can leave with the new bytes (`LinkOutput.Link.OutputOver`, `LinkOutput.LeavesCorrupted`). When every wait ends
  ready nothing of the kind happens (`LinkMemory.AllIntact`).
- The DHCP option reader does not stop at END, and a short datagram leaves old options in the record behind it, so
  that a REQUEST can be taken to name an address it does not (`DhcpOptions.EndExactly`, `DhcpRuns.StaleAddress`).
- A message that counts its own header as data passes the checks with up to 1550 payload bytes, more than the mailbox
  holds (`ReceivePath.FitsExactly`, `ReceivePath.PayloadTooLong`).

## Model

| member | source | states |
|---|---|---|
| `RndisReceive.Receiver.DataOut` | lrndis/rndis-stm32/usbd_rndis_core.c:629-670 | One packet on the out endpoint moves the abstract receiver exactly as `Receive` says and re-arms the endpoint once; another endpoint changes nothing. Stale buffer bytes and a stale length field never matter, and the inner overflow branch is dead. |
| `RndisReceive.Receiver.Store` | lrndis/rndis-stm32/usbd_rndis_core.c:637-666 | The body of the callback: overflow, append, length latch and end of message refine `Receive`. |
| `RndisReceive.Receiver.HandlePacket` | lrndis/rndis-stm32/usbd_rndis_core.c:612-626 | Counters and deliveries after a complete message are those of `Handle` on the received bytes, with the uint32 sum wrapping. |
| `RndisReceive.Receive` | lrndis/rndis-stm32/usbd_rndis_core.c:637-666 | Between packets the fill level is a multiple of 64 and at most 1536, and a packet shorter than 64 bytes always ends the message. |
| `RndisReceive.Framing` | lrndis/rndis-stm32/usbd_rndis_core.c:629-670 | The packets of one message that states its own length, with or without an empty packet after an exact multiple of 64, have exactly the effect of handling that message once. |
| `RndisReceive.WellFormedIsDelivered` | lrndis/rndis-stm32/usbd_rndis_core.c:616-625 | A well-formed message delivers its payload, counts one rxok and changes nothing else. |
| `RndisReceive.StreamDelivered` | lrndis/rndis-stm32/usbd_rndis_core.c:612-670 | Any sequence of well-formed messages is delivered: every payload slice, in order, once; rxok grows by one each, rxbad stays, nothing is left pending. |
| `RndisReceive.DeliveredExactly` | lrndis/rndis-stm32/usbd_rndis_core.c:616-625 | A framed packet message is counted bad, and not delivered, exactly when its data does not end where it does modulo 2^32; the slice handed over is its tail exactly when that sum does not wrap. |
| `RndisReceive.VerdictExactly` | lrndis/rndis-stm32/usbd_rndis_core.c:612-626 | For every message: the receiver changes exactly when it has at least 44 bytes, begins with the word 1 and states its own length; it is then counted good exactly when DataOffset + 8 + DataLength is that length modulo 2^32, bad otherwise, and a good one is handed over once if somebody listens. |
| `RndisReceive.AnyMessage` | lrndis/rndis-stm32/usbd_rndis_core.c:637-666 | Any bytes that end in a short packet are handled as one message, unless the length they state is that of some of their leading packets; then these are handled as a message and the rest as what comes after. |
| `RndisReceive.IgnoredExactly` | lrndis/rndis-stm32/usbd_rndis_core.c:612-670 | Such bytes, not cut early, leave everything as it was if and only if they do not state that they are a packet message of their own length. |
| `RndisReceive.OverflowExactly` | lrndis/rndis-stm32/usbd_rndis_core.c:637-641 | A packet overruns the buffer exactly when it has at least 23 bytes and 1536 are waiting; then both are dropped and one is counted bad. |
| `RndisReceive.WrapIsReachable` | lrndis/rndis-stm32/usbd_rndis_core.c:618-625 | Such a wrapped sum can occur: a message of 44 bytes with DataOffset 0xFFFFFFF0 and DataLength 52 is handed over. |
| `ReceivePath.FitsExactly` | project/app.c:97-104 | A delivered frame fits the mailbox exactly when at most 1514 bytes follow its data offset, in particular when the offset leaves the header alone. |
| `ReceivePath.PayloadTooLong` | lrndis/rndis-stm32/usbd_rndis_core.c:616-625 | A well-formed message whose payload does not fit: 1558 bytes with DataOffset 0. |
| `ReceivePath.CanArrive` | project/app.c:97-136 | Frames that fit can arrive, with a successful poll after each. |
| `ReceivePath.OnlyFittingArrive` | project/app.c:97-104 | No run contains a frame that does not fit. |
| `ReceivePath.StreamToStack` | lrndis/rndis-stm32/usbd_rndis_core.c:612-670 | From USB packets to the stack: a stream of well-formed messages handed to the mailbox in any interleaving with polls reaches the stack as an ordered part of its payloads, intact, and completely if a successful poll separates every two arrivals. |
| `RndisReceive.RunIsRelative` | lrndis/rndis-stm32/usbd_rndis_core.c:629-670 | What a run adds to the counters and deliveries does not depend on their values before it. |
| `RndisReceive.Resynchronises` | lrndis/rndis-stm32/usbd_rndis_core.c:629-670 | After any garbage that ends in a packet shorter than 64 bytes, everything later is received as by a freshly started device. |
| `RndisReceive.PendingIsRecentPackets` | lrndis/rndis-stm32/usbd_rndis_core.c:646-658 | At any point of any run the unfinished message is the concatenation of the last few packets, all of them full. |
| `RndisTransmit.Transmitter.Send` | lrndis/rndis-stm32/usbd_rndis_core.c:703-717 | A frame of 1 to 1514 bytes is accepted exactly when the transmitter is ready, and then the first transfer has been started; otherwise nothing changes. |
| `RndisTransmit.Transmitter.DataIn` | lrndis/rndis-stm32/usbd_rndis_core.c:537-610 | The in-endpoint callback: it starts the header transfer for a new frame, otherwise the next transfer or none, and ignores other endpoints. |
| `RndisTransmit.Transmitter.SendFirst` | lrndis/rndis-stm32/usbd_rndis_core.c:542-571 | The header fields, the first frame bytes and the padding decision put into the static packet, and what is left to send. |
| `RndisTransmit.Transmitter.FillHeader` | lrndis/rndis-stm32/usbd_rndis_core.c:548-557 | Clearing and storing four words gives the 44 header bytes and leaves the rest of the static packet alone. |
| `RndisTransmitRuns.NextKeepsInv` | lrndis/rndis-stm32/usbd_rndis_core.c:537-610 | Every step of every interleaving keeps the invariant: at most one outstanding transfer, and what was issued is what the accepted frames call for so far. |
| `RndisTransmitRuns.CompletionAdvances` | lrndis/rndis-stm32/usbd_rndis_core.c:573-607 | A completion issues the next transfer of the frame in progress, or ends it, without touching the static header packet. |
| `RndisTransmitRuns.ReachableStates` | lrndis/rndis-stm32/usbd_rndis_core.c:537-717 | In every reachable state NEED_SENDING is invisible, one transfer is outstanding exactly when the transmitter is not ready, and the transfers issued are those of the accepted frames in order, the last frame possibly cut short. |
| `RndisTransmitRuns.HeaderUntouchedInFlight` | lrndis/rndis-stm32/usbd_rndis_core.c:544-566 | The static first packet is not rewritten while a transfer is outstanding. |
| `RndisTransmitRuns.CanSendIsStable` | lrndis/rndis-stm32/usbd_rndis_core.c:698-701 | Once rndis_can_send is true it stays true, and nothing is issued, until the next accepted send. |
| `RndisTransmitRuns.ReadyAfterExactly` | lrndis/rndis-stm32/usbd_rndis_core.c:537-610 | An accepted frame is finished by exactly 1 + [size > 20] + [padded] completions, no fewer. |
| `RndisRoundTrip.HeaderFields` | lrndis/rndis-stm32/usbd_rndis_core.c:548-557 | The header read back: type 1, the stated length with the padding byte, DataOffset 36, DataLength without the padding byte, zeros. |
| `RndisRoundTrip.MessageSize` | lrndis/rndis-stm32/usbd_rndis_core.c:555-557 | No message fills its last packet, and even a padded one fits the 1558-byte receive buffer. |
| `RndisRoundTrip.WireFormat` | lrndis/rndis-stm32/usbd_rndis_core.c:537-610 | The transfers of a frame concatenate to header, frame and padding; their total is the stated MessageLength; cut into packets they are the packets of that message, and the last one has 1 to 63 bytes. |
| `RndisRoundTrip.PacketsRejoin` | lrndis/rndis-stm32/usbd_rndis_core.c:566-578 | Cutting transfers into packets loses nothing: put together they are what the transfers carry. |
| `RndisRoundTrip.RoundTrip` | lrndis/rndis-stm32/usbd_rndis_core.c:537-670 | Fed back to the receive path, a frame comes out unchanged when 44 + size is not a multiple of 64, and otherwise only counts one rxbad. |
| `RndisRoundTrip.AllRoundTrip` | lrndis/rndis-stm32/usbd_rndis_core.c:537-670 | The same for any sequence of frames. |
| `RndisRoundTrip.WholeRunRoundTrip` | lrndis/rndis-stm32/usbd_rndis_core.c:537-717 | For every interleaving that comes to rest, the packets on the wire make a receiver deliver exactly the accepted frames that needed no padding, in order, and count the others bad. |
| `RndisControl.ControlChannel.Ep0Recv` | lrndis/rndis-stm32/usbd_rndis_core.c:471-535 | Processing in place refines the pure step `Process`: buffer, state, filter and one notification per handled message; an unknown type changes nothing. |
| `RndisControl.ControlChannel.QueryComplete` | lrndis/rndis-stm32/usbd_rndis_core.c:282-306 | A query completion written over the request keeps its RequestId and everything behind the data. |
| `RndisControl.ControlChannel.Query` | lrndis/rndis-stm32/usbd_rndis_core.c:315-351 | The OID is taken from the request although Status overlays it, and the completion carries the answer to that OID. |
| `RndisControl.ControlChannel.HandleSet` | lrndis/rndis-stm32/usbd_rndis_core.c:374-469 | The completion, the filter and the state after a set request; the filter value is fetched after Status has been written. |
| `RndisControl.ControlChannel.Initialize` | lrndis/rndis-stm32/usbd_rndis_core.c:475-495 | The 52-byte completion and the state. |
| `RndisControl.ControlChannel.Reset` | lrndis/rndis-stm32/usbd_rndis_core.c:505-517 | The 16-byte completion, whose Status overlays the RequestId, and the state. |
| `RndisControl.ControlChannel.Keepalive` | lrndis/rndis-stm32/usbd_rndis_core.c:519-529 | The 16-byte completion, with the RequestId kept. |
| `RndisControl.ControlChannel.HostSends` | lrndis/rndis-stm32/usbd_rndis_core.c:258-280 | A data stage overwrites the front of the buffer and the message is then processed. |
| `RndisControl.ControlChannel.HostReads` | lrndis/rndis-stm32/usbd_rndis_core.c:266-269 | The host gets as many bytes as the buffer states, if that lies inside the buffer. |
| `RndisControl.ReplyShape` | lrndis/rndis-stm32/usbd_rndis_core.c:471-535 | A message is answered exactly when its type is handled; the completion has that type with the top bit set, states its true length of at most 112 of the 120 bytes and, except for reset, repeats the RequestId. |
| `RndisControl.QueryReplyFields` | lrndis/rndis-stm32/usbd_rndis_core.c:295-306 | Query data starts at byte 8 + 16 = 24, has the stated length and ends with the message. |
| `RndisControl.InitializeSays` | lrndis/rndis-stm32/usbd_rndis_core.c:475-495 | Success, and the nine words: version 1.0, connectionless, 802.3, one packet of 1558 bytes per transfer, no alignment, no address families. |
| `RndisControl.OthersSay` | lrndis/rndis-stm32/usbd_rndis_core.c:419-529 | A set request succeeds for five objects and fails for all others; reset and keepalive succeed, a reset with AddressingReset 1. |
| `RndisControl.WordAnswers` | lrndis/rndis-stm32/usbd_rndis_core.c:317-348 | The status and the value, on the bytes of the completion, for every object answered with one word. |
| `RndisControl.ByteAnswers` | lrndis/rndis-stm32/usbd_rndis_core.c:319-329 | The bytes answered for the two addresses, the vendor description and the list of supported objects. |
| `RndisControl.OtherQueriesFail` | lrndis/rndis-stm32/usbd_rndis_core.c:349 | Every other query is answered with failure and no data. |
| `RndisControl.AdvertisedExactly` | lrndis/rndis-stm32/usbd_rndis_core.c:319-350 | Of the advertised objects exactly two, 0x00010112 and 0x00010115, have no answer. |
| `RndisControl.OthersIgnored` | lrndis/rndis-stm32/usbd_rndis_core.c:531-533 | A message of any other type changes nothing and is not announced. |
| `RndisControl.BufferExactly` | lrndis/rndis-stm32/usbd_rndis_core.c:258-306 | Every byte of the buffer after a transfer: that of the completion where it reaches, else of the transfer, else what was there. |
| `RndisControl.FilterFromBeyond` | lrndis/rndis-stm32/usbd_rndis_core.c:353-435 | A value address outside the buffer installs what lies there. |
| `RndisControl.FilterIsTheRequestsValue` | lrndis/rndis-stm32/usbd_rndis_core.c:353-436 | For every value address inside the buffer, wrapped ones included, the installed filter is the value in the request exactly when that address is 8, or 15 or more, or 4 to 7 with length bytes that happen to equal those of the completion. |
| `RndisControl.StatusForFilter` | lrndis/rndis-stm32/usbd_rndis_core.c:353-436 | A failing offset: with 1 the installed filter is not the value that the request has there. |
| `RndisControl.RunRemembers` | lrndis/rndis-stm32/usbd_rndis_core.c:434-513 | Over any message sequence filter and state are those of the last message that set them. |
| `RndisControl.DataNeedsFilter` | lrndis/rndis-stm32/usbd_rndis_core.c:434-445 | From power-on, data_initialized implies a non-zero packet filter. |
| `RndisControl.HostReadsReply` | lrndis/rndis-stm32/usbd_rndis_core.c:258-280 | What the host reads back after a handled message is the completion of that very message, announced by one notification. |
| `RndisControl.FilterQuery` | lrndis/rndis-stm32/usbd_rndis_core.c:330 | After any run from power-on a current-packet-filter query answers success and the last filter set, or 0. |
| `DhcpOptions.FindDhcpOption` | lrndis/dhcp-server/dhserver.c:136-148 | The scanning loop finds what hopping from option to option finds. |
| `DhcpOptions.FindFrom` | lrndis/dhcp-server/dhserver.c:136-148 | A result lies in the area, has the sought code, and its value does not run past the end. |
| `DhcpOptions.FindsFirst` | lrndis/dhcp-server/dhserver.c:136-148 | On options without PAD closed by END and zeros, the reader returns the value of the first option with the code, or nothing. |
| `DhcpOptions.EncodingHolds` | lrndis/dhcp-server/dhserver.c:136-148 | An encoded list with END and zero fill is such an area. |
| `DhcpOptions.PadsExactly` | lrndis/dhcp-server/dhserver.c:139-146 | k PAD bytes are skipped when k is even; otherwise the byte behind them is taken for a length and the search goes on that far behind, or fails. |
| `DhcpOptions.FindsFirstPadded` | lrndis/dhcp-server/dhserver.c:136-148 | Options with an even number of PAD bytes before each are read like those without PAD. |
| `DhcpOptions.AddressBehindPads` | lrndis/dhcp-server/dhserver.c:258-263 | A requested address behind k PAD bytes, followed by END and zeros, is found if and only if k is even. |
| `DhcpOptions.PadHidesOptions` | lrndis/dhcp-server/dhserver.c:139-146 | The smallest case: one PAD hides the address, none and two do not. |
| `DhcpOptions.EndExactly` | lrndis/dhcp-server/dhserver.c:139-146 | The reader does not stop at END: it goes on as far behind as the next byte says. It finds what an option list holds if and only if the list holds the option or nothing is found behind END. |
| `DhcpOptions.LeaseIsBigEndian` | lrndis/dhcp-server/dhserver.c:171-177 | The signed shifts store every 32-bit lease time, most significant byte first. |
| `DhcpOptions.FillOptions` | lrndis/dhcp-server/dhserver.c:150-216 | The writer stores the encoded option list and END, leaves everything else alone, and returns 22 + 6[router] + (2 + len)[domain] + 6[dns]. |
| `DhcpOptions.AreaBytes` | lrndis/dhcp-server/dhserver.c:159-215 | The filled options area byte by byte, in the order of the source. |
| `DhcpOptions.FilledSizeIsTrue` | lrndis/dhcp-server/dhserver.c:150-216 | That size is the length of the encoded list and END. |
| `DhcpOptions.ReaderRecoversFields` | lrndis/dhcp-server/dhserver.c:136-216 | For every code but PAD and END, reading a zeroed area the writer filled gives the field stored for it, and nothing for a field left out. |
| `DhcpLeases.ByMac` | lrndis/dhcp-server/dhserver.c:108-115 | The first entry with the MAC, or none. |
| `DhcpLeases.ByIp` | lrndis/dhcp-server/dhserver.c:99-106 | The first entry with the address, or none. |
| `DhcpLeases.NextKeepsDistinctMacs` | lrndis/dhcp-server/dhserver.c:258-300 | No message lets a non-zero MAC appear twice. |
| `DhcpLeases.NextKeepsPool` | lrndis/dhcp-server/dhserver.c:218-306 | Messages change nothing but MACs; distinct addresses stay distinct. |
| `DhcpLeases.OnlyClaimsChange` | lrndis/dhcp-server/dhserver.c:258-263 | Nothing but a REQUEST that names a four-byte address changes the table or is acknowledged. |
| `DhcpLeases.NextExactly` | lrndis/dhcp-server/dhserver.c:265-296 | What a message does to each entry: the one acknowledged gets its sender, the one the sender held is vacated, every other stays. |
| `DhcpLeases.OfferExactly` | lrndis/dhcp-server/dhserver.c:229-232 | What is offered: the first entry of a known client, and to a stranger the first vacant one. |
| `DhcpLeases.OthersUntouched` | lrndis/dhcp-server/dhserver.c:258-300 | A lease is not touched by any message but a REQUEST of its holder that names an address. |
| `DhcpLeases.NoBufferNoAssignment` | lrndis/dhcp-server/dhserver.c:294-296 | Without a reply buffer a message sends nothing and at most releases the entry of its own sender. |
| `DhcpLeases.AckBinds` | lrndis/dhcp-server/dhserver.c:269-296 | An acknowledged client is recorded at the address it asked for, which was vacant or its own. |
| `DhcpLeases.AckExactly` | lrndis/dhcp-server/dhserver.c:265-272 | A REQUEST is granted exactly when the first entry with the address is vacant or is the one its sender has just given up. |
| `DhcpLeases.HoldsWhatWasAcknowledged` | lrndis/dhcp-server/dhserver.c:265-296 | After a REQUEST that names an address its sender holds exactly the entry acknowledged to it, and nothing when it got no answer. |
| `DhcpLeases.RunKeepsInvariants` | lrndis/dhcp-server/dhserver.c:218-306 | Over any run the pool stays what it was configured to be and non-zero MACs stay distinct. |
| `DhcpLeases.LeaseSurvives` | lrndis/dhcp-server/dhserver.c:258-300 | A lease survives any run in which its holder sends no REQUEST that names an address. |
| `DhcpLeases.NoDoubleLease` | lrndis/dhcp-server/dhserver.c:218-306 | If an address is acknowledged to a non-zero MAC and later to another, the first has sent a REQUEST that names an address in between. Holds for pools with repeated addresses too. |
| `DhcpLeases.ZeroMacHoldsNothing` | lrndis/dhcp-server/dhserver.c:117-120 | The rule fails for the all-zero MAC: two acknowledgements of one address in a row. |
| `DhcpLeases.OfferIffRoom` | lrndis/dhcp-server/dhserver.c:229-232 | A DISCOVER is ignored exactly when the client is unknown and every entry is bound. |
| `DhcpLeases.OfferIsHonoured` | lrndis/dhcp-server/dhserver.c:229-300 | With distinct addresses, a client that requests what it was offered, with no other REQUEST for an address in between and a buffer available, is acknowledged that entry. |
| `DhcpLeases.SameOfferAfterAck` | lrndis/dhcp-server/dhserver.c:229-300 | After an acknowledgement every DISCOVER of that client before its next REQUEST for an address is offered the acknowledged one. |
| `DhcpServer.Server.EntryByIp` | lrndis/dhcp-server/dhserver.c:99-106 | The loop returns the first entry with the address. |
| `DhcpServer.Server.EntryByMac` | lrndis/dhcp-server/dhserver.c:108-115 | The loop returns the first entry with the MAC. |
| `DhcpServer.Server.VacantAddress` | lrndis/dhcp-server/dhserver.c:122-129 | The loop returns the first entry with the all-zero MAC. |
| `DhcpServer.MergedExactly` | lrndis/dhcp-server/dhserver.c:224-226 | The record after a datagram: its bytes, and behind them what was there. |
| `DhcpServer.MessageExactly` | lrndis/dhcp-server/dhserver.c:227-263 | What a record is taken for: byte 242 tells the type, bytes 28 to 33 the client, and a REQUEST names the address that is the value of the first option 50, if that has four bytes. |
| `DhcpServer.Server.UdpRecv` | lrndis/dhcp-server/dhserver.c:218-306 | One datagram, merged into the persistent record: the table moves as `Next` says, the record becomes the reply built from it, and the whole 516-byte record is sent exactly when the lease table has an answer and there is a buffer. |
| `DhcpServer.Server.HandleRequest` | lrndis/dhcp-server/dhserver.c:258-300 | The REQUEST case: release, lookup, reply, and assignment only with a buffer. |
| `DhcpServer.Server.HandleDiscover` | lrndis/dhcp-server/dhserver.c:229-256 | The DISCOVER case: the reply for the offered entry, without a change to the table. |
| `DhcpServer.Server.BuildReply` | lrndis/dhcp-server/dhserver.c:234-249 | The in-place stores give the reply record: cleared secs and flags, the address, the cookie, a zeroed and refilled options area, every other byte kept. |
| `DhcpServer.ReplyHeader` | lrndis/dhcp-server/dhserver.c:234-249 | A reply keeps transaction id and client MAC and carries the address of the entry and the magic cookie. |
| `DhcpServer.ReplyBytes` | lrndis/dhcp-server/dhserver.c:234-240 | Every byte of a reply in front of its options, and the one behind them. |
| `DhcpServer.ReplyOptions` | lrndis/dhcp-server/dhserver.c:242-249 | What a client reads in a reply, by option code, in terms of the configuration and the entry: type, server, lease time, subnet mask, router, domain, name server, and no other option. |
| `DhcpServer.ReplyIsReadable` | lrndis/dhcp-server/dhserver.c:227-249 | Read with the option reader of the server itself, a reply yields the message type, the server, the lease and the network configuration; its third options byte is the message type. |
| `DhcpRuns.ServeOne` | lrndis/dhcp-server/dhserver.c:218-306 | The server, given a datagram, leaves the record and the table and sends the reply that this module computes. |
| `DhcpRuns.TableFollows` | lrndis/dhcp-server/dhserver.c:218-306 | The lease table of a run of datagrams through the persistent record is that of the run of the messages they are taken for. |
| `DhcpRuns.RecordExactly` | lrndis/dhcp-server/dhserver.c:224-256 | The record after a datagram is the reply when there is one to be sent, buffer or not, and otherwise the datagram as merged. |
| `DhcpRuns.ReplyOnWire` | lrndis/dhcp-server/dhserver.c:229-298 | A reply on the wire, byte by byte and option by option, in terms of the datagram, the configuration and the entry decided on. |
| `DhcpRuns.AckedMeans` | lrndis/dhcp-server/dhserver.c:258-300 | The bytes sent acknowledge an address to a MAC if and only if the datagram was taken for a REQUEST of that MAC for that address and was granted. |
| `DhcpRuns.NoDoubleLeaseOnWire` | lrndis/dhcp-server/dhserver.c:218-306 | If a reply acknowledges an address to a non-zero MAC and a later one acknowledges it to another, a datagram in between was a REQUEST of the first whose first option 50 has four bytes. |
| `DhcpRuns.OfferIsHonouredOnWire` | lrndis/dhcp-server/dhserver.c:218-306 | A client offered an address by a reply that requests it, with no datagram taken for a REQUEST for an address in between and a buffer available, is sent an acknowledgement of it. |
| `DhcpRuns.SameOfferOnWire` | lrndis/dhcp-server/dhserver.c:218-306 | A client that was sent an acknowledgement and asks again, with no datagram taken for a REQUEST of it for an address in between and a buffer available, is sent an offer of the same address. |
| `DhcpRuns.StaleAddress` | lrndis/dhcp-server/dhserver.c:224-272 | Two datagrams: a REQUEST that names no address is granted the one that an earlier, longer and ignored datagram named, which is read behind END. |
| `SysClock.ReadingIsExact` | project/time.c:86-93 | The formula with its two roundings is exactly elapsed cycles / 144 + 1. |
| `SysClock.TickKeepsInv` | project/time.c:72-75 | A counter cycle, and at the wrap the handler, keep the invariant whatever the reader is doing. |
| `SysClock.ReadKeepsInv` | project/time.c:83-96 | Every read step of utime keeps it, with the 64-bit total read as two halves. |
| `SysClock.ClockIsLinearizable` | project/time.c:70-97 | In every interleaving each value returned is the time at an instant inside its call, and later calls never return less. |
| `SysClock.QuietCallReturns` | project/time.c:83-96 | A call during which the counter does not wrap returns on its first attempt, whichever half of the total it reads first. |
| `TimerMath.ElapsedModulo` | project/time.c:164-165 | The uint32 subtraction gives the true elapsed time modulo 2^32. |
| `TimerMath.DueInTrueTime` | project/time.c:164-167 | A timer found due is due in true time, and a due timer is found due if less than 2^32 microseconds have passed. |
| `TimerMath.RestartedMeanwhile` | project/time.c:154-169 | On two times: a stamp newer than the time of the pass makes a timer due exactly when its period is at most 2^32 minus that difference. |
| `SoftTimers.EarlyExactly` | project/time.c:154-169 | A visit fires before a period has passed since the last event exactly when the timer is active, carries a stamp newer than the pass, and its period is at most 2^32 minus that difference; such a stamp comes from a restart or a firing in the same pass. |
| `TimerRuns.RestartedFires` | project/time.c:150-171 | A pass whose first callback restarts the timer behind its own: that timer is visited with a stamp no older than the pass, and fires at once if the clock has moved on by no more than its period leaves. |
| `SoftTimers.TimerList.Add` | project/time.c:184-188 | Links an unlinked timer in front of the list. |
| `SoftTimers.TimerList.Init` | project/time.c:173-182 | Clears an unlinked timer and links it in front of the list. |
| `SoftTimers.TimerList.Free` | project/time.c:190-215 | Removes exactly that timer and keeps the order of the others; a timer that is not linked is left alone. |
| `SoftTimers.TimerList.Run` | project/time.c:222-226 | Sets the active flag alone and stamps the timer with the present time. |
| `SoftTimers.TimerList.Stop` | project/time.c:217-220 | Clears the active flag alone. |
| `SoftTimers.TimerList.TimersDistinct` | project/time.c:148-215 | The list every operation keeps is acyclic and free of duplicates. |
| `SoftTimers.TimerList.Do` | project/time.c:173-226 | A call changes the list as `After` says and the setting of its own timer as `Changed` says, and nothing else. |
| `SoftTimers.TimerList.Make` | project/time.c:168 | Whatever calls a callback makes, among them unlinking the saved timer: the list moves as `AfterAll` says and the setting of every timer as `EffectAll` says, where a restart leaves a stamp no older than the pass. |
| `SoftTimers.TimerList.LinkAgain` | project/time.c:184-188 | Why linking a linked timer is outside the interface: the links from the head then lead round for ever. |
| `SoftTimers.TimerList.VisitOne` | project/time.c:160-169 | One turn: the successor is saved before the callback, the timer fires exactly when active and due by the wrapped test, and is stamped with the time after its callback has returned. |
| `SoftTimers.TimerList.Callback` | project/time.c:168 | A callback makes its calls and takes its time: the clock may have moved on when it returns. |
| `SoftTimers.TimerList.Stmr` | project/time.c:150-171 | One pass, for any calls its callbacks make: which timers are visited, and the list afterwards, are those of the pure walk `Go` over the list and the calls; every visit is sound and finds the setting that the visits and calls before it have left (`Expect`), and so does every timer afterwards. |
| `TimerWalk.VisitsInOrder` | project/time.c:155-170 | Unless a callback unlinks the saved timer and links it again, a pass visits the timers linked at its start once each and in order, except those that calls took away. |
| `TimerWalk.MissedExactly` | project/time.c:161-168 | When callbacks link nothing, the timers still linked that a pass did not visit are exactly those lost behind a saved timer that was unlinked; the unlinked timer itself is visited. |
| `TimerWalk.LostExactly` | project/time.c:161-168 | A timer is lost if and only if it stood behind the saved timer when a call unlinked that, and no later call unlinked it too. |
| `TimerWalk.CompleteExactly` | project/time.c:161-168 | When callbacks link nothing, every timer still linked is visited if and only if all that stood behind a saved timer when it was unlinked is unlinked later in the pass. |
| `TimerWalk.CutShort` | project/time.c:161-168 | The smallest failing pass: the first callback unlinks the second timer; exactly the first two are visited although the second is no longer linked, and all the others are lost. |
| `TimerWalk.CompleteWithoutCuts` | project/time.c:161-168 | A condition on the calls: when none links a timer and none unlinks the timer behind its own while others stand behind that one, every timer still linked is visited. |
| `TimerWalk.VisitsExactly` | project/time.c:155-188 | For every pass without exception: it visits what it visited until its walk last started over, which it does when a callback links the saved timer again, and from then on the timers linked at that moment, once each and in order, except those taken away since. |
| `TimerWalk.VisitedAgainExactly` | project/time.c:155-188 | A timer is visited after the walk last started over if and only if it was linked at that moment and no call has taken it away since; so one visited before is visited again exactly then. |
| `TimerWalk.VisitedTwice` | project/time.c:161-188 | The smallest pass in which at most once fails: the first callback unlinks the second timer and links it again, and the visits are first, second, first. |
| `TimerWalk.OwnFreesVisitAll` | project/time.c:155-170 | Callbacks that unlink no timer but their own let a pass visit exactly the timers linked at its start, in order, whatever else they call. |
| `TimerRuns.PlainPass` | project/time.c:150-171 | stmr itself with free, stop and run callbacks: it visits every timer still linked at its end if and only if each cut has all that stood behind it unlinked later; timers cut while saved are visited all the same. |
| `TimerRuns.AnyPass` | project/time.c:150-171 | stmr itself with any callbacks: its visits are those of `TimerWalk.VisitsExactly`. |
| `TimerRuns.OnePass` | project/time.c:150-171 | Seen from a linked timer that callbacks spare: it is visited once and fires exactly when active and due; unless it fires it stays linked with its setting; if it fires its stamp is no earlier than the return of its callback, and if that keeps it, it stays linked and active with its period. |
| `TimerRuns.RunPasses` | project/time.c:150-226 | Any number of passes with calls in between, none of which but its own callback concerns the timer: until it first fires, every pass visits it exactly once and fires it exactly when it is due by the wrapped test from its event at the start. |
| `TimerRuns.FiresWhenDue` | project/time.c:164-167 | Over such a run, in true 64-bit microseconds: it never fires before its period has passed, and it fires in the first pass at which it has, if each pass up to then sees the event less than 2^32 microseconds old. |
| `TimerRuns.RunPeriodic` | project/time.c:150-226 | The same for any number of firings of a timer that its own callback keeps: every pass visits it exactly once and fires it exactly when due since its last firing. |
| `TimerRuns.FiringsApart` | project/time.c:164-169 | Over such a run, in true microseconds: a firing comes at least a period after the callback of any earlier firing has returned, and a pass less than 2^32 microseconds after the last event fires the timer exactly when a period has passed. |
| `SoftTimers.VisitInTrueTime` | project/time.c:162-169 | A visit to a timer not restarted in the pass never fires early in true microseconds, and always fires when due within 2^32. |
| `DnsParser.ParseNextQuery` | lrndis/dns-server/dnserver.c:86-124 | The loop returns -1, -2 or the bytes consumed as the pure parser says; on success the array holds the dotted name and its NUL, and type and class are the two 16-bit fields before the end. |
| `DnsParser.ParseIsExact` | lrndis/dns-server/dnserver.c:86-124 | Parsing succeeds if and only if the data begins with a terminated label list whose dotted form has at most 127 bytes, followed by four more bytes; that list and its length plus four are then the result. |
| `DnsParser.EncodeThenParse` | lrndis/dns-server/dnserver.c:86-124 | Encoding a label list and parsing it, whatever follows the question, gives the list back. |
| `DnsParser.DottedSplits` | lrndis/dns-server/dnserver.c:103-111 | A dotted name splits at its dots into its labels, if they contain none themselves. |
| `DnsServer.CStringExactly` | lrndis/dns-server/dnserver.c:118 | What the lookup is given: the longest front of the stored name without a NUL. |
| `DnsServer.Responder.UdpRecv` | lrndis/dns-server/dnserver.c:126-161 | A reply is sent exactly to an acceptable query whose name the lookup knows, if there is a buffer; the lookup gets the dotted name up to its first NUL. |
| `DnsServer.Responder.Build` | lrndis/dns-server/dnserver.c:148-158 | Copying and patching give the header with the response bit and one answer, the question, and the 16-byte record. |
| `DnsServer.ReplyKeepsQuestion` | lrndis/dns-server/dnserver.c:144-158 | A reply is 16 bytes longer than header and question, and its question parses as that of the query does. |
| `DnsServer.ReadsLabels` | lrndis/dns-server/dnserver.c:96-115 | The standard's decoder reads encoded labels back exactly when none is longer than 63 bytes. |
| `DnsServer.ReadsAnswer` | lrndis/dns-server/dnserver.c:152-158 | The appended record decodes to the name of the question through the pointer 0xC00C, type 1, class 1, 32 seconds and the address, and ends the message. |
| `DnsServer.AcceptsExactly` | lrndis/dns-server/dnserver.c:135-141 | Which datagrams are acceptable: more than twelve bytes, response bit clear, one question, and behind the header a name whose dotted form has at most 127 bytes and four more bytes. |
| `DnsServer.ReplyHeaderBytes` | lrndis/dns-server/dnserver.c:148-151 | The twelve header bytes of any reply: those of the query, with the response bit set, which was clear, and one answer. |
| `DnsServer.ReplyDecodes` | lrndis/dns-server/dnserver.c:126-161 | By its own counts the whole reply decodes, consumed to its last byte, if and only if the query announced no authority and no additional records and its labels have at most 63 bytes; then it has the identifier and flags of the query with the response bit set, its question, and that one record. |
| `DnsServer.AdditionalCountSpoils` | lrndis/dns-server/dnserver.c:126-161 | A failing query, and the same one without its additional record, whose reply decodes. |
| `Mailbox.Box.OnPacket` | project/app.c:100-104 | The newest frame replaces what was waiting. |
| `Mailbox.Box.Take` | project/app.c:119-134 | A poll takes the waiting frame only with a buffer, and without one keeps it. |
| `Mailbox.NextKeepsInv` | project/app.c:97-136 | Every interrupt, poll and hand-over keeps the invariant. |
| `Mailbox.InputsAreArrivals` | project/app.c:97-136 | In every interleaving the frames passed on are a subsequence of the arrivals: intact, in order, each at most once. |
| `Mailbox.PollTakesNewest` | project/app.c:119-134 | A successful poll takes the newest arrival; a failed one changes nothing. |
| `Mailbox.OverwrittenIsLost` | project/app.c:100-104 | An arrival overwritten before it was taken is never taken later. |
| `Mailbox.NothingLost` | project/app.c:97-136 | If every arrival finds the box empty, every non-empty arrival is delivered, in hand or in the box. |
| `LinkOutput.Link.Wait` | project/app.c:155-159 | The wait ends with a ready transmitter or after 200 turns, with every completion that arrived until then applied. |
| `LinkOutput.Link.Gather` | project/app.c:160-166 | The loop, with completions between the copies, computes the pure gathering `Fill`: result, transmitter, array and size. |
| `LinkOutput.Link.Copy` | project/app.c:164 | A copy into the static array is seen at once by a transmitter that points there. |
| `LinkOutput.Link.Output` | project/app.c:149-172 | For completions during the sleeps, between the copies and before the second test: the result, the transmitter and the array are those of the pure gathering, also after a timed-out wait and for a refused chain. |
| `LinkOutput.Link.OutputResult` | project/app.c:155-171 | What linkoutput_fn returns: ERR_ARG for more than 1514 bytes; otherwise ERR_OK if and only if the completions in its 200 sleeps, between its copies and before its second test are as many as the transmitter needs to be ready, and ERR_USE if not. |
| `LinkOutput.Link.OutputOver` | project/app.c:155-169 | While the header transfer of a frame in the array is in flight, for every pattern of completions: when the data transfer of the frame completes, or at return if that is still to come, its bytes are the frame's own if and only if at least two completions arrive during the wait, or the buffers copied before the second completion agree with the frame from byte 20 on. |
| `LinkOutput.LeavesCorrupted` | project/app.c:155-168 | Two runs, with no and with one completion in the first sleep, in which the data of a frame of 1514 zeros is all ones, from the frame refused after it, when its data transfer completes; in the second that had been started with the zeros. |
| `LinkMemory.FillSizes` | project/app.c:160-166 | A chain is refused exactly when longer than 1514 bytes; what is left in the array, refused or not, is the buffers up to there over the old bytes. |
| `LinkMemory.ReadySendsExactly` | project/app.c:155-171 | When the wait ended ready, a chain of 1 to 1514 bytes is begun exactly as it is by a transmitter with nothing in flight; an empty one sends nothing, a longer one is refused. |
| `LinkMemory.ResultExactly` | project/app.c:160-171 | The same on values, from the end of the wait on. |
| `LinkMemory.NeededExactly` | lrndis/rndis-stm32/usbd_rndis_core.c:573-607 | How many completions make a transmitter ready: its transfers that are still to complete, no fewer. |
| `LinkMemory.DataExactly` | project/app.c:155-169 | The same equivalence on values, for every number of completions before, between the copies and after. |
| `LinkMemory.AgreesThroughout` | project/app.c:160-166 | Bytes that agree up to the second completion agreed at every moment before, so it does not matter when the driver read them. |
| `LinkMemory.AllIntact` | project/app.c:155-169 | Over any run of calls whose waits all end ready, the data transfers carried in the end are those of the accepted chains, in order, with the bytes of those chains. |
| `LinkMemory.MemoryExactly` | project/app.c:160-166 | What an endpoint can still read of a data transfer in flight is the frame's own exactly when everything that was copied agrees with it, the buffers of a refused chain included. |

## Left out

- USB core calls: a started transfer is appended to a ghost sequence; the core is taken to cut a transfer into 64-byte packets and to add no empty packet of its own.
- USB notification contents, descriptors, configuration, and the class requests other than the two encapsulated-command ones.
- lwIP: allocation is a boolean parameter, reference counting and the stack behind ethernet_input are not modelled.
- RndisControl.ControlChannel.HostSends: a data stage longer than the 120-byte buffer is excluded; it would overwrite what lies behind the buffer.
- RndisControl.ControlChannel.HostReads: a stated length above 120 gives None; the bytes behind the buffer that would be sent are not modelled.
- RndisReceive.Receiver.DataOut: a packet has at most 64 bytes, as the endpoint guarantees.
- Mailbox.Box.OnPacket: frames longer than 1514 bytes, which would run past the array, are excluded; `ReceivePath.FitsExactly` says when the receive path delivers none.
- Memory outside the control buffer: a filter value fetched from there is the parameter `beyond`.
- The configuration-parameter handler and rndis_packetFilter do nothing in the source and are not modelled.
- RndisReceive.DeliveredExactly: for a wrapped sum the bytes handed over are unspecified, because they are not the message's.
- Overflow of the clock's 64-bit total, and calls of utime from two contexts at once (its accumulator is static).
- The real-time clock, standby and busy-wait functions of project/time.c, and the peripheral libraries.
- SoftTimers.TimerList.Do: a call that would link a linked timer is not made, because the walk would then never end (`SoftTimers.TimerList.LinkAgain`); callbacks do not write `period` except through Init.
- SoftTimers.TimerList.Add: a timer that is already linked is excluded by precondition, as the source requires of its callers.
- SoftTimers.TimerList.Init: the same; the `data` and `proc` fields are not modelled, and an active timer without a callback is not followed.
- SoftTimers.TimerList.Stmr: the k-th callback of a pass makes the finitely many calls its script gives; callbacks that unlink and relink the saved timer without end are not followed.
- DhcpServer.Server.UdpRecv: a datagram is one buffer, as the source reads only the first; the UDP port and broadcast address of the reply are left out. The configuration must fit the options area.
- DnsServer.Responder.UdpRecv: the lookup is a function parameter. The answer always has type 1, as in the source, whatever the question asked.
- Targets other than the little-endian one: byte order conversions are written out for it.
- LinkOutput.Link.Output: a data transfer counts as carried with the bytes in the array when it completes, the latest moment at which the driver can read them; how much of it the 256-byte FIFO holds before that is not modelled. An interrupt inside one memcpy counts as before or after it. The result of the inner rndis_send is ignored, as in the source.
- HTTP, CGI, SSI and LED handlers, `main`, and the host tool that generates the file system: user interface and set-up.
