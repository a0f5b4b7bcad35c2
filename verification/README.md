# AL1 wireless module: verified protocol stack and session bridge

This project models, in Dafny, everything between a BLE write and a decoded
Attentio Protocol (AP) packet on the far side of the UART of the AL1 wireless
module, and the way back, and proves what the pieces guarantee alone and
together.

The system in its own terms:

- An **AP packet** is SYNC, LEN, CMD, up to 252 payload bytes and a CRC-8
  (generator x^8+x^2+x+1, section 4.3.2 of ITU-T I.432.1, register initially 0,
  no final exclusive or).
- A BLE client writes packets in arbitrary pieces. The **bridge** reassembles
  each connection's bytes by LEN alone, applies the **single-session policy**
  (CLAIM, OK, gate, RELEASE, disconnect) and hands whole frames to the link.
- The **link** numbers frames per channel, queues at most 32 of them and writes
  them to the UART: SYNC, VERSION, CHANNEL, SEQ, LEN, up to 4096 payload bytes and
  a CRC-16 (generator 0x1021, section 2 of ITU-T V.41, initial value 0xFFFF).
- The far side runs the link parser, then the CRC-checking AP parser, which is
  the authority on packets. Replies come back as link frames, are routed to one
  connection or broadcast, and are cut into **notifications** of at most ATT_MTU - 3
  bytes (Bluetooth Core Specification, Vol 3, Part F, section 3.4.7.1), which the
  client's own reassembler puts together again.

## How it is organised

| file | content |
|---|---|
| `Bytes`, `Machine`, `Arithmetic` | byte strings and their bits; deterministic machines run over inputs, and the law that cutting the input into calls changes nothing; common divisors |
| `Crc16`, `ErrorDetection`, `DoubleErrors` | the bitwise CRC-16, its linearity and residue; bursts and odd flips; the order of the generator and two flips |
| `Crc8`, `Crc8Bursts` | the CRC-8 table, the bit-serial division it stands for; what it detects |
| `ApWire`, `ApReasm`, `ApCodec` | AP constants; the length-only reassembler; the CRC-checking parser and builder |
| `Framing`, `Tokens` | reassembler and parser in lockstep; the grammar of AP streams |
| `LinkFrame`, `LinkProperties` | link builder and nine-state parser; completeness, soundness, corruption, accounting, stabilisation |
| `LinkTx`, `LinkProgress` | sequence numbers, bounded queue, transmit task, buffer ownership; when a send is accepted and when its frame leaves |
| `SessionPolicy`, `SessionProperties`, `Forwarding` | the session machine and its meaning as a history of events; which event forwarded which frame |
| `SlotTable`, `Bridge`, `BridgeRuns`, `BridgeImpl` | connection tables, the whole bridge as a machine, its runs, and the handlers that update it in place |
| `Notify`, `Client` | MTU fragmentation with its 16-bit offset; the client's reassembler and builder |
| `WireFormat` | layouts, check values and command codes written out in numbers |
| `EndToEnd` | all of it composed |

Every object the firmware updates in place is a class (`ApReasm.Reassembler`,
`ApCodec.Parser`, `LinkFrame.Parser`, `LinkTx.Link`, `BridgeImpl.ApBridge`,
`Client.ApReassembler`) whose methods are proved to take one step of a machine
given as a function; the lemmas are about runs of those machines.

## Modelling assumptions

- Each handler, and each turn of the transmit task, is one atomic step.
- A live connection handle is never connected again before it disconnects, and no
  handle is the reserved value `CONN_NONE` (`Bridge.Admissible`). The tables may
  have any size.
- The bridge's callbacks are registered before the first connect.
- An inbound AP_CTRL payload may be any bytes. The session id of an OK is read by
  LEN, so when the payload is shorter than LEN announces, the bytes behind it in the
  receive buffer are read; these are an input. The theorems on what clients
  reassemble assume the payload is one whole AP frame.
- The bridge is the only sender on AP_CTRL, as in the firmware, and it sends as it
  forwards: at every moment the AP_CTRL sends are the frames forwarded so far, up to
  one about to be sent. The link is running; a send while it is stopped leaves no trace.
- Statistics counters and the session ledger are natural numbers.
- `malloc` may fail at any time: its answer is an input, as are the MTU and the
  return codes of the BLE stack.

## Where the code differs from its documentation

The proofs follow the code.

- Binding: the bridge's comment says a CLAIM is bound by *its* OK
  (`fw_al1_wmod/components/al1_ble/al1_ble_ap_bridge.c:11-13`). In the code any OK
  consumes the pending claim, and an ERROR does not withdraw it. `FieldsAreHistory`
  states the exact condition for being bound; by `RefusedClaimStillBinds` a claim
  refused by an ERROR is granted by the next OK, in every history.
- RELEASE and a session end clear the binding but not a pending claim
  (`PendingOutlivesSession`).
- The session id is kept when an OK carries none, so after a handover it can be
  another grant's. `SessionIdIsHistory` says whose it is in every history, `StaleIff`
  exactly when it is not the current grant's, and `StaleSessionId` gives such a run.
- The header still says that link frames are broadcast to all
  (`fw_al1_wmod/components/al1_ble/include/al1_ble.h:132-133`); the code routes them
  (`RoutingIsHistory`).
- The notification loop's 16-bit offset can wrap. The loop sends exactly the data iff
  the length rounded up to whole chunks is below 65536 (`SendsExactlyIff`); it ends at
  all iff the length is at most 65536 less the greatest common divisor of 65536 and
  the chunk (`LeavesIff`); and when it ends after wrapping it has sent more than the
  data (`WrappedSendsMore`). Everything the link can deliver is safe
  (`LinkSizedNeverWraps`); 65535 bytes at the minimum MTU never end
  (`MinimumMtuNeverLeaves`).
- SEQ gaps show only drops that happened after numbering: an oversized payload or a
  failed allocation counts as a drop but leaves no gap (`RefusedUnnumbered`).

## Model

| member | source | states |
|---|---|---|
| Crc16.UpdateByte | fw_al1_wmod/components/al1_link/crc16_ccitt.c:9-17 | the in-place shift loop computes one register update |
| Crc16.Compute | fw_al1_wmod/components/al1_link/crc16_ccitt.c:19-26 | the loop over a buffer computes the register from 0xFFFF, left to right |
| ErrorDetection.FoldIsBits | fw_al1_wmod/components/al1_link/crc16_ccitt.c:9-26 | reference: byte-wise folding equals feeding the message bit by bit into the shift register of the generator |
| Crc16.FoldLinear | fw_al1_wmod/components/al1_link/crc16_ccitt.c:9-26 | the register of a corrupted message is the register of the message xor that of the error pattern |
| Crc16.ResidueZero | fw_al1_wmod/components/al1_link/al1_frame.c:46-51 | two received bytes leave the register at zero iff they are its value, high byte first |
| ErrorDetection.BurstDetected | fw_al1_wmod/components/al1_link/crc16_ccitt.c:9-26 | an error pattern of any length whose flips lie within 16 consecutive bits never leaves a zero register |
| ErrorDetection.ParityKept | fw_al1_wmod/components/al1_link/crc16_ccitt.c:9-17 | the register's parity after any message is its parity before, plus the number of message bits set |
| ErrorDetection.SeventeenBitBurstMissed | fw_al1_wmod/components/al1_link/crc16_ccitt.c:9-26 | the generator itself is a 17-bit pattern that leaves a zero register |
| DoubleErrors.PeriodIff | fw_al1_wmod/components/al1_link/crc16_ccitt.c:9-26 | the register's powers of x repeat with period 32767 and none smaller |
| DoubleErrors.DoubleMissedIff | fw_al1_wmod/components/al1_link/crc16_ccitt.c:9-26 | in a message of any length two flipped bits leave a zero register iff their distance is a multiple of 32767 |
| WireFormat.Crc16CheckValue | fw_al1_wmod/components/al1_link/test/host_test.c:60-63 | the digits 1 to 9 give 0x29B1 and the empty message 0xFFFF |
| Crc8.TableIsRemainder | fw_al1_wmod/components/attentio_protocol/attentio_protocol.c:82-88 | every one of the 256 table entries is the remainder of eight division steps by 0x07 |
| Crc8.Continue | fw_al1_wmod/components/attentio_protocol/attentio_protocol.c:82-88 | the table loop, continued from any register, equals the bit-serial division of the bytes |
| Crc8.Detected | fw_al1_wmod/components/attentio_protocol/attentio_protocol.c:82-88 | one wrong byte anywhere, or an odd number of flipped bits, never leaves a zero register |
| Crc8Bursts.FoldIsBits | fw_al1_wmod/components/attentio_protocol/attentio_protocol.c:82-88 | reference: the table-driven register equals feeding the message bit by bit into the shift register of the generator |
| Crc8Bursts.BurstDetected | fw_al1_wmod/components/attentio_protocol/attentio_protocol.c:82-88 | a burst of at most eight bits, across byte boundaries too, never leaves a zero register |
| Crc8Bursts.NineBitBurstMissed | fw_al1_wmod/components/attentio_protocol/attentio_protocol.c:82-88 | the generator itself is a nine-bit burst that leaves a zero register |
| WireFormat.Crc8CheckValue | fw_al1_wmod/components/attentio_protocol/attentio_protocol.c:82-88 | the digits 1 to 9 give 0xF4 and the empty message 0 |
| ApReasm.Reassembler.FeedByte | fw_al1_wmod/components/al1_ble/ap_reasm.c:23-64 | one byte takes one machine step; the callback is given exactly the frame completed, and only then; counters move accordingly |
| ApReasm.Reassembler.Feed | fw_al1_wmod/components/al1_ble/ap_reasm.c:21-65 | the callbacks of a whole feed are the frames of the run, in order; `frames` and `len_err` grow by exactly the frames and bad lengths |
| ApReasm.FrameRun | fw_al1_wmod/components/al1_ble/ap_reasm.c:26-58 | at a frame boundary any whole frame comes out verbatim, whatever SYNC bytes it contains, and the machine is at a boundary again |
| ApReasm.FramesAreFrames | fw_al1_wmod/components/al1_ble/ap_reasm.c:36-58 | whatever bytes arrive, everything handed on is a whole frame of the length its LEN announces |
| Tokens.EveryStreamReads | fw_al1_wmod/components/al1_ble/ap_reasm.c:26-58 | every byte stream is a sequence of noise bytes, SYNC/bad-LEN pairs and whole frames, followed by a proper prefix of a frame |
| Tokens.ReadingUnique | fw_al1_wmod/components/al1_ble/ap_reasm.c:26-58 | there is only one such reading |
| Tokens.ReassemblerReads | fw_al1_wmod/components/al1_ble/ap_reasm.c:26-58 | the reassembler emits exactly the frame tokens and bad pairs of the reading, in order, and holds exactly its unfinished rest |
| Tokens.Tokenisation | fw_al1_wmod/components/al1_ble/ap_reasm.c:26-58 | the three above together, with every input byte counted in exactly one token or the rest |
| Tokens.Stabilises | fw_al1_wmod/components/al1_ble/ap_reasm.c:26-58 | from any state, 255 bytes without SYNC bring the reassembler to a boundary and the next frame is delivered exactly |
| Tokens.StabilisationBoundExact | fw_al1_wmod/components/al1_ble/ap_reasm.c:36-58 | 254 such bytes are not enough |
| ApCodec.Parser.ParseByte | fw_al1_wmod/components/attentio_protocol/attentio_protocol.c:104-182 | one call takes one machine step; result code and packet fields are the verdict of that step |
| ApCodec.Parser.FinishPacket | fw_al1_wmod/components/attentio_protocol/attentio_protocol.c:143-175 | the CRC state accepts iff the byte is the CRC-8 of LEN, CMD and payload, and then publishes exactly those fields |
| ApCodec.BuildPacket | fw_al1_wmod/components/attentio_protocol/attentio_protocol.c:188-216 | returns 0 and writes nothing when the buffer is absent, too small or the payload too long; otherwise lays out the packet and touches nothing after it; a NULL payload leaves the buffer's own bytes as payload |
| ApCodec.BuildError | fw_al1_wmod/components/attentio_protocol/attentio_protocol.c:223-226 | an ERROR packet with one code byte, or 0 in a buffer under five bytes |
| WireFormat.ApLayout | fw_al1_wmod/components/attentio_protocol/attentio_protocol.c:201-215 | a packet byte by byte: 0xA5, payload length + 1, CMD, payload, and the bit-serial CRC-8 over LEN..payload started at 0 |
| WireFormat.FrameShape | fw_al1_wmod/components/al1_ble/ap_reasm.h:16-37 | a whole frame is one that starts with 0xA5, has LEN 1 to 253 and LEN + 3 bytes |
| WireFormat.LenVerdicts | fw_al1_wmod/components/attentio_protocol/attentio_protocol.c:116-133 | at LEN the parser answers 0 with ERR_LEN, 254 and 255 with ERR_OVERFLOW, and starts a packet for 1 to 253 |
| Framing.LockstepByte | fw_al1_wmod/components/al1_ble/ap_reasm.c:26-58 | simulation: from corresponding states one byte takes reassembler and parser to corresponding states with matching outputs; the reassembler's last byte is the parser's CRC byte |
| Framing.Lockstep | fw_al1_wmod/components/al1_ble/al1_ble_ap_bridge.c:22-24 | the simulation over every stream |
| Framing.FramingTransparent | fw_al1_wmod/components/al1_ble/al1_ble_ap_bridge.c:22-24 | fed the frames the reassembler cuts, the parser reports exactly the packets and CRC failures it would report on the raw stream, in order |
| Framing.BuildDecodes | fw_al1_wmod/components/attentio_protocol/attentio_protocol.c:143-216 | what the builder lays out the parser reads back, for every command and payload up to 252 bytes |
| Framing.DecodesIffBuilt | fw_al1_wmod/components/attentio_protocol/attentio_protocol.c:143-216 | a frame is accepted as a given packet iff it is the builder's form of that packet |
| Framing.CorruptJudged | fw_al1_wmod/components/attentio_protocol/attentio_protocol.c:143-163 | a packet corrupted after LEN is rejected iff the error pattern alone leaves a non-zero register |
| Framing.CorruptionRejected | fw_al1_wmod/components/attentio_protocol/attentio_protocol.c:143-163 | one wrong byte, a burst of at most eight bits or an odd number of wrong bits in CMD..CRC gives one CRC error and leaves the parser hunting for SYNC |
| LinkFrame.BuildInto | fw_al1_wmod/components/al1_link/al1_frame.c:21-54 | returns 0 and writes nothing in each refused case; otherwise writes the frame at the front and touches nothing after it |
| WireFormat.LinkLayout | fw_al1_wmod/components/al1_link/al1_frame.c:36-51 | a link frame byte by byte: 0xA5, 0x01, CHANNEL, SEQ, big-endian length, payload, and the bit-serial CRC-16 over VERSION..payload started at 0xFFFF, high byte first |
| LinkFrame.Parser.FeedByte | fw_al1_wmod/components/al1_link/al1_frame.c:89-176 | one byte takes one step of the nine-state machine, fires the callback with the delivered fields, and counts the event |
| LinkFrame.Parser.Feed | fw_al1_wmod/components/al1_link/al1_frame.c:83-177 | the callbacks of a whole feed are the deliveries of the run, in order, and every counter grows by exactly its events |
| LinkProperties.BuiltDelivered | fw_al1_wmod/components/al1_link/al1_frame.c:83-177 | completeness: where a frame may start, any built frame fires exactly one callback with the same fields |
| LinkProperties.BuiltSequenceDelivered | fw_al1_wmod/components/al1_link/al1_frame.c:83-177 | back-to-back built frames are delivered one by one, nothing else |
| WireFormat.WrongVersion | fw_al1_wmod/components/al1_link/al1_frame.c:99-107 | a version byte other than 0x01 is one version error; the parser starts over, at once inside a frame if the byte was SYNC |
| WireFormat.OversizedLength | fw_al1_wmod/components/al1_link/al1_frame.c:130-139 | a length over 4096 is one length error and the parser hunts for SYNC at once |
| LinkProperties.Advance | fw_al1_wmod/components/al1_link/al1_frame.c:92-175 | every byte keeps the running CRC equal to the CRC of VERSION up to that byte; a delivery happens only when the bytes held are the built form of what is delivered |
| LinkProperties.DeliveredSlices | fw_al1_wmod/components/al1_link/al1_frame.c:83-177 | soundness on any input: each callback fires at the end of a contiguous slice that is the built form of its arguments; slices are disjoint and in order |
| LinkProperties.CorruptJudged | fw_al1_wmod/components/al1_link/al1_frame.c:144-170 | a frame corrupted outside LEN is consumed whole and delivered, with the corrupted fields, iff the error pattern is a multiple of the generator |
| LinkProperties.CorruptionRejected | fw_al1_wmod/components/al1_link/al1_frame.c:157-170 | a burst of at most 16 bits or an odd number of flips in CHANNEL, SEQ, payload or CRC, at every payload length, costs exactly one CRC error, no callback, and ends in SYNC |
| LinkProperties.LongerBurstDelivered | fw_al1_wmod/components/al1_link/al1_frame.c:157-170 | a 17-bit burst can pass: the bound is exact |
| LinkProperties.DoubleErrorJudged | fw_al1_wmod/components/al1_link/al1_frame.c:157-170 | two flipped bits outside LEN, at every payload length, are delivered as if intact iff they are exactly 32767 bits apart, else cost one CRC error |
| LinkProperties.DoubleErrorRejected | fw_al1_wmod/components/al1_link/al1_frame.c:157-170 | up to 4089 payload bytes no two flipped bits outside LEN are missed |
| LinkProperties.DoubleErrorDelivered | fw_al1_wmod/components/al1_link/al1_frame.c:157-170 | from 4090 payload bytes on a frame with the first bit of CHANNEL and the bit 32767 places on flipped is delivered on the wrong channel |
| LinkProperties.AttemptsAccounted | fw_al1_wmod/components/al1_link/al1_frame.c:75-175 | every SYNC taken as a frame start ends in exactly one of the frame, CRC, version and length counters, or is still open; resyncs are exactly the length errors |
| LinkProperties.Stabilises | fw_al1_wmod/components/al1_link/al1_frame.c:92-175 | from any reachable state, 4103 bytes without SYNC bring the parser to SYNC and the next built frame is delivered |
| LinkProperties.StabilisationBoundExact | fw_al1_wmod/components/al1_link/al1_frame.c:92-175 | 4102 such bytes are not enough |
| SessionPolicy.FieldsAreHistory | fw_al1_wmod/components/al1_ble/al1_ble_ap_bridge.c:98-223 | the pending field names a connection iff it made the latest CLAIM and since then no OK came and it stayed; the controller field iff an OK came while its claim was pending and since then it neither left nor released, no session end came and no other claim was answered |
| WireFormat.EventCodes | fw_al1_wmod/components/attentio_protocol/include/attentio_protocol.h:79-119 | the codes that make history: CLAIM 0x01, RELEASE 0x02, OK 0xF0, session end 0x82 |
| SessionProperties.GateIsHistory | fw_al1_wmod/components/al1_ble/al1_ble_ap_bridge.c:98-130 | a frame is forwarded verbatim unless its command needs a claim and its sender does not hold control; then the sender alone gets NOT_CONTROLLER |
| SessionProperties.GateCodes | fw_al1_wmod/components/attentio_protocol/attentio_protocol.c:238-255 | over every history a frame is turned away iff its third byte is 0x10, 0x11, 0x20 to 0x23, 0x30 or 0x52 and its sender does not hold control, and is otherwise forwarded verbatim |
| SessionProperties.DropIsHistory | fw_al1_wmod/components/al1_ble/al1_ble_ap_bridge.c:150-168 | a disconnect makes the bridge send a RELEASE iff the connection held control |
| SessionProperties.RoutingIsHistory | fw_al1_wmod/components/al1_ble/al1_ble_ap_bridge.c:185-223 | the exact answer to every link frame: one notification of it to the claimant it answers, else to the one in control; with neither, nothing for a session end and one broadcast of it otherwise |
| SessionProperties.ReleaseNeedsNoClaim | fw_al1_wmod/components/al1_ble/al1_ble_ap_bridge.c:158-166 | the synthesised RELEASE is a packet the AP parser accepts and no gated command |
| WireFormat.BridgePackets | fw_al1_wmod/components/al1_ble/al1_ble_ap_bridge.c:85-92 | the rejection decodes as ERROR 0xF1 with code 0x01, the synthesised release as 0x02 without payload |
| SessionProperties.SessionsConserved | fw_al1_wmod/components/al1_ble/al1_ble_ap_bridge.c:71-213 | bindings made = releases + lost controllers + session ends + rebindings + (1 if bound); synthesised RELEASEs = lost controllers |
| SessionProperties.NoControllerNoSession | fw_al1_wmod/components/al1_ble/al1_ble_ap_bridge.c:71-75 | without a controller the session id is 0 in every reachable state |
| SessionProperties.SessionIdIsHistory | fw_al1_wmod/components/al1_ble/al1_ble_ap_bridge.c:71-201 | in every history the id is that of the latest id-carrying grant if control was handed on unbroken since, else 0 |
| SessionProperties.GrantedId | fw_al1_wmod/components/al1_ble/al1_ble_ap_bridge.c:197-201 | an OK that answers a claim sets the id to the two bytes behind CMD, big-endian, iff its LEN is at least 3 |
| SessionProperties.SessionIdOfGrant | fw_al1_wmod/components/al1_ble/al1_ble_ap_bridge.c:197-201 | the grant an id comes from: while a grant stands it is the standing one if its OK carried an id, else the one in force when that OK came |
| SessionProperties.StaleIff | fw_al1_wmod/components/al1_ble/al1_ble_ap_bridge.c:192-201 | the id belongs to another grant than the standing one iff the standing one's OK carried none and one was in force when it came |
| SessionProperties.StaleSessionId | fw_al1_wmod/components/al1_ble/al1_ble_ap_bridge.c:192-201 | a run after which the id belongs to the former controller |
| SessionProperties.RefusedClaimStillBinds | fw_al1_wmod/components/al1_ble/al1_ble_ap_bridge.c:192-205 | in every history a pending claim answered by an ERROR is granted by the next OK, unless its connection left or another claimed |
| SessionProperties.PendingOutlivesSession | fw_al1_wmod/components/al1_ble/al1_ble_ap_bridge.c:111-117 | RELEASE, session end and ERROR leave a pending claim pending |
| Forwarding.SendersExact | fw_al1_wmod/components/al1_ble/al1_ble_ap_bridge.c:98-168 | each forwarded frame is what one event forwarded, each such event once and in order |
| Forwarding.GateSound | fw_al1_wmod/components/al1_ble/al1_ble_ap_bridge.c:98-130 | whatever choice of forwarded frames the AP parser reads, each verdict is traced to the event that forwarded that frame, later choices to later events; an accepted packet whose command needs a claim arrived in that very event from the connection then in control |
| SlotTable.AddTracked | fw_al1_wmod/components/al1_ble/al1_ble.c:48-58 | first-free allocation adds the handle, or leaves a full table alone, and keeps handles unique |
| SlotTable.RemoveTracked | fw_al1_wmod/components/al1_ble/al1_ble.c:60-68 | removal forgets exactly that handle |
| Bridge.InvStep | fw_al1_wmod/components/al1_ble/al1_ble_ap_bridge.c:133-223 | every input keeps the two tables equal index by index, handles unique, reassemblers in range, and controller and claimant each absent or live |
| Bridge.InvRun | fw_al1_wmod/components/al1_ble/al1_ble_ap_bridge.c:133-223 | the same over every admissible run |
| Bridge.NotificationsTargetLive | fw_al1_wmod/components/al1_ble/al1_ble.c:303-315 | replies, rejections and events go to live connections only, and a broadcast reaches each live one exactly once |
| BridgeRuns.PolicyRun | fw_al1_wmod/components/al1_ble/al1_ble_ap_bridge.c:98-223 | over any run the bridge acts as the session policy does on one event history |
| BridgeRuns.BridgeGateSound | fw_al1_wmod/components/al1_ble/al1_ble_ap_bridge.c:98-183 | the same attribution, verdict by verdict, over whole runs of connects, disconnects, interleaved and arbitrarily cut writes and link frames |
| BridgeRuns.SlotsRefineMap | fw_al1_wmod/components/al1_ble/al1_ble_ap_bridge.c:61-69 | the slot array with linear search behaves as a map from live handle to its own reassembler |
| BridgeRuns.StreamsIsolated | fw_al1_wmod/components/al1_ble/al1_ble_ap_bridge.c:46-54 | a live connection's reassembler state and handled frames are those of its own bytes since its latest connect, whatever others do and whoever owned slot or handle before |
| BridgeRuns.WriteChunking | fw_al1_wmod/components/al1_ble/al1_ble_ap_bridge.c:172-183 | one write of two pieces and two writes give the same state and the same actions in the same order |
| BridgeImpl.ApBridge.ConnAdd | fw_al1_wmod/components/al1_ble/al1_ble.c:48-58 | the scan takes the first free entry, or none |
| BridgeImpl.ApBridge.ConnRemove | fw_al1_wmod/components/al1_ble/al1_ble.c:60-68 | the scan frees the first entry of the handle, or none |
| BridgeImpl.ApBridge.SlotFind | fw_al1_wmod/components/al1_ble/al1_ble_ap_bridge.c:61-69 | finds the first slot in use for the handle, or the table size |
| BridgeImpl.ApBridge.NotifyAll | fw_al1_wmod/components/al1_ble/al1_ble.c:303-315 | notifies every registered handle in table order and counts them |
| BridgeImpl.BroadcastExpanded | fw_al1_wmod/components/al1_ble/al1_ble.c:303-315 | a broadcast amounts to exactly one notification for each registered handle |
| BridgeImpl.ApBridge.RejectNotController | fw_al1_wmod/components/al1_ble/al1_ble_ap_bridge.c:85-92 | the buffer is large enough, so exactly one NOT_CONTROLLER error is notified |
| BridgeImpl.ApBridge.OnApFrame | fw_al1_wmod/components/al1_ble/al1_ble_ap_bridge.c:98-130 | the frame callback takes one policy step, in fields and in calls made |
| BridgeImpl.ApBridge.DropSession | fw_al1_wmod/components/al1_ble/al1_ble_ap_bridge.c:156-168 | the session half of a disconnect takes one policy step |
| BridgeImpl.ApBridge.GapConnect | fw_al1_wmod/components/al1_ble/al1_ble.c:144-148 | a connect updates registry, slot and its reassembler as the bridge machine does |
| BridgeImpl.ApBridge.GapDisconnect | fw_al1_wmod/components/al1_ble/al1_ble.c:157-163 | a disconnect frees registry entry and slot, forgets claimant and controller, and releases the device when due |
| BridgeImpl.ApBridge.FeedSlot | fw_al1_wmod/components/al1_ble/al1_ble_ap_bridge.c:182-182 | feeding a slot's reassembler object, with the policy run inside the callback, equals reassembling first and running the policy on the frames; no other slot changes |
| BridgeImpl.ApBridge.OnBleWrite | fw_al1_wmod/components/al1_ble/al1_ble_ap_bridge.c:172-183 | a write takes one step of the bridge machine; writes from untracked handles do nothing |
| BridgeImpl.ApBridge.OnLinkAp | fw_al1_wmod/components/al1_ble/al1_ble_ap_bridge.c:185-223 | a link frame in the receive buffer takes one step of the bridge machine, the session id read by LEN even behind the payload |
| LinkTx.TransmitAccounted | fw_al1_wmod/components/al1_link/al1_link.c:82-140 | over any run sends = transmitted + queued + dropped; live buffers = queued frames, never more than 32; nothing on the wire is oversized |
| LinkTx.WireIsFifo | fw_al1_wmod/components/al1_link/al1_link.c:82-140 | wire followed by queue is exactly the accepted sends in order, each with the caller's bytes and SEQ = earlier numbered sends on its channel mod 256 |
| LinkTx.TransmittedFrame | fw_al1_wmod/components/al1_link/al1_link.c:82-140 | a send that was queued and has been transmitted is the frame at its place on the wire |
| LinkTx.GapCountsDrops | fw_al1_wmod/components/al1_link/al1_link.c:125-138 | between consecutive frames of a channel on the wire the SEQ gap is the number of sends numbered and then dropped in between, mod 256, hence exact below 256 |
| LinkTx.RefusedUnnumbered | fw_al1_wmod/components/al1_link/al1_link.c:113-123 | an oversized or unallocated send counts as a drop and takes no number |
| LinkProgress.QueueFollowsCalls | fw_al1_wmod/components/al1_link/al1_link.c:82-140 | queue length, drop counter and wire length told from the calls alone: a send of at most 4096 bytes with its buffer joins unless 32 wait, every other is one drop, every turn that finds a frame puts exactly one on the wire |
| LinkProgress.ResultFollowsCalls | fw_al1_wmod/components/al1_link/al1_link.c:108-140 | the result code of every send, from the calls before it |
| LinkProgress.SendAppends | fw_al1_wmod/components/al1_link/al1_link.c:125-139 | an accepted send appends one frame with its channel and bytes and SEQ = earlier allocated sends on the channel mod 256; any other leaves the queue alone |
| LinkProgress.PromptTurnsDropNothing | fw_al1_wmod/components/al1_link/al1_link.c:82-140 | with a turn of the transmit task after each send no carriable send is ever dropped |
| LinkProgress.TurnProgress | fw_al1_wmod/components/al1_link/al1_link.c:87-92 | every turn takes the wire one frame further while an accepted frame is not yet on it |
| LinkProgress.TransmittedIff | fw_al1_wmod/components/al1_link/al1_link.c:82-140 | a send reaches the wire iff it is carriable, fewer than 32 frames wait when it is made, and more turns follow than frames were waiting |
| LinkTx.WireDelivered | fw_al1_wmod/components/al1_link/al1_link.c:53-93 | however the UART cuts the bytes, the receiving parser delivers exactly the transmitted frames, the first of the accepted ones |
| LinkTx.Link.Send | fw_al1_wmod/components/al1_link/al1_link.c:108-140 | the result code in each case, fewer than 32 waiting included; an accepted send adds one buffer behind the others, a refused one counts a drop; the live buffers stay exactly the queued ones, each holding its frame |
| LinkTx.Link.TransmitOne | fw_al1_wmod/components/al1_link/al1_link.c:88-92 | on any non-empty queue the oldest buffer is written to the wire, freed once and counted; nothing on an empty queue |
| Notify.FragmentsRebuild | fw_al1_wmod/components/al1_ble/al1_ble.c:284-299 | the fragments put together are the data; none is empty or over the chunk; all but the last are full, so there are as few as the chunk allows |
| Notify.FragmentsByMtu | fw_al1_wmod/components/al1_ble/al1_ble.c:284-299 | by the MTU: values of at most MTU - 3 bytes, 20 when it is unknown, none empty, all but the last full, their number the length over that rounded up, together the data |
| Notify.LastErrorExact | fw_al1_wmod/components/al1_ble/al1_ble.c:289-300 | the returned code is 0 iff every notification succeeded, else that of the last failure |
| Notify.SendsExactlyIff | fw_al1_wmod/components/al1_ble/al1_ble.c:290-299 | with its 16-bit offset the loop ends having sent exactly the data iff the length rounded up to whole chunks is below 65536 |
| Notify.LeavesIff | fw_al1_wmod/components/al1_ble/al1_ble.c:290-299 | the loop ends iff the length is at most 65536 less the greatest common divisor of 65536 and the chunk |
| Notify.WrappedSendsMore | fw_al1_wmod/components/al1_ble/al1_ble.c:290-299 | a loop that ends after its offset has wrapped has sent more than the data |
| Notify.LinkSizedNeverWraps | fw_al1_wmod/components/al1_ble/al1_ble.c:284-299 | up to 4096 bytes meet that condition at every MTU |
| Notify.MinimumMtuNeverLeaves | fw_al1_wmod/components/al1_ble/al1_ble.c:290-299 | 65535 bytes at MTU 23 never end |
| Notify.NotifyConn | fw_al1_wmod/components/al1_ble/al1_ble.c:278-301 | whenever the source's loop ends: no value sent is empty or over MTU - 3 (20 when the MTU is at most 3); for link-sized data all but the last are full and their number is the length over that rounded up; exactly the data if nothing wraps, more otherwise; returns the last failure, 0 if none |
| Client.ApReassembler.Feed | scripts/test/ble_smoke.py:185-206 | the Python port returns the same frames and counts the same errors as the firmware's reassembler on every input |
| Client.FragmentsReturnFrame | scripts/test/ble_smoke.py:168-206 | fragments of a frame at any MTU, fed one by one, return exactly that frame |
| Client.SessionReturned | scripts/test/ble_smoke.py:168-206 | fragments of many frames, each cut at its own MTU, return exactly those frames in order |
| Client.BuildFrameDecodes | scripts/test/ble_smoke.py:160-165 | a request is built iff the payload has at most 252 bytes, and the firmware's parser reads it back |
| EndToEnd.PacketForwarded | fw_al1_wmod/components/al1_ble/al1_ble_ap_bridge.c:98-183 | a packet an allowed connection writes in any split is forwarded once, verbatim, and nothing else happens |
| EndToEnd.PacketAnswered | fw_al1_wmod/components/al1_ble/al1_ble_ap_bridge.c:98-183 | any packet written in any split, by its command code: one NOT_CONTROLLER error to the sender iff the code is 0x10, 0x11, 0x20 to 0x23, 0x30 or 0x52 and it is not in control, else one verbatim forward |
| EndToEnd.ReleaseThenRejected | fw_al1_wmod/components/al1_ble/al1_ble_ap_bridge.c:111-125 | a RELEASE packed with a claim-requiring packet in one write: the first is forwarded, the second rejected |
| EndToEnd.ReceivedIsReached | fw_al1_wmod/components/al1_link/al1_link.c:53-140 | with any losses the far side receives exactly the AP_CTRL sends that were queued and transmitted, in order |
| EndToEnd.ReceivedIsSent | fw_al1_wmod/components/al1_link/al1_link.c:53-140 | when every AP_CTRL send has reached the wire the far side has got them all in order, whatever other channels do |
| EndToEnd.PacketDelivered | fw_al1_wmod/components/al1_ble/al1_ble_ap_bridge.c:77-130 | after any bridge run an allowed connection writes a packet in any split, and anything may follow; if its send gets a buffer, finds fewer than 32 frames waiting and is followed by more transmit turns than that, then whatever else is lost and however the wire is cut, the far side's parser completes exactly that command and payload, after the verdicts on the earlier sends that got through |
| EndToEnd.RunDelivered | fw_al1_wmod/components/al1_ble/al1_ble_ap_bridge.c:77-183 | over a whole bridge run with any losses, the far side's verdicts are, in order, those on exactly the forwarded frames whose sends were queued and transmitted |
| EndToEnd.SystemGateSound | fw_al1_wmod/components/al1_ble/al1_ble_ap_bridge.c:14-18 | with any losses and schedules, the far side's verdicts map, in strictly increasing order, to the events that forwarded their frames, and an accepted claim-requiring packet arrived in its event from the connection then in control |
| EndToEnd.ControllerReachable | fw_al1_wmod/components/al1_ble/al1_ble_ap_bridge.c:98-205 | a start-up run after which a connection is between frames and in control, so the delivery theorem covers every command |
| EndToEnd.ClientReassembles | fw_al1_wmod/components/al1_ble/al1_ble_ap_bridge.c:185-223 | over every run a client reassembles exactly the replies, rejections, events and broadcasts meant for it, in order, at any MTUs |
| EndToEnd.ReplyDelivered | fw_al1_wmod/components/al1_ble/al1_ble_ap_bridge.c:185-223 | after any earlier downlink bytes that leave the parser hunting, a reply in a link frame, however cut, is notified to the one connection it belongs to, whose client, after any earlier frames, reads the packet back |

## Left out

- NimBLE start-up, advertising, pairing, bonds and NVS, GATT tables and mbuf copying: foreign calls with no logic of their own; connect, disconnect, write and notify are events.
- UART driver, FreeRTOS task creation, time-outs, `running` going false, queue draining at stop, loopback control and `al1_link_start`: platform input and output.
- Data races between the BLE host task and the link receive task: the code has no locks, so handlers are modelled as atomic.
- What the STM32 does with packets (whom it really grants control, which reply answers which request): not in this repository; link frames are arbitrary.
- `main.c`, logging, statistics read-out, chip banner, shell scripts and the smoke test's live mode: plumbing.
- The build-time override of the link's 4096-byte maximum, and the host's own SEQ checking: the receiving callback ignores SEQ.
- LinkProperties.CorruptionRejected: error patterns that touch LEN change how many bytes the frame takes and are not covered; the same holds for the two-flip results.
- LinkFrame.Parser.Feed: the parser is modelled with its statistics and callback present; NULL parser, data, statistics and callback pointers only switch effects off.
- LinkTx.TransmitAccounted: counters are natural numbers; the wrap of the 32-bit statistics is not modelled.
- Notify.NotifyConn: lengths for which the loop does not end (exactly those `LeavesIff` excludes) are outside its precondition.
- `ap_build_ok`, `ap_build_event`, `frame_cmd` and `frame_payload`: one-line delegates and accessors.
- Crc8.Continue: the 256-entry table is written as 16 rows of 16, addressed by the two nibbles of the index.
