# A verified model of the drone companion daemon

This Dafny project models the parts of the daemon that carry state or bits across a boundary, and
proves what they guarantee over every input and every run:

* **Checksums.** The shortcut X.25 update, the table-driven CRC-16 and the table-driven CRC-32 are
  proved to be bit-serial reflected CRCs (polynomials 0x8408, 0xA001, 0xEDB88320), all table entries
  included. Every error burst no wider than the register is proved to change the checksum, whatever the
  message length, and for the 16-bit ones the damage that passes is characterised by its own checksum.
* **MAVLink 1.** The message generator (stable sort, offsets, CRC_EXTRA, emitted Pack and Unpack) over
  all field lists; the frame codec as exact acceptance conditions; whole streams with noise and damaged
  frames; the link echo and the re-encoding of raw cloud commands.
* **Command queue and vehicle initialisation.** The array heap, the retry and acknowledgement machine on
  top of it, the drain bounds, the tick that is not atomic, and the gate a vehicle passes before its
  queue is served, characterised by the log of what happened; then both in one run.
* **Cloud link.** DroneDP framing, the session countdown with the flight syncer, command slot and terminal
  flag, the two throttles, and the key-value store with its list of outputs.
* **Firmware upload.** Padding, expected flash checksum and programming messages.

Code that changes objects step by step is modelled by classes and methods with loops; each method is
proved against a function on values, and the theorems are about those functions. Dafny integers are
unbounded, so byte, 16-bit and 64-bit truncations are written out. Floating-point fields are carried as
bit patterns. A read that would leave a Go slice is an explicit outcome (`OutOfRange`, `SliceFault`,
`IndexFault`, `NilBlock`) rather than a precondition wherever the function itself is given arbitrary bytes.
Theorems name the bytes of a wire format, limits and result codes by their numbers and places, so that they
say what goes over the wire and not which constant the model computes with.

The constants agree with the MAVLink Packet Serialization guide (sections "MAVLink 1 Packet Format",
"Field Reordering", "Checksum" and "CRC_EXTRA Calculation"); the X.25 update is that of Appendix C.1 of
RFC 1662 without the final complement.

## What the code does not do

Some properties a reader expects are false of the code. The model keeps the code and gives the exact
condition:

* `EncodePacket` writes header and payload before it can find the message id unknown. Such a frame has
  no checksum, and the next good frame survives exactly when at least two noise bytes separate them
  (`UnknownIdCostsNextFrame`). A packet arrives exactly when its id is known and its payload fits the
  length byte (`EncodedPacketArrives`).
* The comment at src/vehicle/vehicle.go:212-217 says all parameters are loaded before commands are
  served. The test compares the number of distinct indices less one with the total: it passes exactly
  when indices beyond the announced range outnumber the missing ones by one (`CountMatchesExactly`), so
  without an out-of-range index it never passes. The force flag also opens the gate, and `Scrub` leaves
  it set (`ForceSurvivesScrub`, `QueueIsServedExactly`).
* A tick reads the head and pops under separate locks. The pop removes the command it judged exactly
  when no strictly smaller op was pushed in between (`PopRemovesJudged`).
* A command can leave the queue without ever being sent: exactly when its last acknowledgement was final
  and came before its first transmission (`LeavesUnsentExactly`), as a second answer to a retransmitted
  command of the same op does (`AcceptedUnsent`).
* A command is queued under its full op and sent with the low sixteen bits, so it can be acknowledged
  exactly when the op is in 0..65535 (`AckAnswersExactly`, `OpAnswerableExactly`); op 65552 is one that
  cannot (`WideOpMissesItsAck`).
* Two damaged adjacent bytes on either side of the boundary to the checksum can pass. On a MAVLink frame
  exactly one pair of masks does (`AcrossChecksumPassesExactly`). DroneDP sends its checksum big end first,
  and there the masks pass exactly when the table entry of the one is the other in the high byte
  (`AcrossSealPassesExactly`, `DamageAcrossSealMissed`). On MAVLink any damage that keeps the length byte
  passes exactly when the id is known and no residue is left (`LengthKeptPassesExactly`), on DroneDP any
  damage that keeps the length exactly when it is itself intact (`DamagePassesExactly`).
* A DroneDP message longer than 65535 bytes comes back cut, and a terminal message can be written but not
  read (`RoundTripsExactly`).
* The number of parameters reported as found is right, while the parameter timer has not run out since the
  last refresh, exactly when nothing is missing; once it has, exactly when as many are missing as when it
  last did (`ReportIsRightExactly`).
* The store reads back exactly when no key or value has a dash or semicolon and its text has at most 348
  bytes, because Load reads 512 bytes of the PEM block and faults on an unfinished one
  (`StoreRoundTripsExactly`, `LongOutputUnreadable`),
  and an output name is kept exactly when it has no comma and is not the lone empty name
  (`OutputsSurviveExactly`). A deletion runs off the shortened slice exactly when the place of some
  occurrence and the occurrences before it make up the length (`SweepExactly`); adding `a` and then `b,a`,
  which src/statusServer/statusServer.go:371-376 allows, leads there (`AdditionsCanDuplicate`).
* A raw cloud command is lost exactly when another replaces it, or the link loop clears it away, before the
  loop reads; the loop reads and clears in two locked steps, so a command stored in between goes unread
  (`CommandLostExactly`, `ClearLosesExactly`). A command shorter than the eight bytes of an empty frame faults
  in the loop (`TakeCommand`).
* The flash checksum pads to the requested length exactly when the space left is a whole number of words
  (`PadsToExactly`).

## Modules

| files | content |
|---|---|
| Bytes, Folds, Listing | bytes and words, folds, orders of a map's keys |
| ShiftRegister, ReflectedCrc, WideCrc, Differences | shift registers over any carrier, the 16-bit and 32-bit CRC and what they detect, what damage does |
| X25, Crc16, Crc32 | the three checksums of the source against their bit-serial definitions |
| Layout, Decimals, GoTypes, Generator, Payload | field lists, type names, sorting, offsets, CRC_EXTRA, Pack and Unpack |
| Frames, FrameDamage, Streams, Codec, Messages | MAVLink frames, damaged frames, streams, codec objects, typed messages end to end |
| Heap, PQueue, Dispatcher, Answers, Vehicle | heap, queue object, command machine, what answers do over a run, vehicle object |
| Params, InitGate, VehicleInit, VehicleRuns | parameter accounting, initialisation gate, its objects, gate and queue in one run |
| DroneDP, Session, Slot, Throttles, CloudRuns | cloud framing, session machine, command slot, throttles, session and sync timer in one run |
| CloudLink, LinkLoop, FlightSaver | the objects of cloud link, link loop and flight log |
| Text, SwapRemoval, Store, Firmware | splitting and joining, deletion by swapping, the store, firmware upload |

## Model

The theorems come first, then the operations with their contracts.

| member | source | states |
|---|---|---|
| CrcDifferences.ChecksumDifference | src/cloudlink/crc16/crc16.go:37-44 | two messages of one length have checksums that differ by the checksum, from zero, of their difference |
| X25Checksum.ShortcutIsSerial | src/mavlink/x25/x25.go:27-32 | the shifted-xor update of one byte is eight shift steps of polynomial 0x8408, for every register and byte |
| X25Checksum.CheckValue | src/mavlink/x25/x25.go:21-41 | the checksum of the digits 1 to 9 is 0x6F91, the known answer of this CRC |
| X25Checksum.LeadingZeroShows | src/mavlink/x25/x25.go:21-52 | a zero byte in front of any message changes its register, which it would not from zero |
| ReflectedCrc.UpdateConcat | src/mavlink/x25/x25.go:34-39 | checksumming in pieces equals checksumming at once |
| ReflectedCrc.UpdateIsBits | src/mavlink/x25/x25.go:27-39 | a message byte by byte is the message bit by bit, low bits first |
| ReflectedCrc.ByteStepInjective | src/mavlink/x25/x25.go:27-32 | for a fixed byte the update never merges two registers |
| ReflectedCrc.BurstDetected | src/mavlink/x25/x25.go:27-41 | messages that differ within sixteen consecutive bits have different registers, at any length |
| ReflectedCrc.AdjacentBytesAreBurst | src/mavlink/x25/x25.go:34-39 | a change of two adjacent bytes is such a burst |
| Crc16Checksum.TableIsSerial | src/cloudlink/crc16/crc16.go:3-35 | each of the 256 entries is eight shift steps of polynomial 0xA001 from its index |
| Crc16Checksum.LowByteDrives | src/cloudlink/crc16/crc16.go:38-41 | eight steps of a register split into eight steps of its low byte and a plain shift of the rest |
| Crc16Checksum.CheckValue | src/cloudlink/crc16/crc16.go:3-44 | the checksum of the digits 1 to 9 is 0xBB3D, the known answer of this CRC |
| WideCrc.BurstDetected | scripts/px_uploader.py:127-131 | messages that differ within thirty-two consecutive bits have different states, at any length |
| Crc32.TableIsSerial | scripts/px_uploader.py:76-108 | each of the 256 entries is eight shift steps of polynomial 0xEDB88320 from its index |
| Crc32.CheckValue | scripts/px_uploader.py:76-137 | from state zero the digits 1 to 9 lead to 0x2DFD2D88, the known answer of this CRC without its two complements |
| MavlinkFrames.FirstDialectAnswers | src/mavlink/parser/dialect.go:32-42 | a lookup gives a value exactly when the first dialect that knows the id has it |
| MavlinkFrames.ParseWire | src/mavlink/parser/message.go:126-160 | parsing the bytes of any packet that fits returns its fields and leaves the rest of the stream, judged on the checksum alone |
| MavlinkFrames.ParsedIsWire | src/mavlink/parser/message.go:126-160 | what is accepted was, byte for byte, the frame of a good packet |
| MavlinkFrames.SkipsNoise | src/mavlink/parser/message.go:115-124 | bytes before a start byte change nothing |
| MavlinkFrames.AcceptedIsWire | src/mavlink/parser/message.go:113-161 | the consumed bytes are noise and then the frame of the returned packet |
| MavlinkFrames.DecodeAcceptsExactly | src/mavlink/parser/message.go:113-161 | Decode returns p and leaves rest if and only if the stream is start-free noise, the frame of a good p, rest |
| MavlinkFrames.WireByPlace | src/mavlink/parser/message.go:211-247 | every byte of a frame by its place: 0xFE, length, sequence, system, component, id, payload, checksum low byte first |
| MavlinkFrames.SealedExactly | src/mavlink/parser/message.go:146-157 | a packet is good if and only if it fits, its id is known, and its checksum is the X.25 sum of the frame between start byte and checksum followed by the extra byte |
| MavlinkFrames.DecodeOutcomes | src/mavlink/parser/message.go:113-161 | for every stream, which packet, error or end of stream Decode returns and what it leaves: a whole frame from the first start byte on is consumed and judged on id, then checksum; anything shorter uses the stream up |
| MavlinkFrames.DatagramOutcomes | src/mavlink/parser/message.go:165-194 | for every datagram and buffer, exactly when DecodeBytes returns a bad header, a slice fault, an unknown id, a checksum failure or the packet |
| MavlinkDamage.FramePassesExactly | src/mavlink/parser/message.go:134-157 | a frame in place of a good one (same length and id) is accepted if and only if the damage to covered bytes and checksum leaves no residue; either way exactly its own bytes are consumed |
| MavlinkDamage.BurstShows | src/mavlink/parser/message.go:134-157 | a burst of up to sixteen bits in the covered bytes leaves a residue |
| MavlinkDamage.ChecksumDamageShows | src/mavlink/parser/message.go:152-157 | any change of the checksum alone leaves a residue |
| MavlinkDamage.AcrossChecksumPassesExactly | src/mavlink/parser/message.go:152-157 | damage to the last payload byte and the checksum byte beside it passes if and only if the masks are 0x91 and 0x85, whatever the frame |
| MavlinkDamage.LengthKeptPassesExactly | src/mavlink/parser/message.go:134-157 | damage that keeps the length: an unknown id is refused; with a known id, changed or not, the frame is accepted if and only if no residue is left past the two CRC_EXTRA bytes |
| MavlinkDamage.GoodExactly | src/mavlink/parser/message.go:146-157 | the same as a condition on the packet: good if and only if that residue is zero |
| MavlinkStreams.EncodedPacketArrives | src/mavlink/parser/message.go:211-247 | an encoded packet decodes to itself if and only if its id is known and its payload is at most 255 bytes |
| MavlinkStreams.AlteredFrameRejected | src/mavlink/parser/message.go:134-157 | one or two adjacent bytes changed in sequence, system, component or payload give a checksum failure |
| MavlinkStreams.LossyStreamDelivers | src/mavlink/parser/message.go:113-161 | over a stream with noise and frames whose damage leaves a residue, exactly the undamaged packets are delivered, unchanged and in order |
| MavlinkStreams.NumberedConsecutively | src/mavlink/parser/message.go:241-244 | the i-th packet sent carries the starting number plus i modulo 256 and is otherwise the caller's |
| MavlinkStreams.StreamRoundTrip | src/mavlink/parser/message.go:211-247 | any sequence of encodable packets with noise between them is delivered whole, in order, numbered consecutively |
| MavlinkStreams.UnknownIdSwallowsTwo | src/mavlink/parser/message.go:216-232 | a frame of an unknown id makes the decoder eat two bytes of what follows |
| MavlinkStreams.UnknownIdCostsNextFrame | src/mavlink/parser/message.go:216-232 | with at least two noise bytes in between, the next good frame and all that follows it are delivered; otherwise decoding goes on inside that frame, and it is lost if it was the last |
| MavlinkStreams.DatagramAcceptsExactly | src/mavlink/parser/message.go:165-194 | DecodeBytes accepts p if and only if the datagram begins with the frame of a good p, whatever lies behind it in the buffer |
| MavlinkStreams.EchoLossless | src/fmulink/fmulink.go:809-828 | an accepted packet's raw bytes are the consumed frame, and decode again to the same packet |
| MavlinkCodec.ReencodingKeeps | src/fmulink/fmulink.go:412-428 | re-encoding a raw command changes only sequence and checksum bytes if and only if its id is known, it starts with 0xFE and its length byte is consistent |
| MavlinkCodec.ReencodingGoodFrame | src/fmulink/fmulink.go:412-428 | a good frame whose number is the encoder's next passes through unchanged |
| MavlinkLayout.StableSortUnique | src/mavlink/generator/generator.go:486-488 | a stable sort by descending width has one outcome, whatever the algorithm |
| MavlinkLayout.ArrangedIsStablySorted | src/mavlink/generator/generator.go:136-142 | that outcome is sorted and keeps each width's declaration order |
| MavlinkLayout.LayoutIgnoresCrossWidthOrder | src/mavlink/generator/generator.go:486-495 | two declarations have the same layout if and only if they list the same fields in the same order width by width |
| MavlinkLayout.FieldsTilePayload | src/mavlink/generator/generator.go:86-100 | every payload byte belongs to one field and no other |
| MavlinkLayout.OffsetsAligned | src/mavlink/generator/generator.go:490-495 | every field starts at a multiple of its element width |
| Decimals.AtoiSigned | src/mavlink/generator/generator.go:320 | the number in an array type may carry a sign, which counts |
| GoTypes.TypeInfoIsField | src/mavlink/generator/generator.go:309-340 | the declared type text gives the element width in bits and the array length, for every type and length |
| GoTypes.HashedTypeIs | src/mavlink/generator/generator.go:111-118 | the hashed type name has no array part, and a lone version byte goes under its plain name |
| GoTypes.NameTellsType | src/mavlink/generator/generator.go:278-297 | an integer type is called int or uint, its width in bits and _t; char, float, double and the version type have their own names |
| MavlinkGenerator.FieldTextByPlace | src/mavlink/generator/generator.go:110-123 | what a field adds to the hash, by place: type name, space, field name, space, and one length byte if and only if it is an array |
| MavlinkGenerator.FieldsTextInOrder | src/mavlink/generator/generator.go:110-123 | the fields are hashed one after another in the order of the list |
| MavlinkGenerator.CrcExtraFolds | src/mavlink/generator/generator.go:125-126 | CRC_EXTRA is the byte that gives the low half of the hash when its high half is exclusive-ored in |
| MavlinkPayload.UnpackPack | src/mavlink/generator/generator.go:456-471 | Unpack of Pack returns the values, for every field list and values that fit |
| MavlinkPayload.PackUnpack | src/mavlink/generator/generator.go:456-471 | Pack of Unpack returns the payload, for every payload of exactly the message's size |
| MavlinkPayload.LittleEndianDigit | src/mavlink/generator/generator.go:158-176 | byte k of a written number is its k-th digit to base 256 |
| MavlinkPayload.NumberDigit | src/mavlink/generator/generator.go:209-224 | the k-th digit to base 256 of a number read is byte k |
| MavlinkPayload.PackedByte | src/mavlink/generator/generator.go:456-463 | in a packed message, digit k of element j of field i stands k bytes into that element |
| MavlinkPayload.UnpackedByte | src/mavlink/generator/generator.go:465-471 | unpacking succeeds if and only if the payload is long enough, longer ones included, and digit k of element j of field i is the byte at that place |
| MavlinkMessages.MessageArrivesExactly | src/mavlink/parser/message.go:199-208 | a typed message arrives with its values if and only if its id is known and its fields fit in 255 bytes |
| MavlinkMessages.ReorderedPeersAgree | src/mavlink/generator/generator.go:106-142 | peers whose declarations differ only across widths share CRC_EXTRA and read each other's payloads |
| Heap.SwimOrders | src/utils/pqueue.go:160-166 | swimming a misplaced item restores the heap order |
| Heap.SinkOrders | src/utils/pqueue.go:168-183 | sinking a misplaced item restores the heap order |
| Heap.RootIsExtremal | src/utils/pqueue.go:149-151 | no priority in an ordered heap is above that of the root, or below it in a minimum heap |
| Heap.PushHead | src/utils/pqueue.go:77-85 | a push changes the head if and only if the queue was empty or the new priority is strictly greater, or strictly less in a minimum queue |
| PriorityQueue.PushBag | src/utils/pqueue.go:77-85 | a push adds exactly the new item |
| PriorityQueue.PopBag | src/utils/pqueue.go:89-105 | a pop removes exactly the head |
| PriorityQueue.RunServes | src/utils/pqueue.go:77-105 | every run of pushes and pops, minimum or maximum, answers as an ideal priority queue over a multiset does |
| PriorityQueue.DrainSorts | src/utils/pqueue.go:89-105 | popping to the end yields a sorted permutation of the contents |
| CommandDispatcher.RunInv | src/vehicle/vehicle.go:180-209 | every interleaving of pushes, acknowledgements and ticks keeps the dispatcher's invariant |
| CommandDispatcher.CommandsAreTriedSixTimes | src/vehicle/vehicle.go:180-209 | no command is transmitted more than six times; one that left had a final status or six transmissions |
| CommandDispatcher.TickServesLeastOp | src/vehicle/vehicle.go:185-207 | a tick drops a finished command of least op or transmits an unfinished one of least op and counts it; every other command, its record and the rest of the queue stay |
| CommandDispatcher.WideOpStaysUnanswered | src/vehicle/vehicle.go:575-583 | a command whose op does not fit in sixteen bits is never acknowledged |
| CommandDispatcher.Drains | src/vehicle/vehicle.go:180-209 | with no further pushes, the sum of seven less the transmissions made bounds the ticks until the queue is empty |
| CommandDispatcher.EnqueuedWorks | src/vehicle/vehicle.go:575-583 | a new command adds exactly seven ticks of work |
| CommandDispatcher.SilentDrain | src/vehicle/vehicle.go:180-209 | against a vehicle that stops answering, whatever it answered before, the queue is empty if and only if that many ticks have passed |
| CommandDispatcher.PopRemovesJudged | src/vehicle/vehicle.go:186-203 | with pushes between head and pop, the judged command is the one removed if and only if none has a strictly smaller op |
| CommandDispatcher.AckAnswersExactly | src/vehicle/api/api.go:781-790 | an acknowledgement of the number its message carries answers an unanswered head if and only if the op fits in sixteen bits |
| CommandDispatcher.OpAnswerableExactly | src/vehicle/vehicle.go:575-583 | some run answers a command of an op if and only if the op fits in sixteen bits |
| CommandDispatcher.WideOpMissesItsAck | src/vehicle/vehicle.go:575-583 | a command of op 65552 goes out as command 16 and the answer to 16 is not taken |
| CommandAnswers.StatusIsLastAnswer | src/vehicle/api/api.go:781-790 | in every run the status of a command is the result of the last acknowledgement that found it at the head, 10 if there is none |
| CommandAnswers.LeavesUnsentExactly | src/vehicle/vehicle.go:192-206 | in every run a command that has left was never sent if and only if its last answer was final and came before its first transmission |
| CommandAnswers.AcceptedUnsent | src/vehicle/api/api.go:781-790 | a queued command is dropped unsent by an acceptance of its number that comes before the first tick |
| CommandAnswers.TickDropsExactly | src/vehicle/vehicle.go:180-209 | in every run a tick on the head removes it unsent if and only if the last acknowledgement that found it there carried result 0, 2, 3 or 4, or it was sent six times; otherwise it is sent and stays |
| ParameterAccounting.MissingIsExact | src/vehicle/vehicle.go:236-241 | the list is the ascending list of precisely the indices below the total not received |
| ParameterAccounting.MissingPlusReceived | src/vehicle/vehicle.go:250-262 | missing and received indices add up to the total even if names share an index |
| ParameterAccounting.CountMatchesExactly | src/vehicle/vehicle.go:231 | the count test passes if and only if indices beyond the range outnumber missing ones by one |
| InitialisationGate.ReceivedExactly | src/vehicle/api/api.go:932-960 | a parameter is held exactly as its latest message since the last scrub or refresh gave it |
| InitialisationGate.RunIsHonest | src/vehicle/vehicle.go:218-279 | in every run the flags and parameters are functions of the log |
| InitialisationGate.QueueIsServedExactly | src/vehicle/vehicle.go:218-233 | in every run a turn serves the queue if and only if heartbeat, capabilities and a parameter came with no timeout, scrub or refresh since, and the count test passes on what the log leaves received or the timer ran out since the last refresh |
| InitialisationGate.ForceSurvivesScrub | src/vehicle/api/api.go:343-358 | a run that serves the queue after a scrub with a parameter missing and no timer run out since |
| InitialisationGate.ReportIsRightExactly | src/vehicle/vehicle.go:658-675 | in every run the found count is right if and only if: nothing is missing, when the timer has not run out since the last refresh; as many are missing as when it last ran out, otherwise |
| InitialisationGate.TurnActsExactly | src/vehicle/vehicle.go:218-279 | in every run the log decides each act of a turn, if and only if for each: scrub when offline; ask for capabilities when online without them; for the list when no parameter is in; serve; else ask for exactly the missing indices, and force when the timer ran out; nothing twice |
| VehicleRuns.TransmitsExactly | src/vehicle/vehicle.go:180-279 | in every run of gate and queue together a move transmits if and only if it is a turn, the log lets the queue be served and the head is unfinished; that head, of least op, is what goes out |
| VehicleRuns.TurnIsMove | src/vehicle/vehicle.go:218-279 | what StateHandler promises is one such move, whatever the log |
| DroneDP.ParseAcceptsExactly | src/cloudlink/dronedp/dronedp.go:138-195 | ParseMsg accepts m if and only if the checksum matches, there are eight bytes, the op is readable, the input begins with the body of m and the JSON library takes typed data |
| DroneDP.ParseOfGenerated | src/cloudlink/dronedp/dronedp.go:75-195 | a generated message comes back with its data cut to its length modulo 65536, subject to the JSON library for typed data, a terminal message not at all |
| DroneDP.RoundTripsExactly | src/cloudlink/dronedp/dronedp.go:75-195 | a message survives if and only if it is no terminal message, has at most 65535 bytes and the JSON library takes back typed data |
| DroneDP.BurstInBodyRejected | src/cloudlink/dronedp/dronedp.go:144-149 | a burst of up to sixteen bits anywhere under the checksum is an error |
| DroneDP.DamageAcrossSealMissed | src/cloudlink/dronedp/dronedp.go:125-130 | on every intact input the masks 0x0C and 0x05 at that place pass |
| DroneDP.DamagePassesExactly | src/cloudlink/dronedp/dronedp.go:144-149 | damaged input of the same length passes if and only if the damage, taken as an input, is itself intact |
| DroneDP.DamagedTailPassesExactly | src/cloudlink/dronedp/dronedp.go:144-149 | only the bytes from the first damaged one on decide, which settles every burst across the checksum boundary by its own mask |
| DroneDP.SealDamageRejected | src/cloudlink/dronedp/dronedp.go:144-149 | damage confined to the checksum is always an error |
| DroneDP.AcrossSealPassesExactly | src/cloudlink/dronedp/dronedp.go:144-149 | damage to the last covered byte and the checksum byte beside it passes if and only if the table entry of the one mask is the other mask in the high byte |
| DroneDP.DamagedMessageAccepted | src/cloudlink/dronedp/dronedp.go:75-195 | such damage to any generated message with data gives another message, accepted as if it had been sent |
| DroneDP.GeneratedByPlace | src/cloudlink/dronedp/dronedp.go:75-133 | five ops can be sent; every byte by its place: session, op, length modulo 65536, data, checksum of all before it, each number high byte first |
| DroneDP.ParseOutcomes | src/cloudlink/dronedp/dronedp.go:138-195 | for every input, exactly which fault, error, JSON error or message ParseMsg yields, with the fields read from their places |
| CloudSession.CounterCountsTurns | src/cloudlink/cloudlink.go:444-451 | in every run the counter is fifteen less the status turns since the last message or logout, modulo fifteen, so it stays in 1..15 |
| CloudSession.SessionIsLiveExactly | src/cloudlink/cloudlink.go:352-451 | in every run a session is held if and only if the last message is one of it, no failed read or logout came since, and fewer than fifteen status turns |
| CloudSession.SyncerRunsExactly | src/cloudlink/cloudlink.go:352-404 | the syncer runs for a pair if and only if the latest status message named it with a drone id and every turn since found a session |
| CloudSession.CommandWaitsExactly | src/cloudlink/cloudlink.go:296-312 | in every run the slot holds exactly the latest raw command not yet cleared |
| CloudSession.TerminalIsOnlineExactly | src/cloudlink/cloudlink.go:417-440 | in every run the terminal counts as online exactly from a request until a tunnel closes or a logout |
| CommandSlot.EncodesExactly | src/fmulink/fmulink.go:412-428 | a step of the link loop encodes a command if and only if it reads, and then the latest one not cleared |
| CommandSlot.CommandLostExactly | src/fmulink/fmulink.go:412-428 | in every run a command is never encoded and gone if and only if another replaces it, or the loop clears it away, before the loop reads |
| CommandSlot.ClearLosesExactly | src/fmulink/fmulink.go:413-427 | a clear takes away an unread command if and only if that was stored between the read and the clear |
| CommandSlot.SecondCommandLost | src/fmulink/fmulink.go:413-427 | a run of two commands in which the second is never encoded |
| Throttles.FlushSendsLatestExactly | src/cloudlink/cloudlink.go:223-241 | in every run what waits under an id is the latest packet of that id stored since the last flush, if and only if there is one |
| Throttles.FileHoldsFirsts | src/fmulink/flightsaver.go:99-120 | in every run the flight log is exactly the first record of each id between timer wakes, in arrival order |
| CloudRuns.SyncTurnSendsExactly | src/cloudlink/cloudlink.go:223-241 | in every run of session and traffic, a turn of the sync timer sends, under the live session, exactly the latest packet of each id stored since the last flush, once each; nothing without a connection or session |
| CloudRuns.FlushIsBatch | src/cloudlink/cloudlink.go:226-236 | what FlushMsgs writes is that batch, each packet in its DroneDP frame |
| Text.SplitJoinExactly | src/cloudlink/store.go:50-103 | joined parts split back if and only if there is a part and none contains the separator |
| Text.Utf8WidthIsLeast | src/cloudlink/store.go:124-139 | a character of the text takes as many bytes as the shortest sequence that stands for it |
| SwapRemoval.SweepExactly | src/cloudlink/store.go:88-93 | on any list the loop runs off the slice if and only if the place of some occurrence and the occurrences before it make up the length; otherwise it deletes every occurrence and nothing else |
| SwapRemoval.DistinctNeverRunsOff | src/cloudlink/store.go:88-93 | on a duplicate-free list it never runs off |
| KeyStore.StoreRoundTripsExactly | src/cloudlink/store.go:105-186 | for every order of the entries a written store is read back by Load if and only if no key or value has a dash or semicolon and the text is at most 348 bytes |
| KeyStore.OutputsSurviveExactly | src/cloudlink/store.go:50-103 | a list survives its text if and only if no name has a comma and it is not the lone empty name |
| KeyStore.AddedOutputs | src/cloudlink/store.go:50-74 | adding a new name keeps the list duplicate-free, and it is read back if and only if the name has no comma and is not empty in an empty list |
| KeyStore.DeletedOutputs | src/cloudlink/store.go:84-103 | what a deletion leaves is read back if and only if it is not the lone empty name |
| KeyStore.AdditionsCanDuplicate | src/cloudlink/store.go:50-103 | adding a and then b,a to an empty list leads to a list on which deleting a runs off |
| KeyStore.TextRoundTripsExactly | src/cloudlink/store.go:124-181 | for every order of the entries the text stands for the map if and only if no key or value has a dash or semicolon |
| KeyStore.ReadWholeExactly | src/cloudlink/store.go:164-168 | the one read of 512 bytes takes in the PEM block if and only if the text is at most 348 bytes |
| KeyStore.LengthIsOrderFree | src/cloudlink/store.go:124-130 | the length of the text does not depend on the order the map yields |
| KeyStore.LongOutputUnreadable | src/cloudlink/store.go:50-74 | one output of 342 bytes, alone in the store, makes the next load fault |
| KeyStore.TextByEntries | src/cloudlink/store.go:124-130 | the text is each key, a dash and its value in the order the map yields, with semicolons between |
| FirmwareUpload.PadsToExactly | scripts/px_uploader.py:133-137 | the padding loop ends at padlen if and only if padlen is not below the size and the space left is whole words |
| FirmwareUpload.ExpectedCrcIsFlashCrc | scripts/px_uploader.py:133-137 | for an image and a flash of whole words the result is the CRC of the flash holding the image and erased bytes after it |
| FirmwareUpload.ChunksFit | scripts/px_uploader.py:374-381 | every chunk but the last has 252 bytes, the last is nonempty and no longer, and all are whole words if the image is |
| FirmwareUpload.UploadProgramsImage | scripts/px_uploader.py:330-385 | a reader that follows the length bytes recovers the image from the programming messages |
| FirmwareUpload.FlashBurstNoticed | scripts/px_uploader.py:410-422 | a flash that differs from what was programmed within thirty-two consecutive bits fails the checksum comparison |
| CloudLinkObjects.DatagramIsRead | src/cloudlink/cloudlink.go:226-236 | a packet datagram is read as a binary MAVLink message of its session if and only if the packet is shorter than 65536 bytes |
| CloudLinkObjects.CloudLink.StatusIsRead | src/cloudlink/cloudlink.go:352-376 | a status datagram is read as a status message of its session if and only if its JSON fits and decodes |
| X25Checksum.X25.constructor | src/mavlink/x25/x25.go:21-25 | a new hash holds 65535 |
| X25Checksum.X25.WriteByte | src/mavlink/x25/x25.go:27-32 | the register moves on by the bit-serial step of the byte |
| X25Checksum.X25.Write | src/mavlink/x25/x25.go:34-39 | the register moves on by the whole message; the length is returned |
| X25Checksum.X25.Reset | src/mavlink/x25/x25.go:52 | the register is 65535 again |
| X25Checksum.X25.Sum16 | src/mavlink/x25/x25.go:41 | the register as a number |
| Crc16Checksum.Crc16 | src/cloudlink/crc16/crc16.go:37-44 | the table walk returns the bit-serial CRC from zero |
| Crc32.Walk | scripts/px_uploader.py:127-131 | the table walk from any state is the bit-serial CRC from that state |
| MavlinkFrames.LookUpCrcX | src/mavlink/parser/dialect.go:32-42 | the search loop finds what the lookup function says |
| MavlinkCodec.Decoder.ReadFull | src/mavlink/parser/message.go:127-141 | exactly n bytes, or everything and the end-of-stream error Go reports |
| MavlinkCodec.Decoder.SkipToStart | src/mavlink/parser/message.go:115-124 | the loop stops just past the first start byte, or at the end of the stream |
| MavlinkCodec.Decoder.Decode | src/mavlink/parser/message.go:113-161 | the object reads what the stream function says, and remembers the sequence number of accepted packets only |
| MavlinkCodec.Encoder.EncodePacket | src/mavlink/parser/message.go:211-247 | the object writes what the frame function says and moves its number on exactly when it succeeds |
| MavlinkCodec.DecodeBytes | src/mavlink/parser/message.go:165-194 | the datagram function: slice expressions may reach into the buffer behind the datagram, indices past its end are faults |
| MavlinkCodec.UnrollPacket | src/fmulink/fmulink.go:809-828 | the filled buffer is the packet's frame |
| MavlinkGenerator.Message.Swap | src/mavlink/generator/generator.go:140-142 | two fields change places |
| MavlinkGenerator.Message.SortFields | src/mavlink/generator/generator.go:486-488 | the list becomes its stable descending arrangement |
| MavlinkGenerator.Message.AssignOffsets | src/mavlink/generator/generator.go:490-495 | each offset is the size of the fields before it |
| MavlinkGenerator.Message.CRCExtra | src/mavlink/generator/generator.go:106-127 | the X.25 hash of name, types, field names and array lengths in order, its halves folded by exclusive or |
| MavlinkGenerator.Message.Generate | src/mavlink/generator/generator.go:474-496 | after sorting, offsets are prefix sums, aligned, and CRC_EXTRA is the folded hash of the arranged declaration |
| MavlinkPayload.PutUint | src/mavlink/generator/generator.go:158-176 | byte k at the offset is digit k of the value to base 256, and no other byte changes |
| MavlinkPayload.PackField | src/mavlink/generator/generator.go:181-198 | a scalar or array is appended after what is already written |
| MavlinkPayload.Pack | src/mavlink/generator/generator.go:456-463 | writing every field at its offset yields the fields side by side |
| MavlinkPayload.UnpackField | src/mavlink/generator/generator.go:226-244 | the elements read from the offset |
| MavlinkPayload.Unpack | src/mavlink/generator/generator.go:465-471 | fails exactly on a short payload, reads in range otherwise, ignores bytes past the size |
| MavlinkMessages.Encode | src/mavlink/parser/message.go:199-208 | the packed message goes out as one addressed packet |
| PriorityQueue.PQueue.constructor | src/utils/pqueue.go:57-74 | a new queue is ordered and holds only the nil slot |
| PriorityQueue.PQueue.Push | src/utils/pqueue.go:77-85 | the array becomes the heap function's push; order and element count are kept |
| PriorityQueue.PQueue.Pop | src/utils/pqueue.go:89-105 | the answer and array are the heap function's pop; order and element count are kept |
| PriorityQueue.PQueue.Head | src/utils/pqueue.go:109-121 | the root, nil if there is none |
| PriorityQueue.PQueue.Size | src/utils/pqueue.go:124-128 | the number of slots past the nil one |
| PriorityQueue.PQueue.SwimUp | src/utils/pqueue.go:160-166 | the loop is the recursive swim and ends |
| PriorityQueue.PQueue.SinkDown | src/utils/pqueue.go:168-183 | the loop is the recursive sink and ends |
| DroneDP.GenerateMsg | src/cloudlink/dronedp/dronedp.go:75-133 | the buffer built step by step is session, op, length, data, checksum |
| DroneDP.ReadAt | src/cloudlink/dronedp/dronedp.go:162-168 | a read at an offset fails on short data and at the very end |
| DroneDP.ParseMsg | src/cloudlink/dronedp/dronedp.go:138-195 | the outcome of the parsing function, each error case and the JSON error included |
| KeyStore.Store.Set | src/cloudlink/store.go:105-139 | the map is updated and written out; a write that is cut off takes the name out of memory, one that cannot start changes nothing |
| KeyStore.Store.Load | src/cloudlink/store.go:156-186 | the map becomes what the text says if the block ends within the read; an empty file is an error, a block that does not end there a fault |
| KeyStore.Store.GetOutput | src/cloudlink/store.go:76-82 | the list the text stands for |
| KeyStore.Store.SetOutput | src/cloudlink/store.go:50-74 | the name is added at the end if and only if it is not there |
| KeyStore.Store.DelOutput | src/cloudlink/store.go:84-103 | an index fault if and only if the loop runs off, nothing changed then; otherwise the swept list is stored |
| KeyStore.SweepInPlace | src/cloudlink/store.go:86-93 | the in-place loop is that sweep |
| KeyStore.Store.Rehash | src/cloudlink/store.go:124-128 | the text holds the entries in the order the map yields |
| KeyStore.Store.Del | src/cloudlink/store.go:141-154 | the map is emptied, the file too if it can be made anew |
| FirmwareUpload.Firmware.constructor | scripts/px_uploader.py:118-122 | the image is followed by fewer than four 0xFF bytes and is whole words |
| FirmwareUpload.Firmware.Crc | scripts/px_uploader.py:133-137 | the loop's result is the CRC of the image and its padding |
| FirmwareUpload.Uploader.ProgramMulti | scripts/px_uploader.py:330-340 | 0x27, the length, the data and 0x20 are sent |
| FirmwareUpload.Uploader.SplitLen | scripts/px_uploader.py:374-375 | the slices are the chunks |
| FirmwareUpload.Uploader.Program | scripts/px_uploader.py:378-385 | one message per chunk goes out, in order |
| VehicleObjects.Vehicle.constructor | src/vehicle/vehicle.go:75-119 | a new vehicle is the initial dispatcher state |
| VehicleObjects.Vehicle.DoGenericCommand | src/vehicle/vehicle.go:575-583 | a fresh command object is queued under the full op and carries its low sixteen bits |
| VehicleObjects.Vehicle.UpdateFromAck | src/vehicle/api/api.go:781-790 | only the head's status changes, and only if it was queued under the acknowledged number |
| VehicleObjects.Vehicle.SysOnlineHandler | src/vehicle/vehicle.go:180-209 | one tick of the dispatcher, objects updated in place; TickDropsExactly says what it does |
| VehicleObjects.Vehicle.DropHead | src/vehicle/vehicle.go:192-202 | a finished head leaves the queue and nothing else changes |
| VehicleObjects.Vehicle.TransmitHead | src/vehicle/vehicle.go:203-206 | an unfinished head is sent and counted and stays queued |
| VehicleInit.VehicleApi.UpdateFromHeartbeat | src/vehicle/api/api.go:370-378 | the vehicle is online and nothing else the gate reads changes |
| VehicleInit.VehicleApi.CheckSysOnline | src/vehicle/api/api.go:360-368 | five seconds without an update take it offline |
| VehicleInit.VehicleApi.UpdateFromAutopilotVersion | src/vehicle/api/api.go:693-715 | the capabilities are known |
| VehicleInit.VehicleApi.UpdateFromParam | src/vehicle/api/api.go:932-960 | the parameter is filed under its id up to the first NUL, with the announced total |
| VehicleInit.VehicleApi.Scrub | src/vehicle/api/api.go:343-358 | capabilities and parameters go, the force flag stays |
| VehicleInit.VehicleApi.ResetParams | src/vehicle/api/api.go:884-891 | parameters and the force flag go, capabilities stay |
| VehicleInit.VehicleApi.ForceParamInit | src/vehicle/api/api.go:918-923 | only the force flag changes |
| VehicleInit.VehicleApi.CheckParams | src/vehicle/api/api.go:905-916 | the total and the set of distinct indices |
| VehicleInit.Initialiser.StateHandler | src/vehicle/vehicle.go:218-279 | one turn of the gate, whose acts TurnActsExactly settles; the dispatcher takes a tick if and only if the turn serves, and is untouched otherwise |
| VehicleInit.Initialiser.RequestMissing | src/vehicle/vehicle.go:235-262 | exactly the missing indices are requested, ascending; once the timer ran out they are recorded and the flag is set |
| VehicleInit.Initialiser.RefreshParams | src/vehicle/vehicle.go:658-663 | the recorded list and the parameters go |
| VehicleInit.Initialiser.GetAllParams | src/vehicle/vehicle.go:671-675 | the announced total, and total less recorded missing as a 64-bit unsigned number |
| CloudLinkObjects.FlightSyncer.Start | src/cloudlink/flightsyncer.go:65-80 | starts exactly if it is stopped and the drone id is not empty; then one listener is alive |
| CloudLinkObjects.FlightSyncer.Stop | src/cloudlink/flightsyncer.go:82-87 | needs a live listener to take the quit signal; none is alive afterwards |
| CloudLinkObjects.CloudLink.HandleMessage | src/cloudlink/cloudlink.go:378-442 | one message of the session machine: session, counter, command slot, syncer and terminal flag; the syncer is only stopped while its listener lives |
| CloudLinkObjects.CloudLink.SendStatus | src/cloudlink/cloudlink.go:352-376 | one status turn of the session machine, and the status datagram under the session of its start |
| CloudLinkObjects.CloudLink.CheckOnline | src/cloudlink/cloudlink.go:444-451 | the countdown, and the loss of the session at its end |
| CloudLinkObjects.CloudLink.ReadFailed | src/cloudlink/cloudlink.go:191-195 | a failed read drops the session and nothing else |
| CloudLinkObjects.CloudLink.Logout | src/cloudlink/cloudlink.go:104-117 | the session is dropped, the counter starts over, the store is emptied and its step set |
| CloudLinkObjects.CloudLink.UpdateFromFMU | src/cloudlink/cloudlink.go:314-339 | the packet replaces the one waiting under its message id; ids 22, 44, 47, 77 and 148 also go out at once |
| CloudLinkObjects.CloudLink.FlushMsgs | src/cloudlink/cloudlink.go:223-241 | online and connected, every waiting packet goes out once under the session and the map is empty, in any order; otherwise nothing changes |
| CloudLinkObjects.CloudLink.TunnelHasClosed | src/cloudlink/cloudlink.go:432-438 | the terminal flag is cleared |
| CloudLinkObjects.CloudLink.NullRawFmuCmd | src/cloudlink/cloudlink.go:308-312 | the slot is emptied |
| CloudLinkObjects.CloudLink.GetRawFmuCmd | src/cloudlink/cloudlink.go:302-306 | the content of the slot |
| LinkLoop.RawCommands.TakeCommand | src/fmulink/fmulink.go:413-426 | the slot is read and a command in it encoded; one shorter than an empty frame is a fault |
| LinkLoop.RawCommands.ClearCommand | src/fmulink/fmulink.go:427 | the slot is cleared, whatever it holds by then |
| FlightLog.FlightSaver.Start | src/fmulink/flightsaver.go:66-89 | a created file starts an empty log; a failed creation leaves log and file as they were |
| FlightLog.FlightSaver.Wakes | src/fmulink/flightsaver.go:49-64 | the set is emptied, the file untouched |
| FlightLog.FlightSaver.Persist | src/fmulink/flightsaver.go:99-126 | one sighting of the throttle machine; an error exactly when no log is open |

## Left out

- Goroutines are not modelled: each method is one atomic step. A turn of the state handler is one step too, although the source takes its locks one at a time; only the head and pop of a command tick are split.
- Clocks and timers are boolean parameters (timer ran out, update too old) or events (a status turn, a timer wake).
- Sockets, serial ports, files and HTTP are byte sequences; write and flush errors are not modelled, those of the store's file excepted.
- The JSON library is a parameter: which data it takes, and what it makes of a status message. Data that cannot be marshalled, and a status message without a drone id string, which crashes the source, are not modelled.
- PEM encoding is taken to be the inverse of decoding on a block that is there whole, the first of the file; of the encoding itself only the length is modelled.
- Reading a dialect's XML is not modelled: a field is given by its C type, array length and name, from which the declared type text is formed. Numbers in type names have no upper limit.
- Dialect `IndexOf`, `Add` and `Remove`: easy list operations; the codec needs only the lookup.
- Signedness and floating point of message fields: elements are bit patterns of the element's width.
- MavlinkGenerator.Message.SortFields: Go's library sort is replaced by an insertion sort over the same Less and Swap; the uniqueness of a stable sort makes the outcome the same.
- CloudLinkObjects.CloudLink.UpdateFromFMU: an urgent packet waits in a goroutine until the serve loop takes it; here it goes out in the same step.
- CloudLinkObjects.CloudLink.HandleMessage: opening and closing the tunnel is done by goroutines and a separate program; only the flag and the event of its closing are modelled.
- VehicleInit.VehicleApi.UpdateFromHeartbeat: vehicle type, firmware and state names are finite tables and left out, as is `Scrub`'s reset of ids.
- `FlightSaver.End`, which only resets fields and closes the file.
- Telemetry copies, mode switches, sensor subsystems, the status server, Wi-Fi setup and the message translators are one-branch facts, tables or plumbing.
- Bootloader replies, verification reads and the progress bar of the uploader are not modelled; appending a one-character string to a bytearray, which Python 3 refuses, is modelled as appending 0xFF.
- FirmwareUpload.Firmware.constructor: base64 and zlib decoding are left out; the constructor starts from the decompressed image.
