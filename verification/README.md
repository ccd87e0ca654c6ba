# Verified models of the HaLow RNode firmware

This project models the parts of the firmware whose correctness is hardest to see
by reading them, and proves what they keep over every input and every run:

- the acknowledged bundle transport between TCP and the radio (`SeqWindow`,
  `AckFrame`, `Bundle`, `Reception`, `Redelivery`, `AckProtocol`, `AckTable`,
  `Refinement`, `RateAdapt`);
- the octet-stuffed host stream with its backpressure (`StreamCodec`);
- the table of Reticulum links (`LinkDb`, `LinkHistory`) and link requests
  (`LinkRequest`);
- the DHCP lease core (`Dhcp`);
- NOR flash and the firmware update session on top of it (`Flash`, `Ota`);
- MCS10 fragmentation (`Frag`, `FragOrder`);
- JSON sibling lists and strings (`JsonList`, `JsonString`).

`Words` holds the machine words. `dafny verify dfyconfig.toml` checks everything.

## How to read it

Code that changes state in place is a class (or works on an array) whose methods
follow the branches of the C functions. Each method is tied to a value-level
specification (`Record`, `HandedUp`, `Decide`, `OnMap`, `Taken`, the reference machine
`Feed`/`Frames`, ...), and the theorems are about those specifications and about whole
runs of the methods.

Main results, module by module:

- **No false acknowledgement.** `AckProtocol.NoFalseAck`: on a channel that loses,
  repeats and reorders, with a receiver whose record of the sender may be missing, made,
  emptied and lost at any time, whatever a sender releases on a bitmap acknowledgement
  was received. It rests on `SeqWindow.RecordExact` (the 64-bit window is exactly the set
  of recent arrivals), `AckFrame.Acknowledge` (capture, bit reversal, eight-byte
  serialisation) and `AckFrame.CoversIffMarked` (the sender's subtraction undoes it).
- **Each payload once and in order.** `AckProtocol.HandedUpOnce` composes the protocol,
  the duplicate filter, the ring of content hashes and the splitter: a receiver that has a
  record at the first bundle and keeps it hands up each bundle's payloads at most once,
  together and in order; if no hash is zero and no two frames have the same, every bundle
  that arrives exactly once (`AckProtocol.HandedUpExactlyOnce`).
- **The buffer table under every interleaving.** `AckTable.AckLayer.Run`: the mutex is
  dropped while a frame is at the radio, so threads are suspended in the middle of an
  operation; `Valid` holds after every step of every schedule of sends, flushes, ticks,
  receptions and acknowledgements. It says that the used, in-flight and heap counters are
  exact, that flight never exceeds the window, that staged buffers and peers are in
  bijection, that bundles and payloads are conserved (flushed = acknowledged + dropped +
  in flight; accepted = flushed + dropped + staged), that no bundle goes out more than
  `max_retries + 1` times, and that the bytes in flight are the encoded bundle.
  `AckLayer.Perform` adds that no buffer another thread is sending is touched and that a
  frame enters flight only below the congestion window; `AckLayer.Tx` says exactly which
  sends are refused, in terms of the payloads staged and the room there is.
- **The table refines the protocol.** `Valid` also says that the table holds exactly what
  its own history leaves waiting for each address. `Refinement.HistoryIsRun`: such a
  history, woven into whatever a receiver and a channel do, is a run of the protocol, a
  flush being its Flush, a release on a bitmap its DeliverAck, a drop its GiveUp. Hence
  `Refinement.TableNoFalseAck`: a buffer released on a bitmap acknowledgement held
  payloads that reached the receiver.
- **No thread ever has to wait for the mutex in vain.** `AckTable.AckLayer.RunShort`: in
  every schedule whose sends have at most 4014 bytes, and no longer ones come out of the
  stream decoder (`StreamCodec.FramesBounded`), the mutex is free between any two steps.
- **Bundles come out as they went in.** `AckTable.AckLayer.Arrives`: in any reachable
  state, what is on the air holds the payloads accepted.
- **Rate adaptation.** `RateAdapt.Rate.Run`: the rate stays between the configured one
  and 7, steps are of size one and a gap apart, inside the cooldown the rate stays
  below the highest one abandoned in the collapse episode, and the loss kept follows the
  moving average without rounding by less than seven 256ths.
- **Backpressure is exactly-once.** `StreamCodec.Session`: however the bytes are cut
  up and whatever frames are refused and retried, the frames accepted are those of a
  byte-at-a-time machine that always delivers, but for at most one still held.
- **The link table is a map.** `LinkDb.Run`. `LinkHistory.StateTold`,
  `LinkHistory.ValuesTold` and `LinkHistory.SweptIff`: over every run in which a link stays
  in the table, everything its record says is told by its packets.
- **Identity of a link request.** `LinkRequest.SameIdIff`: exactly the destination and its
  type, the context and the first 64 bytes of the payload enter the link id, whatever the
  hash function; `LinkRequest.BuiltParses` for all other fields.
- **Leases.** `Dhcp.Server.Run`. `Dhcp.NoDoubleAck`: in every run of a new server, told by
  its replies alone, no address is acknowledged to two clients within a lease unless given
  back. `Dhcp.OfferHonoured`, and each decision in numbers (`Dhcp.RequestOfUnknown`,
  `Dhcp.DiscoverAnswered`).
- **Flash is an array.** `Flash.Nor.Write`; `Ota.UpdateInOrder` for a whole update, with
  `Ota.BurstDetected`: an image changed in up to four bytes in a row is refused.
- **Fragments.** `FragOrder.PayloadIffInOrder`: reassembly is right for arrival in order
  and, for every payload and every other order of its parts, wrong on some buffer.
- **Round trips.** `Frag.Deliver`, `JsonString.RoundTrip`, `StreamCodec.RoundTrip`,
  `Bundle.RoundTrip`.

## Where the code does not do what it seems to

Each of these is proved, with the exact condition under which the expected property
holds where there is one.

- The bundle that makes the record of its sender is not recorded itself, so a second copy
  passes the sequence filter too: numbers pass it once if and only if the record is there
  at the first arrival (`SeqWindow.OncePerNumberIff`; two copies in a row:
  `SeqWindow.SecondCopyPassesIff`). With room for the record only the content hash stops
  the second copy: the host gets it if and only if it is not addressed to this node, the
  record was lost in between, or sixteen frames noted in between pushed its hash out
  (`Redelivery.SecondCopyHandedUpIff`). Without room for a record nothing stops it, so
  no bundle is ever handed up twice if and only if the record is there at the first
  arrival (`AckProtocol.NeverTwiceIff`, at a run `AckProtocol.HandedUpTwice`).
- The ring of hashes starts as zeros: the first frame of a new sender is dropped if and
  only if its hash is zero (`Redelivery.FirstFrame`).
- The window spans 64 numbers, but a late arrival is marked with a 32-bit shift: the
  mark lands if and only if the distance is below 32 (`SeqWindow.LateMarkLandsIff`), and
  beyond that it can mark a number that never arrived (`SeqWindow.LateMarkCanForge`); the
  window stays exact whatever the shift yields if and only if the arrival is a repeat and
  the last 32 numbers all arrived (`SeqWindow.LateExactIff`).
- A frame delayed by nearly a whole 16-bit cycle can look like a near one
  (`SeqWindow.WrapForgesMark`): inside one cycle the window stays exact if and only if the
  arrival is not within 63 of the newest number a cycle away (`SeqWindow.RecordExactIff`).
- A list of content ids is taken for an acknowledgement if and only if the signal quality
  it carries is zero or negative (`AckFrame.FidAckTakenIff`).
- The path for tracked frames that do not fit a bundle returns with the mutex held. A send
  goes away with the mutex if and only if its length is 4015 to 4022, a peer record can be
  had, and the radio, the window, the buffer table and the heap have room
  (`AckTable.AckLayer.SendReturns`, at an input `AckTable.KeepsMutex`). It takes a direct
  call: the one caller in the firmware, at `src/halow_pkg_handler.c` line 198, passes on
  frames from the stream decoder, which have at most 2048 bytes
  (`AckTable.AckLayer.RunShort`).
- A step gap is held if and only if the 32-bit sum of time and gap does not wrap
  (`RateAdapt.GapHeldIff`).
- A DHCP offer is honoured if and only if the server did not pass over an older, lapsed
  record of the same client (`Dhcp.OfferHonouredIff`, at an exchange
  `Dhcp.OfferedThenRefused`). A declined address is not kept
  back until its lease runs out, as the comment at `src/dhcpd_core.c` line 153 has it,
  but is free at once: it is the next one offered if and only if no lower slot of the pool
  was free (`Dhcp.DeclinedIsOfferedNextIff`, at an exchange `Dhcp.DeclinedThenOffered`).
- Reassembly places a part behind the earlier parts already there: a packet of up to eight
  parts is intact, whatever the buffer held before, if and only if its parts came in order
  (`FragOrder.IntactIffInOrder`).
- Appending to a JSON array gives a list if and only if the item was no child yet and the
  array was empty or the item's own next pointer was clear (`JsonList.AddItem`; the same
  through `JsonList.InsertItem`); adding or inserting a child again leaves no list at all.
  Detaching an item through a parent that does not own it goes well if and only if the
  item is neither first nor last of its list (`JsonList.Detach`; replacing,
  `JsonList.ReplaceItem`).
- Malformed hexadecimal digits in a `\u` escape count as zero: an escape is read as the
  grammar says if and only if it is cut short or its first four digits are hexadecimal
  (`JsonString.LiteralGrammaticalIff`, at an input `JsonString.MalformedEscapeIsNul`). A
  whole string is treated as section 7 of RFC 8259 has it if and only if it is refused, or
  no control character stands for itself and every `\u` has its four digits
  (`JsonString.ParseGrammaticalIff`, at inputs `JsonString.QuoteSwallowed` and
  `JsonString.NewlineAccepted`). The output still never exceeds its allocation
  (`JsonString.Unpack`).
- A flash write whose end passes the 32-bit range writes nothing and still reports success
  when the wrapped end is inside the flash: a positive answer means the bytes are there if
  and only if the sum did not wrap (`Flash.Nor.Write`, at an input `Flash.WrappedWrite`).

## Model

| member | source | states |
|---|---|---|
| SeqWindow.RxPeer.constructor | src/halow_ack.c:340-352 | a new peer record has heard nothing |
| SeqWindow.RxPeer.RecordSeq | src/halow_ack.c:391-423 | the shifted and ored 64-bit word stands for the set of marked distances that the specification of recording gives, with the undefined 32-bit shift left open |
| SeqWindow.RxPeer.Receive | src/halow_ack.c:1280-1302 | with a record a bundle is taken for a repeat exactly when its distance is marked, and is recorded either way; without one neither happens |
| SeqWindow.RxPeer.Lookup | src/halow_ack.c:354-378 | looking a sender up makes its record if there is room and empties a stale one |
| SeqWindow.RecordExact | src/halow_ack.c:391-423 | recording keeps the window equal to the set of arrivals among the last 64 since the last resynchronisation, under arithmetic mod 65536 |
| SeqWindow.DuplicateExact | src/halow_ack.c:1288-1294 | the duplicate test answers yes if and only if that very number arrived and is still spanned |
| SeqWindow.NextInStep | src/halow_ack.c:1280-1302 | arrivals, lookups and evictions keep record and log equal, and the filter answers from the log |
| SeqWindow.RunExact | src/halow_ack.c:391-423 | so does every run without a cycle-long delay or an undefined shift, with records made, emptied and lost in it |
| SeqWindow.NearKeepsAll | src/halow_ack.c:398-423 | while arrivals stay near, the window stands for every number recorded since the record was made or last emptied |
| SeqWindow.FilterPassesUnrecordedOnly | src/halow_ack.c:1280-1302 | in every run of near arrivals, an arrival passes the filter if and only if its number was not recorded since the record was made or last emptied |
| SeqWindow.SecondCopyPassesIff | src/halow_ack.c:1280-1371 | a second copy passes if and only if there was no record at the first, or the first emptied a stale one |
| SeqWindow.OncePerNumberIff | src/halow_ack.c:1280-1371 | numbers pass once in every quiet near run if and only if the record is there at the first arrival |
| SeqWindow.TwoCopiesPass | src/halow_ack.c:1280-1371 | two copies from an unknown sender both pass |
| SeqWindow.LateMarkLandsIff | src/halow_ack.c:411-419 | the mark of a late first arrival lands if and only if it is less than 32 late |
| SeqWindow.LateMarkCanForge | src/halow_ack.c:411-419 | a shift reduced mod 32 marks a number that never arrived |
| SeqWindow.LateExactIff | src/halow_ack.c:411-419 | an arrival 32 to 63 late keeps the window exact, whatever the shift yields, if and only if it is a repeat and the last 32 numbers all arrived |
| SeqWindow.WrapForgesMark | src/halow_ack.c:398-404 | an arrival a whole cycle ahead leaves a number marked that never arrived |
| SeqWindow.RecordExactIff | src/halow_ack.c:391-423 | inside one cycle recording keeps the window exact if and only if the arrival is not within the span of the newest number a cycle away |
| AckFrame.Capture | src/halow_ack.c:882-892 | the bitmap is the window with its bits reversed over the base newest - 63; nothing to capture before the first arrival |
| AckFrame.Build | src/halow_ack.c:894-905 | the 14 bytes carry exactly this base and these 64 bits |
| AckFrame.Parse | src/halow_ack.c:1226-1230 | reading base and bitmap back gives what the frame carries |
| AckFrame.BuildFids | src/halow_ack.c:914-933 | the frame carries the configured number of ids, one to sixteen, in order |
| AckFrame.ParseFids | src/halow_ack.c:1321-1326 | the ids read back are those the frame carries, sixteen at most |
| AckFrame.FidAckTakenIff | src/halow_ack.c:168-184 | a list frame is recognised if and only if its quality byte is zero or negative, and then reads back as its ids |
| AckFrame.Acknowledge | src/halow_ack.c:935-950 | a peer a bundle was heard from is sent the bitmap of its window, any other the list of ids |
| AckFrame.CoversIffMarked | src/halow_ack.c:1231-1237 | the sender's base test clears a number if and only if the reported window has it marked, for every window and number |
| AckFrame.MirrorDistance | src/halow_ack.c:1236-1237 | the sender's and the receiver's 16-bit distances mirror each other inside the span |
| Bundle.DrawnIsTxSeq | src/halow_ack.c:994-995 | unbounded numbering is the 16-bit counter without its wrap, reserved value skipped |
| AckProtocol.ReportIsTruthful | src/halow_ack.c:882-905 | every bit of an acknowledgement stands for a bundle that arrived |
| AckProtocol.ReleasedWereReceived | src/halow_ack.c:1231-1245 | what an acknowledgement releases was received, however old it is within the cycle |
| AckProtocol.StepKeepsInv | src/halow_ack.c:1266-1305 | send, resend, give up, arrival with or without a record, lookup, eviction, acknowledge and its arrival all keep the protocol invariant |
| AckProtocol.RunKeepsInv | src/halow_ack.c:1266-1305 | so does every run |
| AckProtocol.NoFalseAck | src/halow_ack.c:1216-1247 | in every run from the start, bundles released on an acknowledgement are a subset of the bundles received |
| AckProtocol.FreshAckReleasesExactly | src/halow_ack.c:1216-1247 | an acknowledgement that arrives at once releases exactly the waiting bundles the receiver has and spans |
| AckProtocol.WholeBundlesOnly | src/halow_pkg_handler.c:131-155 | in every run the host gets whole bundles that were sent, payload after payload |
| AckProtocol.HandedUpOnce | src/halow_pkg_handler.c:131-155 | from a receiver that has a record and keeps it, over near arrivals, each bundle's payloads come at most once, together and in order |
| AckProtocol.HandedUpExactlyOnce | src/halow_pkg_handler.c:131-155 | if no hash is zero and no two frames have the same, exactly the bundles that arrived are handed up, each once |
| AckProtocol.NeverTwiceIff | src/halow_ack.c:1280-1392 | no bundle is ever handed up twice, number filter and hash ring together, if and only if the record is there at the first arrival |
| AckProtocol.HandedUpTwice | src/halow_ack.c:1371-1384 | the run in which one bundle is handed up twice, whatever its hash: neither filter is asked while there is no room for a record |
| AckProtocol.ArrivalKeepsOnce | src/halow_ack.c:1280-1302 | an arrival lets a number through only if none like it went before |
| Bundle.BodyInjective | src/halow_ack.c:1109-1113 | the bytes determine the subframes |
| Bundle.WalkValid | src/halow_pkg_handler.c:101-112 | a package is accepted if and only if it is exactly the announced number of subframes, nothing missing and nothing left over |
| Bundle.Reject | src/halow_ack.c:1253-1264 | a subframe that runs past the end means no list of that many subframes is there |
| Bundle.SplitDeliver | src/halow_pkg_handler.c:114-123 | the frames delivered are those whose encoding the package is, in order |
| Bundle.Deliver | src/halow_pkg_handler.c:145-155 | a well-formed bundle yields exactly its subframes, a malformed one nothing, anything else itself |
| Bundle.RoundTrip | src/halow_pkg_handler.c:101-130 | an encoded list of one to eight payloads is classified as a bundle, accepted by both walks, carries its number and holds exactly that list |
| Bundle.DrawnSeq | src/halow_ack.c:994-995 | the number drawn is never the reserved 0xFFFF |
| Reception.Receiver.constructor | src/halow_ack.c:340-352 | an unknown sender: no record, a ring of zeros |
| Reception.Receiver.OnEnvelope | src/halow_ack.c:1266-1305 | an envelope is consumed unless it is a well-formed bundle that is no repeat; only such bundles are recorded |
| Reception.Receiver.Seen | src/halow_ack.c:380-384 | yes if and only if the hash is in the ring |
| Reception.Receiver.OnData | src/halow_ack.c:1363-1392 | a frame to this node has its sender looked up and is dropped if and only if a record is there and the ring has its hash; otherwise the hash replaces the oldest |
| Reception.Receiver.RfToTcp | src/halow_pkg_handler.c:131-155 | acknowledgements, malformed envelopes, repeats and frames whose hash is remembered yield nothing, and the rest is split; the sender's record and ring follow |
| Reception.BundleHandedUp | src/halow_ack.c:1266-1411 | a sealed bundle is recorded under its number and hands up its payloads unless it is a repeat or its hash is remembered |
| Reception.HandedUpByBytes | src/halow_ack.c:168-190 | by its bytes, a frame yields the payloads of a bundle that is no repeat, nothing if it is another envelope or a list of ids, and itself otherwise |
| Redelivery.NumberedIsReceived | src/halow_ack.c:1266-1392 | the run model of a numbered frame is what reception does with it |
| Redelivery.PlainIsScreened | src/halow_ack.c:1363-1392 | the same for a frame without a number |
| Redelivery.OlderAged | src/halow_ack.c:386-389 | a hash noted grows older by one with each further one, and is in the ring for sixteen |
| Redelivery.RunFollows | src/halow_ack.c:380-423 | through any near run the ring has the first copy's hash exactly while the record was kept and fewer than sixteen frames were noted, and its number stays unrecorded |
| Redelivery.FirstFrame | src/halow_ack.c:340-352 | the first frame of a new sender reaches the host if and only if its hash is not zero, and its number is not recorded |
| Redelivery.SecondCopyHandedUpIff | src/halow_ack.c:1280-1392 | after any near run that brings neither its number nor its hash, a second copy reaches the host if and only if it is not addressed to this node, the record was lost, or sixteen frames were noted in between |
| Redelivery.NoRoomAccepts | src/halow_ack.c:1371-1384 | without room for a record every frame reaches the host and nothing is noted |
| Bundle.StagingCap | src/halow_ack.c:1060-1064 | a fresh staging buffer is the smallest that holds its first subframe and any bundle within the budget and the wire limit |
| Bundle.StagingCapSuffices | src/halow_ack.c:1060-1064 | a staging buffer has room for every bundle within budget, number and wire limit |
| Bundle.StageAppends | src/halow_ack.c:1109-1113 | staging a payload appends its subframe to the bytes staged |
| Bundle.SealEncodes | src/halow_ack.c:996-1004 | writing the header turns the staged bytes into the encoded bundle |
| AckTable.AckLayer.constructor | src/halow_ack.c:1578-1597 | all slots free, all records vacant, counters zero, congestion window the smaller of 4 and the configured one; every invariant holds |
| AckTable.AckLayer.OnCleanClear | src/halow_ack.c:249-251 | the window grows by one up to the configured one and stays in 1..window |
| AckTable.AckLayer.OnRetransTimeout | src/halow_ack.c:253-259 | the window shrinks to three quarters, never below its floor, and stays in 1..window |
| AckTable.AckLayer.PeerFind | src/halow_ack.c:300-305 | a record of that address, or none when there is none |
| AckTable.AckLayer.BufForPeer | src/halow_ack.c:279-286 | whether any buffer is addressed to the peer |
| AckTable.AckLayer.EvictPick | src/halow_ack.c:328-338 | a vacant record, else the longest unheard one that owns no buffer, else none |
| AckTable.AckLayer.PeerGet | src/halow_ack.c:354-378 | finds or creates the record, failing exactly when no record serves the address; every buffer keeps a record in use, eviction included |
| AckTable.AckLayer.BufRelease | src/halow_ack.c:228-234 | the slot is free and all three counters still equal what the table holds |
| AckTable.AckLayer.BufAlloc | src/halow_ack.c:202-226 | the first free slot becomes a buffer in the state asked for and the counters follow; refused if and only if the table or the heap is full |
| AckTable.AckLayer.FlushLocked | src/halow_ack.c:974-1012 | a bundle leaves if and only if one is staged, the radio has room and flight is below both the congestion window and the configured one; nothing else that left staging changes |
| AckTable.AckLayer.Launch | src/halow_ack.c:979-1009 | the sealed bundle carries the accepted payloads under the next sequence number; every invariant holds at the unlock |
| AckTable.AckLayer.Land | src/halow_ack.c:288-296 | on relock the thread's own buffer, still there, is in flight |
| AckTable.AckLayer.Retire | src/halow_ack.c:1415-1427 | one in-flight buffer is freed, booked under exactly one cause and entered in the history; only an acknowledgement of a frame never retried widens the window |
| AckTable.AckLayer.Retransmit | src/halow_ack.c:1452-1481 | one more send of the same bytes, counted; only a first retry narrows the window |
| AckTable.AckLayer.AggReset | src/halow_ack.c:954-962 | a staged bundle is thrown away and its subframes are booked as throttle drops |
| AckTable.AckLayer.StageMore | src/halow_ack.c:1109-1113 | the payload is appended to the staged bundle and never written past its buffer |
| AckTable.AckLayer.StageFresh | src/halow_ack.c:1093-1113 | a bundle is opened with its first payload if and only if table and heap have room; otherwise nothing changes |
| AckTable.AckLayer.Stage | src/halow_ack.c:1087-1113 | a payload is refused if and only if it would overfill the staged bundle, or a new one lacks slot or heap; else the bundle holds the payloads it held and this one |
| AckTable.AckLayer.CloseBundle | src/halow_ack.c:1115-1122 | a staged bundle leaves if and only if bundling is off, it has eight subframes, a full buffer or a used-up budget, and it can leave |
| AckTable.AckLayer.StageTail | src/halow_ack.c:1087-1124 | exactly when staging is refused; an accepted payload is the newest of a bundle for its address, which leaves at once if and only if it closes and can leave |
| AckTable.AckLayer.TxBundle | src/halow_ack.c:1066-1124 | exactly which sends are refused and which send the full bundle first, by the payloads and buffer sizes; the rest are staged, and their bundle leaves at once if and only if it closes and can leave |
| AckTable.AckLayer.TxTo | src/halow_ack.c:1200-1208 | a send up to 4014 bytes rides a bundle and a longer one goes on its own, each refused exactly when there is no room |
| AckTable.AckLayer.TxPlain | src/halow_ack.c:1126-1146 | a frame goes out on its own if and only if radio, both windows, table and heap have room; otherwise nothing changes |
| AckTable.AckLayer.Tx | src/halow_ack.c:1173-1208 | exactly which sends go by broadcast (retries off, the broadcast address, more than 4022 bytes), are untracked, rejected, refused for now, send a full bundle first or go out on their own; an accepted payload is the newest of a bundle for its address |
| AckTable.AckLayer.SendReturns | src/halow_ack.c:1126-1146 | a send goes away with the mutex if and only if it is to be acknowledged, its length is 4015..4022, a record serves its address, and radio, window, table and heap have room |
| AckTable.KeepsMutex | src/halow_ack.c:1126-1146 | on a fresh node with room everywhere a send of 4015 bytes goes away with the mutex |
| AckTable.AckLayer.FlushFrom | src/halow_ack.c:1164-1171 | the flush loop sends the first staged bundle that can leave; those before it lacked radio room or either window, and nothing in flight is touched |
| AckTable.AckLayer.TickPeer | src/halow_ack.c:1504-1516 | a staged bundle leaves if and only if radio and both windows have room; one that cannot is dropped exactly when held too long |
| AckTable.AckLayer.TickPeers | src/halow_ack.c:1504-1516 | the first bundle that can leave does; of those before it, none of which could, the ones held too long are dropped and the others kept; nothing in flight is touched |
| AckTable.AckLayer.ServiceSlot | src/halow_ack.c:1452-1499 | one slot is freed when expired or exhausted, sent again if and only if due, and otherwise left alone |
| AckTable.AckLayer.TickBufs | src/halow_ack.c:1483-1499 | every in-flight buffer up to the first retransmission meets the fate due to it: expired or exhausted ones are freed, due ones are sent again, others left alone; without a retransmission the peers follow, with the room the freed buffers left |
| AckTable.AckLayer.ResumeThread | src/halow_ack.c:288-296 | a thread back from the radio has its buffer in flight and goes on with its flush or tick where it was; a payload it carried is staged or refused, exactly when, no other thread's buffer is touched, and it keeps the mutex exactly when its frame went out on its own |
| AckTable.AckLayer.Hear | src/halow_ack.c:1363-1385 | data from a peer makes or evicts records without breaking a link; afterwards the peer has a record if and only if one could be had |
| AckTable.AckLayer.Arrives | src/halow_ack.c:996-1008 | in any reachable state the bytes on the air hold the payloads accepted, at most eight of them and within the wire limit |
| AckTable.AckLayer.RxEnvAck | src/halow_ack.c:1216-1247 | exactly the in-flight buffers for that peer whose numbers are covered are freed, each booked as acknowledged and entered in the history as cleared |
| AckTable.AckLayer.BufMatch | src/halow_ack.c:267-277 | the first in-flight buffer with that address and content id |
| AckTable.AckLayer.RxFidAck | src/halow_ack.c:1307-1341 | each id of the frame in turn frees the first buffer it matches, zero frees nothing, each booked as acknowledged |
| AckTable.FidsFree | src/halow_ack.c:1321-1341 | for each id that is not zero as many buffers in flight with it as the list has it are freed, or all there are, lowest slots first, and nothing else |
| AckTable.FullIff | src/halow_ack.c:1050-1058 | fullness by the counters is fullness by the payloads and sizes |
| AckTable.AckLayer.Perform | src/halow_ack.c:288-296 | one scheduling choice does what its operation does, keeps every invariant, leaves every buffer another thread is sending as it is, lets a frame into flight only below the congestion window, and clears bundles only on the acknowledgement heard; only a send above 4014 bytes can leave a thread that will keep the mutex |
| AckTable.AckLayer.Run | src/halow_ack.c:288-296 | every interleaving of sends, flushes, ticks, resumptions, receptions and acknowledgements keeps exact counters, the window bound, the links, conservation, the encoded bytes and the history, in which bundles are cleared only on acknowledgements that were heard; every choice is made while no thread kept the mutex, and afterwards only that thread's |
| AckTable.AckLayer.RunShort | src/halow_ack.c:288-296 | in every schedule of sends up to 4014 bytes no thread keeps the mutex and every choice is made |
| AckTable.NothingTold | src/halow_ack.c:1087-1113 | staging, landing and touching a record change no bundle on its way |
| AckTable.MetTold | src/halow_ack.c:340-352 | a new record starts its numbers at zero, with nothing waiting |
| AckTable.FlushTold | src/halow_ack.c:994-1009 | a bundle sent waits under the next number of its record, different from all that wait |
| AckTable.GoneTold | src/halow_ack.c:1231-1245 | a released buffer removes exactly its own bundle from what waits |
| Refinement.DeedIsStep | src/halow_ack.c:974-1012 | each deed of the table is one enabled step of the protocol's sender, leaving both in the same state |
| Refinement.HistoryIsRun | src/halow_ack.c:974-1247 | any history of the table, woven into anything receiver and channel do, is a run of the protocol that ends in the same sender state |
| Refinement.TableNoFalseAck | src/halow_ack.c:1216-1247 | a bundle whose buffer is released on a bitmap acknowledgement reached the receiver with the payloads accepted into it |
| AckTable.FirstMatchIs | src/halow_ack.c:267-277 | the match found is one, and no earlier slot matches |
| AckTable.NoBufferFor | src/halow_ack.c:1452-1457 | an address without a record has no buffer, so the missing-peer branch of a retransmission cannot be reached |
| AckTable.SpanFacts | src/halow_ack.c:974-1012 | across the unlocked span the buffer is still being sent and the peer kept by the thread still names its address |
| AckTable.PeerReplaced | src/halow_ack.c:340-352 | giving an idle record to a new address breaks no link |
| AckTable.LaunchLinked | src/halow_ack.c:979-1009 | sending a staged bundle keeps buffers, peers and threads linked |
| AckTable.StagedLinked | src/halow_ack.c:1093-1113 | staging keeps buffers and peers in bijection |
| AckTable.ResetLinked | src/halow_ack.c:954-962 | so does throwing a staged bundle away |
| AckTable.PlainLinked | src/halow_ack.c:1126-1146 | a frame on its own keeps buffers, peers and threads linked |
| AckTable.AllUsed | src/halow_ack.c:202-226 | the used counter is full if and only if no slot is free |
| RateAdapt.Rate.constructor | src/halow_ack.c:340-352 | a new peer starts at the configured rate with no loss and no history |
| RateAdapt.Rate.StepDown | src/halow_ack.c:534-545 | one step down if and only if above the floor and past the gap; the collapse memory stays the highest rate abandoned in the episode |
| RateAdapt.Rate.StepUp | src/halow_ack.c:547-558 | one step up if and only if past the gap, below the ceiling a fresh collapse leaves, and with the loss at most the mark, strict for the last step |
| RateAdapt.Rate.OnAck | src/halow_ack.c:560-620 | loss decays by an eighth; exactly when the rate falls by one, exactly when it rises by one |
| RateAdapt.Rate.OnRetrans | src/halow_ack.c:628-636 | outside the grace period loss rises by 8 up to 255 and the rate stays |
| RateAdapt.Rate.OnDrop | src/halow_ack.c:638-659 | outside the grace period loss decays and rises by 32, staying within 255; exactly when the rate falls, and that it never rises |
| RateAdapt.Rate.StaleReset | src/halow_ack.c:661-676 | a peer unheard for the stale period falls back to the configured rate and forgets its history; otherwise nothing changes |
| RateAdapt.Rate.Run | src/halow_ack.c:560-676 | over every run the rate stays in bounds, steps are of size one and a gap apart, inside the cooldown the rate stays below the highest one abandoned, and the loss follows, by less than seven, the average that the reports alone tell |
| RateAdapt.Rate.CleanAcks | src/halow_ack.c:560-562 | 255 acknowledgements in a row bring the loss to zero |
| RateAdapt.DecayFalls | src/halow_ack.c:560-562 | the decayed loss falls by at least one a step until it is zero |
| RateAdapt.DecayFollows | src/halow_ack.c:560-562 | one report keeps the loss within seven below the average without rounding |
| RateAdapt.GapHeldIff | src/halow_ack.c:577-579 | the gap keeps every early step out if and only if the 32-bit sum does not wrap, and then keeps out nothing later |
| RateAdapt.PacedAppend | src/halow_ack.c:577-579 | a step past the gap keeps the history paced |
| RateAdapt.RememberDown | src/halow_ack.c:534-545 | the collapse note keeps the maximum of the episode |
| StreamCodec.FeedConcat | src/rns/stream_parser.c:59-172 | the reference machine does not care where its input is cut |
| StreamCodec.FramesBounded | src/rns/stream_parser.c:59-172 | whatever the bytes, every frame that comes out has 1..2048 bytes |
| StreamCodec.EscapeSize | src/rns/stream_parser.c:175-184 | the size counted is the length escaping produces |
| StreamCodec.EscapeWrite | src/rns/stream_parser.c:187-200 | exactly the escaped bytes are written at the place given and nothing else changes |
| StreamCodec.EncodeFrame | src/rns/stream_parser.c:205-216 | a buffer that is large enough holds the frame; a smaller one is untouched and the size is still told |
| StreamCodec.EscapedRun | src/rns/stream_parser.c:116-168 | an escaped payload rebuilds itself between flags, or overflows if and only if it is too long |
| StreamCodec.RoundTrip | src/rns/stream_parser.c:59-216 | from any state, an encoded payload yields what was pending and then itself if and only if it has 1..2048 bytes |
| StreamCodec.StreamRoundTrip | src/rns/stream_parser.c:59-216 | a stream of encoded payloads decodes to exactly those payloads |
| StreamCodec.Decoder.constructor | src/rns/stream_parser.c:26-33 | a new decoder agrees with the machine before any byte |
| StreamCodec.Decoder.Reset | src/rns/stream_parser.c:35-43 | a new session agrees with a fresh machine |
| StreamCodec.Decoder.RetryHeld | src/rns/stream_parser.c:45-57 | a held frame is delivered once or stays held; no byte is consumed |
| StreamCodec.Decoder.TakeByte | src/rns/stream_parser.c:116-168 | one byte on the generic path is one step of the machine, with the frame held back if it is refused |
| StreamCodec.Decoder.CopyRun | src/rns/stream_parser.c:82-114 | the run-copying path equals the byte-at-a-time machine, overflow included |
| StreamCodec.Decoder.Process | src/rns/stream_parser.c:59-172 | the bytes reported consumed are exactly those the machine has seen; refusal is reported if and only if a frame is held |
| StreamCodec.FeedChunk | src/tcp_server.c:227-238 | the new position is right behind the bytes the decoder took |
| StreamCodec.FeedNetbuf | src/tcp_server.c:220-244 | consumed bytes plus what lies behind the resume position are all the bytes, for any chunking |
| StreamCodec.FeedWhole | src/tcp_server.c:338-350 | a parked buffer is fed until it is used up, each byte once |
| StreamCodec.Session | src/tcp_server.c:337-385 | for any chunking, any refusals and any retries between buffers the frames accepted are the machine's, in order, but for at most one held; none is held if after the last buffer it is offered more often than there are refusals |
| LinkDb.LinkTable.constructor | src/rns/link_db.c:415-431 | an empty table is the empty map |
| LinkDb.LinkTable.FindIndexById | src/rns/link_db.c:43-63 | the chain walk ends and finds the id if and only if the map has it |
| LinkDb.LinkTable.FindFreeSlot | src/rns/link_db.c:65-79 | a free slot, none if and only if the count is 255 |
| LinkDb.LinkTable.RemoveIndex | src/rns/link_db.c:81-118 | the map loses exactly that id; chains stay acyclic and complete |
| LinkDb.LinkTable.Insert | src/rns/link_db.c:199-216 | the map gains exactly that id at the head of its bucket |
| LinkDb.LinkTable.Rewrite | src/rns/link_db.c:219-268 | the record changes in place and the chains do not |
| LinkDb.LinkTable.Register | src/rns/link_db.c:142-310 | a close removes the id, any other packet updates or creates its record, and the error codes tell a full table from a full heap |
| LinkDb.LinkTable.SweepExpired | src/rns/link_db.c:321-354 | exactly the links active once, but in neither direction within 900 seconds, are dropped |
| LinkDb.UpdateMonotone | src/rns/link_db.c:219-268 | a packet never moves a state backwards, moves a learned address only when addressed to us, and counts itself once |
| LinkDb.CountIsSize | src/rns/link_db.c:312-319 | the kept count is the size of the map |
| LinkDb.CutChain | src/rns/link_db.c:92-110 | cutting a record out leaves a chain of the others in order |
| LinkDb.UnlinkedBuckets | src/rns/link_db.c:81-118 | after a removal every record is still in exactly the chain of its bucket |
| LinkDb.InsertedBuckets | src/rns/link_db.c:199-216 | the same after an insertion |
| LinkDb.NotHome | src/rns/link_db.c:43-63 | an id not met on its chain is in no slot |
| LinkDb.StepForward | src/rns/link_db.c:219-268 | one event never moves a live link's state backwards |
| LinkDb.NeverBackwards | src/rns/link_db.c:219-268 | nor does any run while the link stays in the table; its learned address moves only for frames sent to us |
| LinkDb.Run | src/rns/link_db.c:142-354 | over every run of registers, closes and sweeps the table is the fold of the events on a plain map |
| LinkHistory.RecordIsFold | src/rns/link_db.c:142-268 | while a link stays in the table its record is its packets applied one after the other, whatever happens to other links |
| LinkHistory.StateTold | src/rns/link_db.c:251-269 | the state told by the packets: open if one addressed to the link was neither request nor proof, else proven if one other than a request was a proof, else requested if a request was sent, else closed |
| LinkHistory.ValuesTold | src/rns/link_db.c:199-247 | counters are the numbers and bytes of the packets each way, times those of the last ones, and address, MTU, hops and destination are told by the packets that bring them |
| LinkHistory.SweptIff | src/rns/link_db.c:321-354 | with a clock that does not go back a sweep drops a link if and only if its last packet was more than 900 seconds ago |
| LinkRequest.ClampMtu | src/rns/link_utils.c:52-92 | the MTU becomes the smaller of old and limit, the mode and every other byte stay, and the packet parses to the same record, link id included |
| LinkRequest.ClampTwice | src/rns/link_utils.c:52-92 | clamping again changes nothing |
| LinkRequest.SignallingInside | src/rns/link_utils.c:5-10 | the signalling field lies behind the hashed core and inside the packet |
| LinkRequest.SignallingNotHashed | src/rns/link_parser.c:55-64 | packets that differ only there parse to the same record |
| LinkRequest.TransportKeepsIdentity | src/rns/link_parser.c:38-69 | a packet and its type-2 form parse alike but for the hop count |
| LinkRequest.HopsKeepIdentity | src/rns/link_parser.c:71-131 | the hop count changes nothing else, error cases included |
| LinkRequest.BuiltParses | src/rns/link_parser.c:71-131 | a packet made of fields parses to them, its link id being its destination or the hash of the fields that identify it |
| LinkRequest.ParsesIffBuilt | src/rns/link_parser.c:71-131 | exactly the packets long enough for their header parse, and each is made of fields |
| LinkRequest.SameIdIff | src/rns/link_parser.c:10-69 | two requests have one link id under every hash function if and only if destination type, destination, context and the first 64 payload bytes agree |
| LinkRequest.SignallingValue | src/rns/link_utils.c:12-34 | the three signalling bytes are the mode and then the 21-bit MTU, most significant first |
| Dhcp.Server.constructor | src/dhcpd_core.c:37-47 | no leases, nothing granted |
| Dhcp.Server.LeaseByMac | src/dhcpd_core.c:100-109 | the first used slot of the client, or none |
| Dhcp.Server.LeaseFreePick | src/dhcpd_core.c:111-123 | the first free slot of the pool, else the first lapsed one, else none |
| Dhcp.Server.SlotFor | src/dhcpd_core.c:201-208 | the slot whose own address is asked for, if free or lapsed |
| Dhcp.Server.OnDiscover | src/dhcpd_core.c:161-175 | the decision on a DISCOVER, in place |
| Dhcp.Server.OnRequest | src/dhcpd_core.c:177-223 | the decision on a REQUEST, in place |
| Dhcp.Server.OnMessage | src/dhcpd_core.c:132-228 | leases and reply are those of the decision function, and grants stay backed |
| Dhcp.Server.Run | src/dhcpd_core.c:132-228 | over every run with a clock that does not go back, replies, leases and grants are the fold of the decisions, slot k stays on pool address k and every live grant is backed by a slot |
| Dhcp.ByMac | src/dhcpd_core.c:100-109 | the slot found is the client's and no earlier one is |
| Dhcp.NoDoubleLease | src/dhcpd_core.c:132-228 | two clients never both hold a live acknowledged lease on one address |
| Dhcp.OverwriteSound | src/dhcpd_core.c:163-171 | taking a free or lapsed slot takes no live grant from anybody |
| Dhcp.DecideSound | src/dhcpd_core.c:132-228 | every message keeps leases and grants in step |
| Dhcp.OthersKeepReservation | src/dhcpd_core.c:132-228 | another client's message cannot touch an unexpired reservation |
| Dhcp.ReservationLasts | src/dhcpd_core.c:132-228 | nor can any sequence of them |
| Dhcp.OfferReserves | src/dhcpd_core.c:161-175 | an offer that passes over no lapsed record reserves its address |
| Dhcp.OfferHonoured | src/dhcpd_core.c:161-223 | a client that requests its offer in time is acknowledged, whatever others sent in between |
| Dhcp.OfferHonouredIff | src/dhcpd_core.c:161-193 | right after an offer the request is acknowledged if and only if no lapsed record of the client was passed over |
| Dhcp.DeclinedIsOfferedNextIff | src/dhcpd_core.c:152-175 | a declined address is the next one offered if and only if no lower slot of the pool was free |
| Dhcp.OfferedThenRefused | src/dhcpd_core.c:161-193 | the exchange in which a client is refused the address it has just been offered |
| Dhcp.DeclinedThenOffered | src/dhcpd_core.c:152-175 | the exchange in which a declined address goes to the next client |
| Dhcp.RequestOfUnknown | src/dhcpd_core.c:195-223 | without a record a REQUEST is granted if and only if the address is in subnet and pool and its slot free or expired; the slot is then the client's |
| Dhcp.RequestOfKnown | src/dhcpd_core.c:177-193 | with a record it is granted if and only if it names the address of the record or none |
| Dhcp.GivenBack | src/dhcpd_core.c:145-159 | RELEASE and DECLINE free the client's first record and are not answered |
| Dhcp.DiscoverAnswered | src/dhcpd_core.c:161-175 | a DISCOVER is answered with the client's own address while it lasts, else from the lowest free slot, else the lowest expired one, else not at all |
| Dhcp.AckedToOneOnly | src/dhcpd_core.c:132-228 | an acknowledged address is acknowledged to nobody else before the lease is over or given back |
| Dhcp.NoDoubleAck | src/dhcpd_core.c:132-228 | the same over every run of a new server, by its replies alone |
| Flash.AndedClear | sdk/hal/spi_nor.c:52-77 | on erased bytes programming is the plain write |
| Flash.ProgrammedInPage | sdk/hal/spi_nor.c:52-77 | a command that stays inside its page, where the chip would wrap, is the bitwise and over the range |
| Flash.Nor.SpiNorWrite | sdk/hal/spi_nor.c:52-77 | the page-wise commands add up to one bitwise and over the range, and none crosses a page |
| Flash.Nor.ProgramPages | src/ports/fal_norflash_port.c:115-133 | the same for the port's own page loop |
| Flash.Nor.NeedErase | src/ports/fal_norflash_port.c:106-113 | yes if and only if some byte is not 0xFF |
| Flash.Nor.WriteOneSector | src/ports/fal_norflash_port.c:135-173 | with or without an erase, the sector write is the plain array write; a range that leaves the sector is refused; an erase happens if and only if the target is not blank |
| Flash.Nor.Write | src/ports/fal_norflash_port.c:175-211 | for any prior contents the range becomes the buffer and every other byte is kept; out of range is refused; a positive answer means that if and only if the 32-bit end did not wrap |
| Flash.Nor.Erase | src/ports/fal_norflash_port.c:213-245 | every sector the range touches becomes 0xFF and nothing else changes; with a wrapped end at most the one sector both ends lie in |
| Flash.WrappedWrite | src/ports/fal_norflash_port.c:175-211 | two bytes at the last 32-bit address are reported written and change nothing |
| Flash.SectorRewritten | src/ports/fal_norflash_port.c:153-170 | erasing a sector and programming a patched copy patches the flash |
| Ota.Crc32 | src/ota/ota.c:59-68 | the loop computes the bit-serial CRC of the bytes, whose check value and error detection are the rows below |
| Ota.CrcConcat | src/ota/ota.c:59-68 | the CRC carried over blocks is the CRC of the whole |
| Ota.ShiftsInjective | src/ota/ota.c:64-66 | the shift of the register is a bijection |
| Ota.RollWord | src/ota/ota.c:61-67 | up to four bytes enter the register as one little-endian word |
| Ota.BurstDetected | src/ota/ota.c:59-68 | images of one length that differ, in four bytes in a row at most, have different CRCs |
| Ota.CheckValue | src/ota/ota.c:59-68 | the CRC of the nine ASCII digits is 0xCBF43926 |
| Ota.OneStartIsPlain | src/ota/ota.c:78-158 | with the first chunk the only one at offset 0 the image is the plain writes over erased flash |
| Ota.InOrderImage | src/ota/ota.c:115-158 | chunks laid end to end leave the image as sent |
| Ota.InPartition | src/ota/ota.c:115-158 | a chunk patches the partition and nothing behind it |
| Ota.Session.constructor | src/ota/ota.c:33-43 | no session is open |
| Ota.Session.Begin | src/ota/ota.c:160-179 | opens a session if and only if the size is 1 to the partition size |
| Ota.Session.EraseIfNeeded | src/ota/ota.c:78-113 | offset 0 erases the whole partition; any other offset is refused until then |
| Ota.Session.WriteChunk | src/ota/ota.c:115-158 | a chunk is taken if and only if the session is open, it is non-empty, inside the announced size and the image was started; it then patches the image |
| Ota.Session.End | src/ota/ota.c:196-235 | success if and only if a session is open and the CRC of the announced length on flash is the announced one; so an image changed in one to four bytes in a row is refused |
| Ota.Update | src/ota/ota.c:115-235 | all chunks are taken if and only if the first is at offset 0 and all fit; then the image is their fold, and success is decided by its CRC |
| Ota.UpdateInOrder | src/ota/ota.c:115-235 | an image sent in order is on flash byte for byte, and the update succeeds if and only if the announced CRC is the image's |
| Frag.Split | src/halow.c:941-997 | one frame up to 300 bytes, none above 2400, else all parts in order behind their headers |
| Frag.Reassembly.constructor | src/halow.c:188-200 | an idle record |
| Frag.Reassembly.Store | src/halow.c:301-322 | a new part goes behind the stored parts before it; a repeat, an empty or an oversized part changes nothing |
| Frag.Reassembly.Length | src/halow.c:328-333 | the sum of the parts, within the buffer |
| Frag.Reassembly.Receive | src/halow.c:335-386 | each header form has its effect, and no frame makes a copy leave the buffer |
| Frag.TakeNext | src/halow.c:301-322 | the next part in order extends the prefix held or completes the payload |
| Frag.TakeAgain | src/halow.c:301-322 | a part seen before changes nothing |
| Frag.Arrives | src/halow.c:335-386 | any arrival in order or again, in time, extends, keeps or completes |
| Frag.Deliver | src/halow.c:335-386 | a payload of 301..2400 bytes delivered in order with repeats is handed up once, intact, exactly when its last part arrives |
| Frag.DeliverShort | src/halow.c:335-386 | a payload of up to 300 bytes is handed up as it is and leaves the record alone |
| FragOrder.StoresNext | src/halow.c:301-322 | in any order a part goes to the place counted by the earlier parts already there |
| FragOrder.RepeatChangesNothing | src/halow.c:308-310 | in any order a repeat changes nothing |
| FragOrder.Gap | src/halow.c:312-318 | every order but the sender's leaves a place nothing is copied to |
| FragOrder.IntactIffInOrder | src/halow.c:301-322 | up to eight parts in any order complete the record, and it is intact for every prior buffer if and only if they came in order |
| FragOrder.PayloadIffInOrder | src/halow.c:301-322 | the same said of the payload |
| FragOrder.DeliverAny | src/halow.c:335-386 | parts in any order, in time, hand up once, at the last part, exactly what that order leaves in the buffer |
| JsonList.AddItem | src/cJSON.c:2012-2043 | the children become the old ones and the item if and only if the item was no child and the list was empty or its next was clear; adding a child again leaves no list; null and self are refused |
| JsonList.Unlink | src/cJSON.c:2250-2274 | which links change when an item is taken out with its parent or another one |
| JsonList.Detach | src/cJSON.c:2243-2277 | the children lose exactly that item, whose links are cleared; through another parent both lists are right if and only if the item is neither first nor last |
| JsonList.GetItem | src/cJSON.c:1907-1924 | the element at the index, or null past the end |
| JsonList.OnlyPath | src/cJSON.c:1907-1924 | the path the next pointers give is the only candidate for the children |
| JsonList.InsertBefore | src/cJSON.c:2339-2350 | which links change when an item, a child or not, is linked in before an element |
| JsonList.ChildSpliced | src/cJSON.c:2339-2350 | a child linked in again leaves no list: a circle, or links back that do not match |
| JsonList.InsertItem | src/cJSON.c:2319-2351 | the item stands before the old element at the index, or last; a list results if and only if the item is neither the parent nor a child and, appended behind others, its next was clear |
| JsonList.ReplaceItem | src/cJSON.c:2353-2400 | the replacement stands in the item's place if and only if it was no part of the list; through another parent both lists are right if and only if, besides, the item is neither first nor last |
| JsonString.CountExtra | src/cJSON.c:977-1000 | the length precomputed is the length escaping produces |
| JsonString.WriteByte | src/cJSON.c:1022-1063 | one character is written as its escape |
| JsonString.EscapedAsNeeded | src/cJSON.c:977-1063 | exactly the characters that may not stand for themselves are escaped, with two characters whenever the grammar has such an escape |
| JsonString.PrintString | src/cJSON.c:949-1068 | the buffer, of exactly the size counted, holds the quoted escaped string and its terminator |
| JsonString.Utf8RoundTrip | src/cJSON.c:764-810 | the bytes produced decode to the code point |
| JsonString.SurrogatesCover | src/cJSON.c:724-754 | the twelve characters of the surrogate pair of any code point beyond the first plane are read back as it |
| JsonString.WriteUtf8 | src/cJSON.c:764-810 | the loop that shifts from the last byte writes the UTF-8 sequence of the code point |
| JsonString.LiteralGrammaticalIff | src/cJSON.c:698-762 | an escape is read as the grammar says if and only if it is cut short or its first four digits are hexadecimal; otherwise it is read as NUL |
| JsonString.AcceptedDigitsIff | src/cJSON.c:724-746 | an accepted escape has hexadecimal digits throughout if and only if its first four are |
| JsonString.HexValIff | src/cJSON.c:661-694 | exactly the digits of either case have a value, and it is their place |
| JsonString.SimpleIsGrammar | src/cJSON.c:878-902 | the two-character escapes read are those of the grammar |
| JsonString.MalformedEscapeIsNul | src/cJSON.c:661-694 | the input of four letters that parses to a single NUL |
| JsonString.GrammarRead | src/cJSON.c:819-946 | what the grammar reads in one go the two passes read the same |
| JsonString.TidyRead | src/cJSON.c:819-946 | and the other way round for text with every \u well formed and no control character |
| JsonString.ParseGrammaticalIff | src/cJSON.c:819-946 | every string of the grammar is parsed to its value, and a text is treated as the grammar says if and only if it is refused or tidy |
| JsonString.QuoteSwallowed | src/cJSON.c:661-694 | the input whose closing quote becomes part of its value |
| JsonString.NewlineAccepted | src/cJSON.c:865-876 | the input with a line feed that is accepted |
| JsonString.FindEnd | src/cJSON.c:832-857 | the first pass finds the closing quote and counts the escapes skipped |
| JsonString.BudgetLiteral | src/cJSON.c:905-913 | a \u escape, malformed or not, never needs more room than its characters reserved |
| JsonString.UnpackOne | src/cJSON.c:865-919 | one character or escape moves value and room along together, or the whole has no value |
| JsonString.Unpack | src/cJSON.c:865-923 | the second pass writes the unescaped text and, for no input, past its allocation |
| JsonString.ParseString | src/cJSON.c:819-946 | the value and the end of a quoted string, or failure, as the specification says |
| JsonString.OneBack | src/cJSON.c:1022-1063 | one escaped character is scanned over as a whole and read back as itself |
| JsonString.AllBack | src/cJSON.c:819-946 | so is any escaped text |
| JsonString.RoundTrip | src/cJSON.c:819-1068 | any printed string is a string of the grammar and parses to itself, whatever follows it |

## Left out

- Hypotheses of the protocol runs: the sender's peer record is not re-created (its
  sequence counter does not restart), no frame is delayed across a 16-bit cycle, and
  late arrivals are within 31. The receiver's record may be lost or reset at any time.
- AckTable: clock comparisons, radio room, heap exhaustion and content hashes are inputs
  of each step; the configuration is fixed; the debug hook that pins the congestion
  window is not modelled; counters are unbounded. The kernel's mutex admits its owner
  again (`csky/csi_kernel/rhino/core/k_mutex.c` lines 282 to 296), so a thread that kept
  it may go on sending and flushing while every other waits; the overflow of the nesting
  count is not modelled.
- AckTable.AckLayer.TickBufs: the branch for a missing peer is not modelled because no
  reachable state has one; the deferred acknowledgements of a tick, which touch neither
  table, and the rate adaptation calls, which `RateAdapt` models, are left out.
- AckTable.AckLayer.Tx: sending untracked or by broadcast is a result, not a send.
- Reception: one sender is looked at; the content hash of a frame is an input.
- Refinement.HistoryIsRun: covers a record from its creation to its eviction, because the
  numbers start again with a new record; a release on a content id counts as a drop.
- RateAdapt: adaptation on, the configured rate fixed, the jiffy counter not wrapping
  within a run; the acknowledgement counter, logging and the early retransmission after
  a downshift, which change no rate, are left out. The stale reset inside the peer lookup
  is the one of `StaleReset` with the step allowed at once.
- StreamCodec: the encoder that allocates its own buffer, and the pauses of the client
  loop.
- StreamCodec.FeedNetbuf: a resume position behind an empty chunk counts into the chunk
  after it, as in the code; positions the code never produces are excluded.
- LinkDb: the hash function is any function; byte counters are unbounded; snapshots and
  logging are left out.
- LinkRequest: SHA-256 is any function; the effective MTU kept for a link is left out.
- Dhcp: parsing and building of packets is left out; the 64-bit clock does not wrap; the
  netmask is any function on addresses.
- Flash: sector and page sizes are the constants of this board, and a program command wraps
  inside its page, as NOR flash does; busy waiting, chip
  identification and write protection are left out.
- Ota: the session timeout and the Ethernet command path are left out.
- Frag.Split: a radio that refuses a frame in the middle of a payload is left out.
- JsonList: numbers, objects, trees, deep copies and memory hooks.
- JsonList.Detach: the last item of another parent's list is not taken out through a
  parent without children, which the code dereferences.
- JsonString: strings are byte sequences; a printed string ends at its first NUL, so the
  round trip is about NUL-free strings. Buffer growth is left out.
- The hash function itself, the LMAC and its watchdogs, listen-before-talk, the HTTP
  pages, configuration storage, telemetry and statistics would add only easy members.
