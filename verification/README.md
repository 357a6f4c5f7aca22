# Verified models of the Meshtastic firmware's algorithmic cores

Each module models one self-contained part of the firmware and proves what that part is for. A part
that updates state is a class or a method working in place, tied to specification functions; the
properties are then proved about those functions, over whole runs where there are runs.

- **Uptime clock** (`UptimeClock.dfy`): one writer publishes 64-bit uptimes in two alternating slots,
  any number of readers copy the current slot and extend it with a wrapping 32-bit millisecond
  counter. Every atomic load and store is a step of its own, so a sequence of steps is an
  interleaving. No reader ever gets a torn pair; times are exact and monotonic across any number of
  wraps.
- **Airtime windows** (`Airtime.dfy`, `UptimeAirtime.dfy`): two modular rings and three shift-ordered
  hourly histories, rotated on access, equal sums over the full event log however rarely they are
  synchronised. On the clock above, they need no assumption about time going forward.
- **XModem** (`Crc16.dfy`, `XModem.dfy`, `XModemNames.dfy`, `XModemDelivery.dfy`): the file-transfer
  adapter. It refuses unsafe names over every sequence of packets. Its checksum
  is polynomial long division. Two adapters over a channel that damages packets keep a prefix of the
  file, end within boundedly many steps, and deliver the whole file exactly when no ACK was damaged
  and no chunk as often as it had retries; otherwise the transfer is cancelled and the file removed.
- **Message store** (`MessagePool.dfy`, `MessageStore.dfy`, `MessageFile.dfy`, `MessageStoreCode.dfy`): a
  wrapping bump allocator shared by a bounded queue, and its save file. The newest N - 1 texts
  always survive; the N-th newest, and any older one, under exact conditions.
- **UTF-8 repair** (`Utf8.dfy`): the in-place rewriter is a projection onto the well-formed strings of
  section 4 of RFC 3629.
- **Virtual pins** (`GpioLogic.dfy`): incremental propagation equals evaluation from scratch.
- **Notified worker** (`NotifiedWorker.dfy`): no lost wakeup wherever interrupts fall.
- **Safe file** (`SafeFile.dfy`): the target is complete at every crash point.
- **UF2 conversion** (`Uf2.dfy`, `HexFile.dfy`): binary and HEX images survive the trip through UF2,
  from the writing of the HEX records on.
- **GPS scheduling** (`GpsScheduling.dfy`): the interpolated threshold, the wait on a wrapping counter,
  the smoothed lock-time prediction.
- **Location code** (`LocationCode.dfy`): a code names the cell that holds the position.

`Words.dfy` and `Modular.dfy` hold the machine words and the modular arithmetic they share.

## What the proofs found

Each of these is a theorem below; the models keep the code as it is.

- Starting a transfer does not clear the sender's end flag, and giving up on the last chunk leaves it
  set (`CancelLeavesStaleFlag`). The next file is then delivered as its first chunk alone, even over
  a clean channel (`StaleFlagTruncates`); `FaithfulIff` says which completed runs are faithful.
- Starting does not renew the retry budget either: a transfer that follows one that gave up ends on
  its first NAK (`FirstNakEndsIff`, `GivingUpEndsTheNext`).
- One damaged ACK dooms a transfer: the receiver is then one chunk ahead and refuses every repeat,
  until the sender cancels and the file is removed (`DoomedStays`, `DeliveredIff`).
- An unsafe name is refused but remembered, and a CAN removes the file named last: so a file of an
  unsafe name is removed if and only if a CAN arrives while that name is the remembered one
  (`RefusedNameRemovedByCancel`, `UnsafeFilesOverRuns`).
- A NAK past packet 65535 seeks to the wrong place (`NakSeeksRightIff`).
- A write the disk cuts short is acknowledged like a complete one (`ShortWriteIsAcknowledged`).
- The text pool has room for N full texts but does not keep them, because its wrap test is `>=`: the
  first N survive if and only if one is short (`FirstNDisjointIff`), and the N-th newest in general
  until the write position passes it again (`NthNewestSurvivesIff`). `SaveThenLoad` is exact in the
  same way.
- A main-thread `notify` that asks not to overwrite overwrites an interrupt's accepted notification
  exactly when that was accepted between its test and its write (`AcceptedNotificationLost`,
  `LostIffRaced`).
- Two changed bytes pass the readback exactly when changed alike (`TwoChangesCancelIff`); a file that
  lost its end, when that end has hash 0, as zeros do (`LostEndPassesIff`, `LostZerosPass`); a leftover
  temporary file, where opening for write appends, when its own hash is 0 (`LeftoverPassesIff`).
- A block with a bad magic number makes the UF2 decoder fail rather than skip, because building its
  message concatenates text and a number (bin/uf2conv.py:67-69): `BadMagicFails`.
- `msUntilNextSearch` is exact exactly under the condition of `WaitIsExactIff`.

## Model

| member | source | states |
|---|---|---|
| UptimeClock.ExtendIsExact | src/UptimeClock.cpp:31-34 | extending a published uptime gives the true 64-bit uptime if and only if the snapshot is less than one wrap old and the uptime fits 64 bits |
| UptimeClock.ServiceKeepsUntorn | src/UptimeClock.cpp:65-81 | no single load or store of the writer, at any point of any reader's copy, disturbs the slot that is current |
| UptimeClock.ReadKeepsUntorn | src/UptimeClock.cpp:38-49 | a reader's step keeps the invariant, and a copy it accepts belongs to one publication |
| UptimeClock.NoTornSnapshot | src/UptimeClock.cpp:38-49 | under every interleaving each pair handed back is one complete pair published earlier |
| UptimeClock.RetryMeansPublished | src/UptimeClock.cpp:36-48 | a reader copies again only if a publish completed meanwhile; a paused publish delays nobody |
| UptimeClock.ReadStepsAreRead | src/UptimeClock.cpp:38-58 | five uninterrupted reader steps answer the active slot extended to now, and change nothing else |
| UptimeClock.FirstAnswerIsZero | src/UptimeClock.cpp:22-24 | a read straight after boot answers 0 |
| UptimeClock.UndisturbedReadIsAccepted | src/UptimeClock.cpp:36-48 | under any interleaving without a completed publish, a reader's fourth step accepts its copy, the active slot of the start |
| UptimeClock.UndisturbedReadAnswers | src/UptimeClock.cpp:52-58 | and its fifth answers that slot extended to the time of the step |
| UptimeClock.MonotonicTimeIsExact | src/UptimeClock.cpp:52-81 | over every run with fresh snapshots, each published value and each answer is the true uptime at its clock read, and answers never decrease |
| UptimeClock.UptimeSecsIsExact | src/UptimeClock.cpp:60-63 | the second count is the true one if and only if it fits 32 bits, and does not decrease until then |
| UptimeClock.ServiceStepsAreService | src/UptimeClock.cpp:65-81 | the writer's seven atomic steps, uninterrupted, are one publish and touch nothing else |
| UptimeClock.Clock.ServiceMonotonic | src/UptimeClock.cpp:65-81 | leaves the active slot alone, publishes the extended uptime in the other and switches |
| UptimeClock.Clock.GetMillisMonotonic | src/UptimeClock.cpp:52-58 | extends the active slot and writes nothing |
| Airtime.LatestPeriodMeaning | src/airtime.cpp:53-61 | a ring slot stands for the one period of the last n with its residue |
| Airtime.RotationIsNewPeriod | src/airtime.cpp:112-131 | the clearing loop reaches a slot exactly when the period it stands for has changed |
| Airtime.RotateRingRefines | src/airtime.cpp:112-131 | rotating the log's ring of an earlier second gives the log's ring of a later one |
| Airtime.ShiftHistoryRefines | src/airtime.cpp:88-110 | the same for the hourly histories |
| Airtime.ChargeRefines | src/airtime.cpp:39-50 | charging the current buckets is appending to the log, for each report type |
| Airtime.WindowsRefineLog | src/airtime.cpp:33-132 | after any run of logs and syncs at non-decreasing times, each ring slot and each history slot holds the milliseconds logged in its period, modulo 2^32 |
| Airtime.SchedulerRateIndependence | src/airtime.h:68-71 | removing every intermediate sync and keeping one at the end leaves all rings and histories the same |
| Airtime.ExactRingSum | src/airtime.cpp:162-165 | adding up a ring counts each of the last n periods of the log once |
| Airtime.UtilisationSumsTheLog | src/airtime.cpp:157-181 | both utilisation sums are the log's sums over the last 6 ten-second and 60 one-minute periods, modulo 2^32 |
| Airtime.Windows.SyncNow | src/airtime.cpp:63-132 | in place, the first call zeroes and later ones rotate rings and histories, and count pending rotations |
| Airtime.SyncCountsRotations | src/airtime.cpp:90-98 | a synchronisation adds the hours crossed to the pending count, unless it cleared the whole history |
| Airtime.Windows.ClearCrossed | src/airtime.cpp:114-121 | clears exactly the crossed slots of a ring |
| Airtime.Windows.RotateHours | src/airtime.cpp:90-110 | shifts all three histories by the crossed hours, or clears them, and counts pending rotations only when shifting |
| Airtime.Windows.LogAirtime | src/airtime.cpp:33-51 | synchronises, then charges the windows of the report type |
| Airtime.Windows.ChannelUtilizationPercent | src/airtime.cpp:157-168 | synchronises, and reports the ring's sum as a share of 60 s |
| Airtime.Windows.UtilizationTXPercent | src/airtime.cpp:170-181 | synchronises, and reports the ring's sum as a share of an hour |
| Airtime.Windows.AirtimeReport | src/airtime.cpp:134-155 | refuses a null buffer or a too long report without any effect, else copies the newest hours of the requested type |
| UptimeAirtime.WindowsOnTheClock | src/airtime.cpp:65-67 | windows that take their second from the racing, wrapping clock hold the log keyed to true uptime, over every interleaving |
| Crc16.Crc16Ccitt | src/xmodem.cpp:89-103 | the loop computes the remainder of the message times x^16 on division by x^16 + x^12 + x^5 + 1 |
| Crc16.CrcIsDivision | src/xmodem.cpp:89-103 | the branch-free byte update is bitwise long division, zero initial value (ITU-T V.41, section 2) |
| Crc16.CrcLinear | src/xmodem.cpp:89-103 | the checksum of an XOR is the XOR of the checksums |
| Crc16.CheckDetectsBurst | src/xmodem.cpp:114-117 | a buffer differing only within two adjacent bytes passes if and only if it does not differ |
| Crc16.CheckDetectsLongBurst | src/xmodem.cpp:114-117 | a buffer differing only in a burst of up to 16 bits, at any bit offset over three bytes, passes if and only if it does not differ |
| Crc16.CheckDetectsTwoBits | src/xmodem.cpp:114-117 | in a buffer of up to 128 bytes, the size of a packet, any two flipped bits in different bytes are rejected |
| XModem.IsValidFilename | src/xmodem.cpp:61-80 | accepts exactly the non-empty names without drive letter and without a ".." component |
| XModemNames.UnsafeIff | src/xmodem.cpp:61-80 | in characters: unsafe are exactly the empty name, a letter and a colon in front, and two dots between slashes, backslashes or ends |
| XModemNames.NameMeaning | src/xmodem.cpp:144-145 | the name is what precedes the first NUL, at most 127 bytes |
| XModemNames.UnsafeNameRefused | src/xmodem.cpp:142-153 | an unsafe name gets an empty NAK; no transfer starts and no file is opened, created, changed or removed |
| XModemNames.OpenFailureRefused | src/xmodem.cpp:155-198 | a file that cannot be opened gets a NAK and no transfer; one to be received is gone even so |
| XModemNames.SafeNameStarts | src/xmodem.cpp:155-194 | a safe name that opens starts its transfer: an empty new file and an ACK, or the first 128 bytes as packet 1 |
| XModemNames.ClosingPackets | src/xmodem.cpp:228-247 | EOT and CAN are acknowledged and close the file in any state, and CAN removes the file named last |
| XModemNames.UnexpectedPackets | src/xmodem.cpp:220-227 | replies while not sending and data while sending get CAN; data for no transfer and other controls change nothing |
| XModemNames.UnsafeFilesOverRuns | src/xmodem.cpp:137-317 | over every sequence of packets no transfer runs and no file is open for writing under an unsafe name, and a file of one is unchanged, and removed if and only if a CAN arrives while its name is the remembered one |
| XModemNames.NewFilesAreSafe | src/xmodem.cpp:137-317 | every file that was not there at the start has a safe name |
| XModemNames.RefusedNameRemovedByCancel | src/xmodem.cpp:144-153 | a file whose name was just refused is removed by the CAN that follows |
| XModem.XModemAdapter.StartTransfer | src/xmodem.cpp:142-199 | the naming packet: rejects unsafe names, replaces the file to receive, or opens the file to send and offers chunk 1 |
| XModem.XModemAdapter.ReceiveData | src/xmodem.cpp:201-219 | stores and acknowledges the expected packet with a matching checksum, refuses any other |
| XModem.XModemAdapter.OnAck | src/xmodem.cpp:248-280 | EOT after a short chunk, else the next chunk and a full retry budget |
| XModem.XModemAdapter.OnNak | src/xmodem.cpp:281-312 | seeks back and offers the same packet number, or gives up when the budget is used |
| XModem.XModemAdapter.HandlePacket | src/xmodem.cpp:137-317 | the whole dispatch on control code and mode |
| XModemDelivery.StartSends | src/xmodem.cpp:173-194 | starting establishes the sender's invariant at chunk 1, with the end flag as it was left |
| XModemDelivery.AckAdvances | src/xmodem.cpp:248-275 | an ACK moves the invariant to the next chunk, or ends in EOT |
| XModemDelivery.NakRepeats | src/xmodem.cpp:281-307 | a NAK re-establishes the invariant at the same chunk, or ends in CAN on the last retry |
| XModemDelivery.NakSeeksRightIff | src/xmodem.cpp:297 | the seek finds the chunk again if and only if the packet number has not wrapped (or the chunk is the empty one at a multiple of 65536) |
| XModemDelivery.ReplyUsesBudget | src/xmodem.cpp:248-311 | every ACK or NAK strictly lowers (chunks left, retries), packed into one number |
| XModemDelivery.SenderStops | src/xmodem.cpp:248-312 | however the replies fall, the transfer is over, in EOT or CAN, within that many replies |
| XModemDelivery.StartReceives | src/xmodem.cpp:155-167 | starting establishes the receiver's invariant: nothing stored, waiting for chunk 1 |
| XModemDelivery.DataPacketHandled | src/xmodem.cpp:201-219 | a packet is either the awaited chunk, stored and acknowledged, or refused without effect |
| XModemDelivery.ShortWriteIsAcknowledged | src/xmodem.cpp:207-214 | the ACK comes whatever was written, and the file stays right if and only if the disk had room |
| XModemDelivery.StepKeepsInvariant | src/xmodem.cpp:137-317 | every delivery, damage and reply keeps both ends in step |
| XModemDelivery.FileDelivery | src/xmodem.cpp:137-317 | on every run the received file is a prefix of the sent one on a chunk boundary, or removed by a cancel; once EOT is handled it is the whole file, or its first chunk if the end flag was stale |
| XModemDelivery.DoomedStays | src/xmodem.cpp:201-219 | once the receiver is a chunk ahead, or the sender has had its last NAK, no legal step leads back |
| XModemDelivery.DoomedIsCancelled | src/xmodem.cpp:237-247 | and every finished run from there has ended in CAN with the file removed |
| XModemDelivery.DeliveredIff | src/xmodem.cpp:137-317 | a finished run ends in EOT with the file in place if and only if no ACK was damaged and no chunk arrived damaged as often as it had retries; else in CAN with the file removed |
| XModemDelivery.FaithfulIff | src/xmodem.cpp:173-194 | for every run that completes with EOT, the received file equals the sent one if and only if the end flag was clear at the start or the file fits one chunk |
| XModemDelivery.StaleFlagTruncates | src/xmodem.cpp:178-194 | started with a stale flag, the clean run completes with EOT after three events and exactly the first chunk |
| XModemDelivery.CancelLeavesStaleFlag | src/xmodem.cpp:220-224 | giving up on the last chunk, or a data packet then, stops with the end flag set |
| XModemDelivery.FirstNakEndsIff | src/xmodem.cpp:284-291 | the first NAK of a transfer ends it if and only if the previous transfer left at most one retry |
| XModemDelivery.GivingUpEndsTheNext | src/xmodem.cpp:284-291 | after a transfer that gave up, the next one starts and dies on its first NAK |
| XModemDelivery.RunsAreBounded | src/xmodem.cpp:248-312 | no run outlasts the measure of its start |
| XModemDelivery.CleanDelivery | src/xmodem.cpp:248-275 | over a clean channel the whole file arrives, in two steps a chunk and one for EOT |
| XModemDelivery.CleanEventsAreLegal | src/xmodem.cpp:137-317 | a clean run is one of the legal runs the other theorems speak of |
| MessagePool.StoreKeepsInv | src/MessageStore.cpp:45-64 | a store leaves the next-newest N - 2 texts untouched and placed, through the wrap |
| MessagePool.NewestTextsSurvive | src/MessageStore.cpp:45-72 | for texts of any lengths the newest N - 1 lie in disjoint stretches, every byte intact, and read back capped at 219 bytes |
| MessagePool.ClearIff | src/MessageStore.cpp:54-62 | a text of any age is never written over if and only if no text of a later lap ends beyond its start |
| MessagePool.ClearIsIntact | src/MessageStore.cpp:59-62 | and then all its bytes are intact |
| MessagePool.NextStoreClearIff | src/MessageStore.cpp:54-62 | in any lap, the store that makes a text the N-th newest misses it if and only if it is in the same lap or ends before it |
| MessagePool.NthNewestSurvivesIff | src/MessageStore.cpp:45-64 | over every run of stores the N-th newest text survives if and only if the pool is still in its lap or its write position has not passed it |
| MessagePool.FirstNDisjointIff | src/MessageStore.cpp:54-57 | the first N texts of a reset pool lie in disjoint stretches if and only if one is shorter than 219 bytes |
| MessagePool.NthNewestIsLost | src/MessageStore.cpp:54-57 | and if none is, the oldest reads back as the newest |
| MessagePool.OffsetIsExact | src/MessageStore.cpp:59-63 | the 16-bit offset is the place if and only if the place is below 65536, and in a pool of up to 65536 bytes it is |
| MessageStore.RunIsBacked | src/MessageStore.cpp:209-252 | over every run of additions, foreign texts and erasures, each live message stays matched to the text it was created with |
| MessageStore.MessageDescribes | src/MessageStore.cpp:216-243 | the stored message's sender, destination, channel, time, kind, acknowledgement and signature, from the packet's, field by field |
| MessageStore.KeptOutIff | src/MessageStore.cpp:178-192 | a packet is kept out if and only if its other party is an ignored node |
| MessageStore.StoredIsVisible | src/MessageStore.cpp:194-206 | a stored message is visible if and only if its packet would be stored |
| MessageStore.PeerOfPacket | src/MessageStore.cpp:500-505 | a message counts as exchanged with a node if and only if it is direct and the node is its packet's other party |
| MessageStore.EraseFirstMeaning | src/MessageStore.cpp:417-426 | the oldest match is gone and everything else is in place, or there was none |
| MessageStore.EraseAllMeaning | src/MessageStore.cpp:428-437 | exactly the messages that match are gone |
| MessageStore.LiveTextsSurvive | src/MessageStore.cpp:209-252 | over every run, each live message points at the text it was created with, which reads back while never written over: always among the newest N - 1, for the N-th newest and for older ones under their exact conditions |
| MessageStore.AdditionsKeepNewest | src/MessageStore.cpp:99-111 | with additions only, the live messages are those of the newest min(N, count) texts in order |
| MessageFile.HeaderRoundTrip | src/MessageStore.cpp:271-314 | a record decodes to the same metadata and text, wherever the text is put |
| MessageFile.RecordLayout | src/MessageStore.cpp:257-289 | each field at its byte offset in the packed 239-byte record, little-endian, the text cut at 219 bytes and filled up with zeros |
| MessageFile.PruneLetters | src/MessageStore.cpp:439-444 | pruning keeps exactly the visible messages, in order, with their texts |
| MessageFile.SaveThenLoad | src/MessageStore.cpp:316-382 | for every queue of up to N messages, saving and loading gives back the visible ones, same order, metadata and texts, if and only if the queue is not full, some text is short, or the oldest message is hidden or has the newest one's text |
| MessageFile.SaveThenLoadLosesNth | src/MessageStore.cpp:316-382 | a full queue of full texts comes back with the newest text in the oldest message, which is otherwise the same |
| MessageFile.RunTextsOk | src/MessageStore.cpp:223-228 | in every store a run reaches with its live texts not written over, lengths match texts and the texts are the packets' |
| MessageFile.PacketsSaveAndLoad | src/MessageStore.cpp:209-382 | from packets through erasures, save and load: while no live text has been written over, the visible messages come back with the texts they were created with, under the exact condition of `SaveThenLoad` |
| MessageStoreCode.MessageStore.ResetMessagePool | src/MessageStore.cpp:28-41 | allocates once, clears always, and changes nothing when the allocation fails |
| MessageStoreCode.MessageStore.StoreTextInPool | src/MessageStore.cpp:45-64 | writes the capped text and its terminator in place and hands out the offset; 0 without a pool |
| MessageStoreCode.MessageStore.GetText | src/MessageStore.cpp:67-72 | the C string at the offset, empty without a pool or outside it |
| MessageStoreCode.MessageStore.TryAddFromPacket | src/MessageStore.cpp:209-252 | drops packets of ignored nodes without effect, else stores the text up to its first NUL and queues a message that says of the packet what `MessageDescribes` spells out |
| MessageStoreCode.MessageStore.EraseFirstMatch | src/MessageStore.cpp:417-426 | removes the oldest match only, and says whether there was one |
| MessageStoreCode.MessageStore.EraseAllMatches | src/MessageStore.cpp:428-437 | removes every match and keeps the order of the rest |
| MessageStoreCode.MessageStore.PruneHiddenMessages | src/MessageStore.cpp:439-444 | keeps exactly the visible messages and reports whether any went |
| MessageStoreCode.MessageStore.SaveToFlash | src/MessageStore.cpp:316-338 | the bytes of the save file: the count and the records in queue order |
| MessageStoreCode.MessageStore.LoadFromFlash | src/MessageStore.cpp:345-382 | replaces the queue by the file's readable, visible messages, and rewrites the file if any was hidden |
| MessageStoreCode.MessageStore.DeleteOldestMessage | src/MessageStore.cpp:447-453 | drops the front of the queue, if any, and saves |
| MessageStoreCode.MessageStore.DeleteAllMessagesInChannel | src/MessageStore.cpp:463-468 | removes the channel's broadcasts and saves |
| MessageStoreCode.MessageStore.DeleteOldestMessageWithPeer | src/MessageStore.cpp:498-508 | removes the oldest direct message that we sent to the peer or the peer sent, and nothing else, and saves |
| Utf8.AcceptedIsGrammar | src/meshUtils.cpp:186-211 | the continuation, overlong, range and surrogate tests accept exactly the characters of section 4 of RFC 3629 |
| Utf8.SanitizedIsWellFormed | src/meshUtils.cpp:149-221 | the repaired string is well formed for every input |
| Utf8.UnchangedIffWellFormed | src/meshUtils.cpp:149-221 | a string is left alone if and only if it is well formed |
| Utf8.SanitizedIsIdempotent | src/meshUtils.cpp:149-221 | repairing twice is repairing once |
| Utf8.SanitizedBytewise | src/meshUtils.cpp:149-221 | each byte is kept or becomes '?' in its place |
| Utf8.SanitizedBufferMeaning | src/meshUtils.cpp:137-224 | the buffer ends up terminated, well formed and of unchanged string length, and repairing it again changes nothing |
| Utf8.BufferKeptIff | src/meshUtils.cpp:142-144 | a buffer is untouched if and only if it was terminated and well formed |
| Utf8.SanitizeUtf8 | src/meshUtils.cpp:137-224 | rewrites the buffer in place, leaves what lies past it, and returns true if and only if a byte changed; a null or empty buffer is refused |
| Utf8.ScanStep | src/meshUtils.cpp:149-221 | each turn of the scan finishes some bytes, and repairing the rest completes the repair of the whole |
| Utf8.ValidSequence | src/meshUtils.cpp:186-211 | true if and only if a character of the announced length starts here |
| Utf8.ClampLongName | src/meshUtils.cpp:226-230 | cuts at byte 24 and repairs those 25 bytes, nothing else |
| Utf8.ClampKeepsWholeChars | src/meshUtils.cpp:226-230 | a well-formed string cut anywhere keeps every character fully inside the cut; only the straddling one becomes '?' |
| Utf8.ClampedName | src/meshUtils.cpp:226-230 | a well-formed name of up to 24 bytes is kept, a longer one keeps its whole characters below byte 24 |
| GpioLogic.ConsistentIsEvaluated | src/GpioLogic.cpp:39-100 | a network whose driven pins agree with their transformers shows its evaluation from scratch on every pin |
| GpioLogic.ComputedObeys | src/GpioLogic.cpp:39-100 | what a transformer computes, in levels: repeat, reverse, both, one or exactly one of two set inputs, the set one of two |
| GpioLogic.LatestSetShows | src/GpioLogic.cpp:4-11 | an undriven pin's level is that of its latest set |
| GpioLogic.NeverSetIsUnset | src/GpioLogic.h:48-55 | and a pin never set is unset |
| GpioLogic.WriteKeepsRest | src/GpioLogic.cpp:4-11 | writing a right level leaves only the dependent's outputs to be brought up to date |
| GpioLogic.Network.SetPin | src/GpioLogic.cpp:4-17 | sets the pin, stops on an unchanged value, otherwise restores consistency downstream and touches nothing at or below its rank; the cascade terminates |
| GpioLogic.Network.Update | src/GpioLogic.cpp:39-100 | leaves every output at the level its kind of transformer promises of its inputs' levels; does nothing for an unset unary input |
| GpioLogic.Network.SetOutput | src/GpioLogic.h:145-160 | sets a pin, or both outputs of a splitter in turn, with the first one's cascade done before the second |
| GpioLogic.Propagate | src/GpioLogic.cpp:4-100 | wire any acyclic single-driver network, set undriven pins in any order: every pin shows the evaluation from scratch of the current levels, and every pin a transformer writes to, through splitters too, the level its kind promises |
| NotifiedWorker.NoLostWakeup | src/concurrency/NotifiedWorkerThread.cpp:25-94 | wherever interrupts fall, a pending notification leaves the thread enabled outside these methods, each write is delivered at most once, and every non-zero write is delivered, pending or overwritten |
| NotifiedWorker.AcceptedNotificationLost | src/concurrency/NotifiedWorkerThread.cpp:25-44 | a run in which an interrupt accepted between a main-thread notify's test and its write is overwritten although both asked not to |
| NotifiedWorker.LostIffRaced | src/concurrency/NotifiedWorkerThread.cpp:25-44 | over every run in which nobody asks to overwrite, a notification is lost if and only if an interrupt's non-zero one was accepted in that window |
| NotifiedWorker.UnracedLoseNothing | src/concurrency/NotifiedWorkerThread.cpp:25-94 | without such a race every non-zero notification written is delivered, in order, or pending |
| NotifiedWorker.NotifyUninterrupted | src/concurrency/NotifiedWorkerThread.cpp:13-44 | left alone, the main thread's statements do what an interrupt's notification does at once |
| NotifiedWorker.RunOnceUninterrupted | src/concurrency/NotifiedWorkerThread.cpp:77-94 | left alone, runOnce delivers the pending notification, if any, and disables the thread |
| NotifiedWorker.NotifiedWorkerThread.NotifyCommon | src/concurrency/NotifiedWorkerThread.cpp:25-44 | accepts when asked to overwrite or when nothing is pending, else changes nothing |
| NotifiedWorker.NotifiedWorkerThread.RunOnce | src/concurrency/NotifiedWorkerThread.cpp:88-94 | hands over what was pending, clears it and disables the thread |
| SafeFile.HashDetectsOneByte | src/SafeFile.cpp:93-103 | files differing in at most one byte have equal hashes if and only if they are equal |
| SafeFile.ChangesPassIff | src/SafeFile.cpp:93-103 | a changed file of the same length passes if and only if the hash of its changes is 0 |
| SafeFile.TwoChangesCancelIff | src/SafeFile.cpp:93-103 | in a file of any length two changed bytes go unnoticed if and only if they changed by the same mask |
| SafeFile.LostEndPassesIff | src/SafeFile.cpp:93-103 | a file that lost its end passes if and only if the lost bytes have hash 0 |
| SafeFile.LostZerosPass | src/SafeFile.cpp:93-103 | so a lost end of zeros is never noticed |
| SafeFile.CrashSafe | src/SafeFile.cpp:6-24 | at every crash point the target holds its complete old content (without fullAtomic: nothing, once the session began), and at the end of a session with a matching readback the complete new one |
| SafeFile.LeftoverPassesIff | src/SafeFile.cpp:17-23 | bytes left over in front of the new ones pass the readback if and only if their own hash is 0 |
| SafeFile.SafeFile.constructor | src/SafeFile.cpp:6-29 | its actions on the disk: drop the target unless fully atomic, then create the temporary file |
| SafeFile.SafeFile.WriteByte | src/SafeFile.cpp:31-38 | one byte hashed, and appended if the medium keeps it; nothing on a file that is not open |
| SafeFile.SafeFile.Write | src/SafeFile.cpp:40-50 | appends what the medium keeps, changed or cut short, byte by byte, and hashes what was asked for; returns the bytes kept; nothing on a file that is not open |
| SafeFile.SafeFile.TestReadback | src/SafeFile.cpp:81-106 | true if and only if the temporary file exists and its hash matches |
| SafeFile.SafeFile.Close | src/SafeFile.cpp:57-78 | renames over the target if and only if open, matching and renamable; false whenever nothing is missing and exactly one stored byte differs |
| SafeFile.ReplaceFile | src/SafeFile.cpp:26-78 | open, write and close, with any of them failing, perform a prefix of the session's atomic actions, all of them exactly on success, so every disk state on the way is a crash point of `CrashSafe` |
| Uf2.DecodeIff | bin/uf2conv.py:59-93 | any file decodes if and only if every whole block has the magic numbers, the unflagged ones hold at most 476 bytes, and these ascend in whole words with gaps of at most 10 MiB |
| Uf2.FlatMeaning | bin/uf2conv.py:77-92 | the output of a file that decodes reaches from the first piece to the end of the last, holds every piece at its address, and is zero elsewhere |
| Uf2.BadMagicFails | bin/uf2conv.py:67-69 | a whole block without the magic numbers makes the conversion fail wherever it is, with just that error if the blocks before it decode |
| Uf2.ConvertFromUf2 | bin/uf2conv.py:59-93 | the decoding loop succeeds on exactly those files, with the flat image and the first address |
| Uf2.ConvertBlock | bin/uf2conv.py:64-92 | a block is accepted if and only if it is readable and, unless flagged or first, follows the address reached; a flagged one changes nothing, any other appends its gap of zeros and its data |
| Uf2.DecodePages | bin/uf2conv.py:59-93 | decoding pages made into UF2 succeeds if and only if they ascend with bounded word gaps, and then gives their flat layout and the first address |
| Uf2.ConvertToUf2 | bin/uf2conv.py:106-135 | succeeds if and only if every address and the count fit 32 bits, and encodes the binary's zero-filled pages in order |
| Uf2.BlockLayout | bin/uf2conv.py:117-133 | a block's 512 bytes: both magic numbers, the flag for a family, the page and zeros up to the end magic, and the fields between, at their offsets |
| Uf2.BlocksAreNumbered | bin/uf2conv.py:111-134 | block i carries page i, its address, i, the number of blocks and the family |
| Uf2.BinaryRoundTrip | bin/uf2conv.py:106-135 | binary to UF2 and back gives the binary filled up with zeros to whole pages, and its base address |
| Uf2.PagesFromHex | bin/uf2conv.py:166-198 | the record loop places exactly the bytes the records mean, in pages by first use; fails if and only if a record breaks the script's indexing or assertion |
| Uf2.ConvertFromHexToUf2 | bin/uf2conv.py:166-204 | encodes those pages; also fails if an address or the count does not fit 32 bits |
| Uf2.PutAllIsImage | bin/uf2conv.py:190-198 | pages in order lie flat as the image of all writes: the last byte written at each address, zero elsewhere |
| Uf2.HexRoundTrip | bin/uf2conv.py:59-204 | HEX to UF2 to binary succeeds if and only if each move to another page goes forward with a bounded gap (a page entered again is a new page, and fails), and then gives the flat zero-filled image of the data records |
| HexFile.WrittenIsMeant | bin/uf2conv.py:170-198 | any groups of data written as Intel HEX, with linear or segment addresses, are accepted if and only if every segment base is a multiple of 65536, and then mean exactly byte i of each group at i past its start; what follows the end record is ignored |
| HexFile.RefusedIff | bin/uf2conv.py:180-185 | a record is refused if and only if it is too short for its type or address, or a segment base is no multiple of 65536 |
| HexFile.OtherTypesIgnored | bin/uf2conv.py:180-188 | records of any other type change nothing |
| HexFile.HexImageComesBack | bin/uf2conv.py:59-204 | an image at any 32-bit address inside its 64 KiB, written as HEX, made into UF2 and decoded, is back byte for byte with zeros around it, and its page address |
| GpsScheduling.GpsHardsleepThresholdMs | src/gps/GPSUpdateScheduling.cpp:17-29 | finds the segment and interpolates on it, with every index in range and every word wide enough |
| GpsScheduling.SegmentBounds | src/gps/GPSUpdateScheduling.cpp:26-28 | a segment stays between its end points and reaches both |
| GpsScheduling.ThresholdMonotone | src/gps/GPSUpdateScheduling.cpp:9-29 | the threshold never decreases, over all 32-bit inputs |
| GpsScheduling.ThresholdHitsCurve | src/gps/GPSUpdateScheduling.cpp:9-29 | at each sampled point the threshold is the sampled value |
| GpsScheduling.WaitIsExactIff | src/gps/GPSUpdateScheduling.cpp:97-106 | the wait is max(0, true remaining time) if and only if the true difference is below 2^31 and, if below -2^31, wraps to nothing positive |
| GpsScheduling.WaitAfterRun | src/gps/GPSUpdateScheduling.cpp:76-107 | after any run of events the computed wait is the true one, in time that never wraps, under the same exact condition |
| GpsScheduling.PredictionStaysBetween | src/gps/GPSUpdateScheduling.cpp:156-178 | over every run of events the prediction lies between the least and greatest lock time from the second one after a reset on, through counter wraps |
| GpsScheduling.NextConsistent | src/gps/GPSUpdateScheduling.cpp:32-72 | start, lock, failure and reset each keep the stamps, the count and the prediction's bounds |
| GpsScheduling.EventMeaning | src/gps/GPSUpdateScheduling.cpp:32-72 | what start, lock, failure and reset do to each field, in true time: the first lock time is disregarded, the second predicts, each later one moves the prediction a fifth of the way |
| GpsScheduling.Smoothed | src/gps/GPSUpdateScheduling.cpp:172-173 | one fifth of the new lock time and four fifths of the prediction, rounded down |
| GpsScheduling.Interval | src/gps/GPSUpdateScheduling.cpp:86-95 | the update interval; after a failure at least the broadcast interval or one hour, and no more than needed |
| GpsScheduling.GPSUpdateScheduling.InformSearching | src/gps/GPSUpdateScheduling.cpp:32-36 | starts a search and stamps its start, nothing else |
| GpsScheduling.GPSUpdateScheduling.InformGotLock | src/gps/GPSUpdateScheduling.cpp:40-47 | ends the search, updates the prediction with the new end, and forgets failures |
| GpsScheduling.GPSUpdateScheduling.InformSearchFailed | src/gps/GPSUpdateScheduling.cpp:53-60 | ends the search and counts a failure, leaving the prediction alone |
| GpsScheduling.GPSUpdateScheduling.UpdateLockTimePrediction | src/gps/GPSUpdateScheduling.cpp:156-178 | ignores the first lock time, takes the second, smooths from the third on |
| GpsScheduling.GPSUpdateScheduling.MsUntilNextSearch | src/gps/GPSUpdateScheduling.cpp:76-107 | the wait with the failure back-off, in wrapping words |
| GpsScheduling.GPSUpdateScheduling.ElapsedSearchMs | src/gps/GPSUpdateScheduling.cpp:111-119 | zero unless searching, else the true time since the start for any search under 2^32 ms, across wraps |
| LocationCode.NormalizeLongitude | src/gps/GeoCoord.cpp:338-341 | the loops terminate, in [-180, 180), at the longitude reduced by whole turns |
| LocationCode.NormalLongitudeIsUnique | src/gps/GeoCoord.cpp:338-341 | there is only one such longitude |
| LocationCode.WriteDigits | src/gps/GeoCoord.cpp:346-374 | the ten digits around the separator decode to lat_val / 3125 and lng_val / 1024, whatever the grid loop wrote before |
| LocationCode.CellMeaning | src/gps/GeoCoord.cpp:326-345 | the cell in plain degrees: 8000 to a degree, the last row at and beyond the north pole, the first beyond the south pole, whole turns of longitude making no difference |
| LocationCode.PublishedCode1 | src/gps/GeoCoord.cpp:320-390 | 7FG49QCJ+2V is the code of 20.3700625, 2.7821875 |
| LocationCode.PublishedCode2 | src/gps/GeoCoord.cpp:320-390 | 4VCPPQGP+Q9 is the code of -41.2730625, 174.7859375 |
| LocationCode.PublishedCode3 | src/gps/GeoCoord.cpp:320-390 | 8FVC2222+22 is the code of 47.0000625, 8.0000625 |
| LocationCode.LatLongToOLC | src/gps/GeoCoord.cpp:320-390 | the code names the 1/8000-degree cell holding the clamped latitude and the normalised longitude, and is terminated |
| LocationCode.SameCodeIffSameCell | src/gps/GeoCoord.cpp:364-374 | two positions get the same code if and only if they lie in the same cell |

## Left out

Weaker than the code, by member:

- UptimeClock.NoTornSnapshot: assumes the 32-bit generation does not come full circle while one reader copies, and steps are sequentially consistent; weak-memory reordering is not modelled.
- UptimeClock.Clock.GetMillisMonotonic: the read without interference; the retry loop is part of the step machine.
- UptimeClock.MonotonicTimeIsExact: assumes every snapshot used is under 2^32 ms old, which is the caller's contract.
- Airtime.WindowsRefineLog: sums are exact modulo 2^32, as the unsigned buckets are; an exact count needs a window of less than 2^32 ms.
- Airtime.Windows.ChannelUtilizationPercent: percentages are exact reals, not floats.
- Airtime.Windows.UtilizationTXPercent: percentages are exact reals, not floats.
- XModemDelivery.FileDelivery: files below 65535 chunks (`NakSeeksRightIff` says what happens beyond), writes that have room (`ShortWriteIsAcknowledged`), damage that the receiver's check catches, and a channel that may turn an ACK into a NAK but drops no packet or reply entirely; the run ends when the receiver has handled EOT or CAN.
- XModemDelivery.RunsAreBounded: counts events, not time; timeouts belong to the peer.
- XModem.XModemAdapter.HandlePacket: a seek before the start of the file (packet number 0 after a wrap) is modelled as a seek that fails; file handles are values, and removing an open file's name is not visible through the handle.
- MessageStore.LiveTextsSurvive: pools of up to 65536 bytes, the range of the stored offsets.
- MessageStore.RunIsBacked: pools of up to 65536 bytes, the range of the stored offsets.
- MessageFile.SaveThenLoad: fewer than 256 messages, the range of the count byte, and stored lengths that match their texts, which `RunTextsOk` derives for reachable stores.
- NotifiedWorker.NoLostWakeup: an interrupt's notification is atomic with respect to the main thread, and nobody else disables the thread; delays only move the thread's next run and are not modelled.
- SafeFile.CrashSafe: the medium keeps bytes one at a time, on platforms whose open-for-write truncates; `LeftoverPassesIff` covers what appending ones do to the readback.
- GpioLogic.Network.SetPin: a pin that a transformer drives is only set to the level it computes; setting one from outside, which the code does not prevent, is not modelled.
- GpioLogic.Propagate: pins are numbered instead of referenced, and a hardware pin is the last level written to it; all transformers are wired before the first set.
- GpsScheduling.GPSUpdateScheduling.UpdateLockTimePrediction: smooths in exact arithmetic, not floats.
- GpsScheduling.PredictionStaysBetween: the weight is exactly one fifth, the code's is the nearest float; searches that end in a lock take less than 2^31 ms.
- LocationCode.LatLongToOLC: degrees are exact reals, not doubles, and not NaN or infinite.
- Uf2.PagesFromHex: starts from the records' bytes; splitting the text into lines and hex digits is not modelled, nor is the returned start address.

Not modelled:

- `getSilentMinutes` (src/airtime.cpp:183-195), which its header lists as a known defect.
- Locks, logging, observers' callbacks and memory audits everywhere.
- Autosave timing, timestamp upgrades, clearing, and the filtered views and remaining deletions of the message store, which are more of the same erasures.
- Which nodes are ignored and what time it is: parameters of the message store.
- The C array output, drive detection and command line of the UF2 script.
- `searchedTooLong` and the configuration defaults of the GPS scheduler: intervals are parameters.
- UTM, MGRS, OSGR, distance and bearing: floating-point geodesy.
- The power state machine, radio, phone and protobuf code, board support, and build scripts.
