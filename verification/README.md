# A model of the firmware updater and of the HID device store

The program drives a Bluetooth HID device from a phone. This project models the parts of its native code that
carry an algorithm or a protocol, and proves what they achieve:

- **The firmware transfer** (`ota_update` and `hidRead` in `jni/hidserv.c`). A sender walks a firmware image record
  by record, frames each record, writes it at most three times and polls a one-place mailbox. A reader, in a second
  thread, classifies the device's responses and overwrites the mailbox. `OtaProtocol` is a step relation over the
  sender's program point, the reader's program point and everything the two share; a run is any schedule of the two
  threads with any outcome of every system call and any responses. `OtaSession` is the same transfer as a class whose
  methods update its fields and arrays, with the sender's nested loops; every method is proved against the step it
  makes, so whatever is proved of all runs is proved of that program.
- **The checksums** (`make_crc_table`, `crc32`, `crc16_ccitt` in the same file), against the bit-serial register of
  section 8 of RFC 1952 and the register of the CCITT polynomial.
- **The device store** (`epox_endian_quirk`, `store_device_info`, `get_stored_device_info` in `jni/sdp.c`): an in-place
  repair of report descriptors, a formatted print and the formatted scan that reads it back.

| file | contents |
|---|---|
| `OtaWire` | constants, responses and their classification, records, frames, well-formed images |
| `OtaProgress` | the percentage counter, with 32-bit wrap-around and truncating division |
| `OtaProtocol` | the state machine: states, steps, schedules |
| `OtaInvariant` | what every step keeps; integrity of the transfer, accounting, progress |
| `OtaJustified` | why the sender goes on, why it stops in success, delivery |
| `OtaRuns` | runs built step by step; every image can be transferred |
| `OtaReceiver` | a receiver that drops repeated frames by their bytes |
| `OtaStale` | what a late START success does: the premises about it are needed |
| `OtaTermination` | every run ends; exactly when it ends inside the image; the reader stops too |
| `OtaReaderLoss` | the rest of a run without a reader, forecast exactly; runs that never had one |
| `OtaLate` | a run to the state from which four more writes follow |
| `OtaLongest` | what the sender does while nothing answers; the longest run |
| `OtaSplit` | check and store apart: exactly when a stale verdict can mislead the sender |
| `OtaLockStep` | check and store apart, one answer per frame: the token, justified advance |
| `OtaLockRun` | runs in lock step, for every image; what one time-out does |
| `OtaDuplicate` | check and store apart, two answers to a frame: the verdict reaches the wrong record |
| `OtaSession` | the transfer as an imperative program |
| `Registers` | shift registers over any word: linearity, bursts, lookup by table |
| `Crc32`, `Crc16`, `Crc16Table` | the two checksums |
| `Crc32Arithmetic` | CRC-32 when the right shift carries the sign |
| `Crc32Residue` | messages that carry their own checksum; what the start value amounts to |
| `CText` | the fragment of formatted printing and scanning the store uses |
| `CGrammar` | the texts each directive of a scan consumes, as a grammar; the scanner reads exactly that |
| `EpoxQuirk`, `DeviceStore`, `Bytes` | the repair, the store, shared types |
| `DeviceLine` | what any line gives back; flags and name when the descriptor does not come back |

## What the proofs found

- `make_crc_table` shifts a signed `int` to the right. With an arithmetic shift exactly entries 0 and 128 of the 256
  are right (`Crc32Arithmetic.ArithmeticEntryRight`), and the checksum loses its guarantee for four-byte errors: differences
  by `C3 0A 93 6D`, `45 1F B5 B6` or `86 15 26 DB` go unseen, and no others
  (`Crc32Arithmetic.UnseenDifferences`). The theorems about RFC 1952 and 32-bit bursts are for the logical shift; linearity
  holds for both.
- `epox_endian_quirk` stops one position short: an occurrence that ends the descriptor stays
  (`EpoxQuirk.CompleteUnlessLast`). Its loop bound is unsigned, so that a descriptor of fewer than twelve bytes takes the loop
  out of the array (`EpoxQuirk.EpoxEndianQuirk`).
- A record without a descriptor does not survive the store: the scan takes the digits of the flags for the descriptor
  (`DeviceStore.EmptyDescriptorLost`), and what the name starts with for the flags: a "Bluetooth Mouse" comes back as
  "luetooth Mouse" (`DeviceLine.BluetoothMouse`). A descriptor of more than 2047 bytes spoils flags and name as well
  (`DeviceLine.LongDescriptorRead`). Reading back is exact if and only if the descriptor has 1 to 2047 bytes and the name
  does not start with white space (`DeviceStore.RoundTrip`).
- A success for START counts for whatever record is outstanding (`OtaStale.StaleStartSkips`); while FINISH is outstanding it
  sends the sender past the end of the image (`OtaStale.StaleStartOverruns`), as does a success for DATA with sequence number
  zero. With check and store in one step nothing else does (`OtaTermination.Termination`).
- The comment at `jni/hidserv.c:914` says that a retry follows fifteen seconds without a response. The 750th poll retries
  without looking at the mailbox, so what is pending then is lost (`OtaReaderLoss.LossFails`).
- Once the reader is gone the sender makes at most three further writes, except from one point: before a write with an
  advance already pending it makes four (`OtaReaderLoss.ReaderLoss`), and it can come to that point on every record but the
  last (`OtaLate.FourWrites`).
- With the reader's check and store apart, what decides is the moment the mailbox is armed: the sender can act on a record
  against what it last heard if and only if the reader then holds a verdict that the record does not call for
  (`OtaSplit.MisledIff`). A duplicate answer is enough for that (`OtaDuplicate.DuplicateSkips`), and so is one time-out though
  every frame is answered once (`OtaLockRun.TimeoutSkips`); one answer per frame without a time-out rules it out
  (`OtaLockStep.LockStepAdvance`).
- A success for FINISH carries no sequence number and ends the transfer on any record (`OtaStale.EarlyFinishSucceeds`). Success
  means arrival when nothing completes before FINISH is outstanding (`OtaJustified.Arrival`).
- A run takes at most 8997 steps of the sender for each record and seven more, and some run of every image takes them all
  (`OtaTermination.Terminates`, `OtaLongest.LongestRun`). When the reader's thread cannot be created the transfer goes on
  without it, writes the first record three times and fails (`OtaReaderLoss.NeverCreated`).
- The percentage needs no bound on the number of records: within the 524288 bytes of the image buffer the counter has
  reached its ceiling before the 32-bit product can overflow (`OtaProgress.PercentFollows`).

## Reading the model

Plain `char` is unsigned, as on the phone's processor. A system call is a step whose outcome the schedule decides:
opening the image, creating the thread, `write` (which may fail, or succeed without the device getting the frame) and
`read` (which may fail or return any bytes). In the base model the reader's check of a response and its store to the
mailbox are one step (`split == false`); with `split == true` they are two. In `State`, `frames`, `sends`, `heard` and
`delivered` are history: the frames handed to `hidWrite`, how many of them for each record loaded, the responses taken to
the mailbox since the sender last wrote `STAGE_RETRYING`, and the frames the device got.

## Model

| member | source | states |
|---|---|---|
| OtaInvariant.RunKeeps | jni/hidserv.c:823-924 | the sender's invariant holds after every schedule of both threads, split or not: place in the image, buffer, sequence number, counters and frames are what the loaded records make them |
| OtaInvariant.TransferIntegrity | jni/hidserv.c:823-899 | in every run the frames written are record 0 repeated n0 times, record 1 repeated n1 times and so on, each 0x52 and the record, each 1 to 3 times; only the record loaded last may be unsent |
| OtaInvariant.ReceivedPrefix | jni/hidserv.c:841-894 | in every run, for every well-formed image, one frame for each record sent, report types dropped, is the image up to a record boundary |
| OtaReceiver.DropIff | jni/hidserv.c:879-894 | a receiver that knows a retransmission only by its bytes, and drops a frame equal to the one before, is left with such a prefix in every run if and only if no record equals the next |
| OtaInvariant.SendAccounting | jni/hidserv.c:834-894 | at every send the index is the sum of earlier lengths, the remainder is what the DATA records leave and is not negative, the sequence number is that of a DATA record and zero for any other, and the two bytes behind the record are its byte sum modulo 65536 and are not sent |
| OtaInvariant.ProgressReported | jni/hidserv.c:854-866 | at every point of every run the reported percentage is the closed form of the DATA records loaded, from 0 to 100 |
| OtaInvariant.RecordAtOffset | jni/hidserv.c:834-846 | the length field at the running index cuts out exactly the next record of a well-formed image, and nothing behind the last one |
| OtaProgress.PercentFollows | jni/hidserv.c:860-864 | min(100, n, 64900(n-1)/len + 1) is what the counter shows after n DATA records, product wrapped to 32 bits, for any image the buffer holds |
| OtaProgress.PercentSteady | jni/hidserv.c:860-864 | the percentage never falls, rises by at most one per record and stays within 0 to 100 |
| OtaProgress.CeilingBeforeOverflow | jni/hidserv.c:860-864 | from the first record whose product leaves 32 bits on, the percentage is 100 already |
| OtaWire.ClassifyMeans | jni/hidserv.c:635-684 | a response advances, completes, asks for a retry or is not recognised, by report id, command, status and sequence number |
| OtaWire.ClassifyByBytes | jni/hidserv.c:617-684 | the same by the bytes read: report id 2 in byte 1, command in byte 3, sequence number in bytes 4 and 5, status in byte 6, zero where the read did not reach |
| OtaWire.ImageIff | jni/hidserv.c:834-861 | the images the theorems are about, by their bytes: at most 524288 of them, records of 7 to 1021 bytes with their length in bytes 1 and 2 and their command in byte 4, FINISH last and only there |
| OtaProtocol.MailboxMeans | jni/hidserv.c:635-684 | the mailbox as last recognised response: it says go on exactly when that response advances, complete exactly when it completes |
| OtaJustified.AdvanceIff | jni/hidserv.c:902-909 | the look at the mailbox sends the sender on if and only if the last recognised response since it was armed is a success for START, or for DATA with the current sequence number |
| OtaJustified.PollDecides | jni/hidserv.c:902-921 | one undisturbed poll: retry at the deadline without looking; otherwise go on, succeed, resend or poll on, as the last recognised response says |
| OtaJustified.JustifiedAdvance | jni/hidserv.c:635-684 | justified advance: in every interleaving every record was left on a report-id-2 success for START or for DATA with that record's sequence number, heard since its last STAGE_RETRYING; or else, only with check and store apart, the reader held a stale advance when the mailbox was first armed for that record |
| OtaJustified.SplitTells | jni/hidserv.c:656-659 | with check and store apart, the mailbox shows the verdict on the last recognised response in every run in which a verdict held at the first arming for a record agrees with that record |
| OtaSplit.MisledIff | jni/hidserv.c:656-659 | the exact condition with check and store apart: from any arming with a send left, the sender can go on, retry or succeed on that record against what it last heard if and only if the reader then holds such a stale verdict |
| OtaSplit.NeverMisled | jni/hidserv.c:656-659 | with check and store in one step no look at the mailbox goes against what was last heard |
| OtaJustified.SuccessProvenance | jni/hidserv.c:635-684 | success is entered only when a FINISH success, or "no need to update" for START, FINISH or the current DATA record, is the last recognised response since the last STAGE_RETRYING; or else, only with check and store apart, the reader held a stale completion when the mailbox was first armed for that record |
| OtaJustified.DeliveredOrStale | jni/hidserv.c:635-671 | with an honest device and distinct sequence numbers, a DATA record passed over was received, or it was left on a START success, or, only with check and store apart, a stale advance was held when the mailbox was first armed for it |
| OtaJustified.Delivery | jni/hidserv.c:650-671 | with an honest device, distinct sequence numbers, no START success while a DATA send is outstanding and, with check and store apart, nothing stale held, every DATA record passed over was received |
| OtaJustified.Arrival | jni/hidserv.c:673-683 | if moreover nothing completes before FINISH is outstanding, a transfer that ends in SUCCESS has sent every record and the device received every DATA record |
| OtaRuns.TransferPossible | jni/hidserv.c:749-946 | for every well-formed image some run meets every premise about responses and ends in success, each record sent once and received |
| OtaStale.StaleStartSkips | jni/hidserv.c:638-648 | for every image, every record j of it and every START success: after an honest run in which each earlier record was received and answered, hearing it during the send of record j takes the sender off record j; the device has got exactly the earlier records |
| OtaStale.StaleStartOverruns | jni/hidserv.c:638-648 | for every image there is an honest run, everything received, in which one START success during the send of FINISH takes the sender past the end of the image |
| OtaStale.EarlyFinishSucceeds | jni/hidserv.c:673-676 | for every image, every record j of it and every FINISH success there is a run meeting every premise of delivery that ends in SUCCESS on record j; the device has got exactly the earlier records |
| OtaTermination.Terminates | jni/hidserv.c:879-924 | every run is over after 8997 sender steps for each record and seven more |
| OtaTermination.StepRank | jni/hidserv.c:825-924 | the measure of records left, sends left and polls left falls with every sender step and never with a reader step |
| OtaTermination.EndsIff | jni/hidserv.c:902-909 | in either reader model a run ends in FAIL or SUCCESS exactly when no look at the mailbox takes the sender off FINISH; otherwise it loads from beyond the image |
| OtaTermination.Termination | jni/hidserv.c:879-946 | when nothing heard while a FINISH send is outstanding advances and, with check and store apart, nothing stale is held, every run reaches FAIL or SUCCESS |
| OtaTermination.ReaderStops | jni/hidserv.c:606-699 | once the sender is done the reader stops within four steps of its own and takes at most one more response to the mailbox |
| OtaLongest.LongestRun | jni/hidserv.c:879-924 | and no fewer would do: for every image some run is not over one step before |
| OtaLongest.Waits | jni/hidserv.c:902-921 | while nothing is recognised, under any schedule of the reader, each of the first 749 polls of a send takes all three looks at the mailbox and leaves the sender on that send; the 750th, and only it, goes back to arming |
| OtaLongest.LookActs | jni/hidserv.c:907-916 | what one of those looks finds is acted on at once |
| OtaReaderLoss.NeverCreated | jni/hidserv.c:816-820 | when the thread cannot be created, nothing is heard, at most three frames are written, all of the first record, and the run fails; with every write succeeding they are exactly three |
| OtaReaderLoss.NeverOpened | jni/hidserv.c:793-799 | when the image cannot be opened, nothing is written or heard and the run fails at once |
| OtaReaderLoss.ReaderLoss | jni/hidserv.c:879-924 | without a reader: at most one more record, at most three more writes (four exactly before a write with an advance pending), an end in FAIL or where the mailbox points; with every write succeeding, all three exactly |
| OtaReaderLoss.LossFails | jni/hidserv.c:902-916 | the run fails when neither success nor, on FINISH, an advance is pending, and also when one is pending at the last poll before the deadline |
| OtaLate.FourWrites | jni/hidserv.c:879-924 | for every image and every record but the last, an honest run leads to a sender that, its reader gone, writes exactly four more frames and fails |
| OtaLockStep.OneToken | jni/hidserv.c:606-690 | with one recognised answer per frame and no time-out, and whatever reports it does not recognise the reader gets and whether or not a read fails, there is always exactly one token among sender, frame, response, reader and mailbox |
| OtaLockStep.LockStepAdvance | jni/hidserv.c:635-659 | in such a run, with check and store apart, every record left had its own frame answered by a response that advances it, the only recognised one heard |
| OtaLockRun.LockStepPossible | jni/hidserv.c:749-946 | for every image and whatever unrecognised reports come before each answer, some run in lock step gets each frame answered once and succeeds |
| OtaLockRun.TimeoutSkips | jni/hidserv.c:656-659 | one time-out breaks it: for every DATA record and a next one with another sequence number, each frame is answered once, the record is retransmitted once, and the sender leaves the next one, its frame still in flight, on the second verdict about the first |
| OtaDuplicate.DuplicateSkips | jni/hidserv.c:656-659 | with check and store apart: for every DATA record and a next one with another sequence number, a run meeting every other premise of delivery, in which the device gets and answers that record twice, makes the sender leave the next one, not received, with nothing heard that advances it |
| OtaSession.Session.constructor | jni/hidserv.c:750-774 | the variables before a transfer: a state of the protocol nothing has happened in |
| OtaSession.Session.CopyResponse | jni/hidserv.c:607-629 | the first six bytes behind the skipped one, zero where the read did not reach |
| OtaSession.Session.CheckResponse | jni/hidserv.c:635-684 | the nested tests of report id, command, status and sequence number give the classification of the response |
| OtaSession.Session.StoreVerdict | jni/hidserv.c:641-682 | the verdict reaches the mailbox; an unrecognised response leaves it alone |
| OtaSession.Session.ReaderTurn | jni/hidserv.c:606-699 | one reader step is the reader's step of the protocol, with check and store in one step or in two |
| OtaSession.CopyRecord | jni/hidserv.c:842-846 | the copy loop fills the cleared buffer with report type and record, and sums its bytes in 16 bits |
| OtaSession.SealRecord | jni/hidserv.c:869-870 | with the sum behind the record the buffer is the filled command buffer |
| OtaSession.Session.NoteData | jni/hidserv.c:854-866 | sequence number, remainder and percentage change for a DATA record and only for one |
| OtaSession.Session.BuildCommand | jni/hidserv.c:837-870 | loading a record is the load step of the protocol |
| OtaSession.Session.LoadRecord | jni/hidserv.c:837-877 | the load step, or the end of the image |
| OtaSession.Session.BeginRecord | jni/hidserv.c:825-829 | counters and buffer cleared before the next record |
| OtaSession.Session.NextIndex | jni/hidserv.c:830-834 | the mailbox is marked and the index moves past the record before |
| OtaSession.Session.ArmMailbox | jni/hidserv.c:881-887 | the mailbox is armed, the send counted, the poll count cleared; the fourth send is refused |
| OtaSession.Session.HidWrite | jni/hidserv.c:894-897 | report type and record, without the sum, are handed to the channel, which may fail |
| OtaSession.Session.AwaitAnswer | jni/hidserv.c:902-924 | the poll loop ends, having taken only steps of the protocol, four for each poll before the last: it goes on, retries or succeeds on what a look before the 750th poll found, or else retries with that poll |
| OtaSession.Session.SendRecord | jni/hidserv.c:879-924 | the retry loop ends, in going on, success or giving up |
| OtaSession.Session.OtaUpdate | jni/hidserv.c:749-946 | the whole transfer, against any reader, with check and store in one step or in two: it ends; frames are the records in order, each 1 to 3 times; every record left and success have their response or, only in two steps, a stale verdict; it stays inside the image exactly when nothing takes it off FINISH |
| Crc32.MakeEntry | jni/hidserv.c:566-569 | the inner loop clocks its index once per turn |
| Crc32.MakeCrcTable | jni/hidserv.c:563-572 | entry i is i clocked eight times, for either shift |
| Crc32.Checksum | jni/hidserv.c:574-581 | the loop over a table is the fold of table steps from all ones, complemented |
| Crc32.Crc32 | jni/hidserv.c:563-581 | table and loop together compute the checksum of RFC 1952 when the shift is logical |
| Crc32.ChecksumIsRfc1952 | jni/hidserv.c:574-581 | the table-driven checksum equals the bit-serial one of section 8 of RFC 1952, from all ones and complemented, for every buffer |
| Crc32Residue.Residue | jni/hidserv.c:574-581 | a message with a four-byte trailer checks to 0x2144DF1C if and only if the trailer is the message's checksum, low byte first |
| Crc32Residue.ArithmeticResidue | jni/hidserv.c:574-581 | with an arithmetic shift to 0x17448336, for that trailer and exactly three others |
| Crc32Residue.StartComplements | jni/hidserv.c:575-580 | for every message and either shift, the checksum is the complement of the register run from zero over the message with its first four bytes complemented; a shorter message leaves some of the ones |
| Crc32.BurstChangesChecksum | jni/hidserv.c:563-581 | any difference confined to 32 consecutive bits changes the checksum |
| Crc32.ByteBurstChangesChecksum | jni/hidserv.c:563-581 | any difference confined to four consecutive bytes changes the checksum |
| Crc32.EntryLinear | jni/hidserv.c:563-572 | table[i^j] = table[i]^table[j], for either shift |
| Crc32.ChecksumAffine | jni/hidserv.c:574-581 | crc32(x)^crc32(y)^crc32(z) = crc32(x^y^z) for buffers of equal length, for either shift |
| Crc32Arithmetic.ArithmeticEntryRight | jni/hidserv.c:566-568 | with an arithmetic shift exactly entries 0 and 128 are right |
| Crc32Arithmetic.UnseenDifferences | jni/hidserv.c:563-581 | with an arithmetic shift, two messages that differ within four consecutive bytes have the same checksum if and only if those bytes differ by nothing or by one of three words, at any place and with anything around them |
| Crc32Arithmetic.ThreeBytesSeen | jni/hidserv.c:563-581 | with an arithmetic shift, any difference within three consecutive bytes changes the checksum |
| Crc32Arithmetic.FourBytesUnseen | jni/hidserv.c:563-581 | with an arithmetic shift, every message has, at every place, another with the same checksum that differs in four bytes there |
| Crc16.Crc16Ccitt | jni/hidserv.c:551-559 | the loop computes the bit-serial CCITT register, most significant bit first, from zero |
| Crc16.TableIsBitSerial | jni/hidserv.c:556-557 | loop and register agree from any start and for every buffer |
| Crc16Table.TableRight | jni/hidserv.c:557 | each of the 256 constants of the table indexed here (jni/include/OTADefine.h, lines 128-161) is its index clocked eight times |
| Crc16.Residue | jni/hidserv.c:551-559 | message and two-byte trailer check to zero if and only if the trailer is the message's checksum, high byte first |
| Crc16.LeadingZeros | jni/hidserv.c:551-559 | leading zero bytes never change the checksum |
| Crc16.AnyTableResidue | jni/hidserv.c:556-557 | over any table with entry 0 equal to 0, a message and its checksum check to zero |
| Crc16.AnyTableLeadingZeros | jni/hidserv.c:556-557 | over any table with entry 0 equal to 0, leading zero bytes change nothing |
| Crc16.BurstChangesChecksum | jni/hidserv.c:551-559 | any difference confined to 16 consecutive bits changes the checksum |
| EpoxQuirk.EpoxEndianQuirk | jni/sdp.c:66-89 | for at least twelve bytes the loop that rewrites in place is the simultaneous replacement, in the original bytes, of every occurrence that starts before the last twelve; for fewer, and only then, the wrapped loop bound takes it out of the array |
| EpoxQuirk.RepairIff | jni/sdp.c:66-89 | the repaired descriptor is the one of the same size in which each occurrence before the last twelve bytes reads 05 07 19 00 2A FF 00 15 00 26 FF 00, no other has come up there and every other byte is as it was; no other is |
| EpoxQuirk.RepairsOccurrence | jni/sdp.c:82-87 | each visited occurrence gets both words swapped and nothing else |
| EpoxQuirk.KeepsTheRest | jni/sdp.c:81-88 | bytes outside visited occurrences are unchanged |
| EpoxQuirk.Apart | jni/sdp.c:74-75 | occurrences of the pattern never overlap |
| EpoxQuirk.OccurrencesLeft | jni/sdp.c:81-88 | no occurrence is created, and the only one left is one that ends the descriptor |
| EpoxQuirk.CompleteUnlessLast | jni/sdp.c:81 | the repair is complete if and only if the descriptor does not end in the pattern |
| EpoxQuirk.RepairIdempotent | jni/sdp.c:66-89 | a second run changes nothing |
| EpoxQuirk.RepairConserves | jni/sdp.c:82-87 | the repair only moves bytes |
| DeviceStore.PrintPairs | jni/sdp.c:114-115 | the loop prints each byte as two digits over the terminator of the one before |
| DeviceStore.PrintDescriptor | jni/sdp.c:113-115 | the loop prints the descriptor as upper-case digit pairs, byte k at place 2k, and terminates it |
| DeviceStore.StoreDeviceInfo | jni/sdp.c:91-133 | the stored line is the whole formatted line and shows the request place by place; a failed allocation is reported as -12 |
| DeviceStore.LaidIff | jni/sdp.c:100-120 | the line place by place, in upper-case digits: vendor at 0, product at 5, version at 10, subclass at 15, country at 18, parser at 21, byte k of the descriptor at 26 + 2k, then flags and name; and no other line shows the record so |
| DeviceStore.LineLength | jni/sdp.c:100-120 | the line has 36 + 2 rd_size + strlen(name) characters and fits the print's bound exactly |
| DeviceStore.GetStoredDeviceInfo | jni/sdp.c:135-188 | the request gets what the scan of the line yields; a missing line is reported as -5, a failed allocation as -12 |
| DeviceStore.ReadPairs | jni/sdp.c:179-183 | the loop turns digit pairs into bytes |
| DeviceStore.DescFits | jni/sdp.c:157-173 | whatever the line, the scanned descriptor fits its buffer and its byte count the field |
| DeviceStore.PairsOfDigits | jni/sdp.c:113-115 | digit pairs printed from bytes read back as those bytes |
| DeviceStore.RoundTrip | jni/sdp.c:117-183 | reading back a stored line gives the record if and only if its descriptor has 1 to 2047 bytes and its name does not start with white space |
| DeviceStore.ParseStorable | jni/sdp.c:157-169 | with a descriptor of 1 to 2047 bytes everything comes back but the white space the name starts with |
| DeviceStore.StoredThenRead | jni/sdp.c:157-183 | a request filled from a stored line holds every field that was stored, whatever it held before |
| DeviceStore.EmptyDescriptorLost | jni/sdp.c:117-120 | without a descriptor the four bytes of the flags come back as one, most significant first |
| DeviceStore.LongDescriptorCut | jni/sdp.c:157-159 | of a descriptor of more than 2047 bytes the first 2047 come back |
| CGrammar.NumeralRead | jni/sdp.c:157-159 | a hexadecimal field of any width reads white space, an optional sign, an optional 0x and digits, as many as the width allows, as their value modulo 2^32 |
| CGrammar.ReadNumeral | jni/sdp.c:157-159 | and whatever such a field reads is of that form |
| CGrammar.ScanIff | jni/sdp.c:157-159 | a format assigns exactly what its grammar says: each directive consumes its text in turn, up to the first that can consume none |
| DeviceLine.ParseMeans | jni/sdp.c:157-183 | any line at all: the fields get what the grammar of the format assigns, cut to their widths, up to where it stops; the text gives one byte for two characters; the name starts where the numbers end |
| DeviceLine.EmptyDescriptorRead | jni/sdp.c:157-169 | without a descriptor, a number of up to eight characters at the start of the name comes back as the flags, and the rest of it behind white space as the name |
| DeviceLine.EmptyDescriptorUnread | jni/sdp.c:157-169 | and if the name starts with none, flags and name are not reached |
| DeviceLine.NoNumberFirst | jni/sdp.c:157-169 | so it is when the name, behind white space, starts with neither a digit nor a sign |
| DeviceLine.BluetoothMouse | jni/sdp.c:157-169 | "Bluetooth Mouse" without a descriptor comes back with flags 0xB as "luetooth Mouse" |
| DeviceLine.LongDescriptorRead | jni/sdp.c:157-169 | of a descriptor of more than 2047 bytes the first 2047 come back, up to eight digits of the rest as the flags, and the line from there on, cut to 127 characters, as the name |
| DeviceStore.CopyDescriptor | jni/sdp.c:288-300 | a reported descriptor, if there is one and memory for it, is copied, cut to a 16-bit size and repaired in place: afterwards its misordered items, but for any that end it, read right and every other byte is as reported; a cut size below twelve, and only that, takes the repair out of the array |
| DeviceStore.TakeDescriptor | jni/sdp.c:288-307 | copy, repair and store in turn, the request then holding the repaired descriptor; memory that is not there is touched exactly when the repair leaves the array or a size without bytes is stored |
| DeviceStore.RepairStoreRead | jni/sdp.c:81-183 | a request that took a descriptor of 12 to 2047 bytes, stored and read back, comes back whole, the descriptor as repaired, a fixed point of the repair, and free of the pattern unless reported ending in it |

## Left out

- Bluetooth sockets, HCI requests, connection set-up and tear-down, including `quit_thread` and `quit_serv` after a transfer: foreign calls without logic of their own.
- The JNI wrappers, the Android user interface and its reading of the log, and the superseded copies of the sources.
- SDP record building, service search and registration: they drive libraries that are not part of this repository.
- The device's firmware: it appears only in premises about responses.
- Time and sleeps: only the poll counter matters to the transfer.
- Log output, `isFinishCmd`, `total_cmd_num`, and the return value of `ota_update`, which is zero for success and failure alike.
- Reading the image file: the image is given as a sequence, and a file larger than the 524288-byte buffer is not modelled.
- Malformed images: the transfer's theorems are for images tiled by records of 7 to 1021 bytes with FINISH last and only there, which the code relies on and does not check; beyond the end of such an image the model stops in `Overrun`.
- Compiler reordering and caching of the shared variables, which are plain statics: each access is one step and takes effect at once.
- A reader left over from an earlier transfer, still blocked in `read` when the next one raises the flag again: one transfer, one reader.
- Partial writes: a write that returns fewer bytes than asked counts as success, as in the code.
- EpoxQuirk.EpoxEndianQuirk: promises nothing about the bytes once the loop has left the array, because the code then reads and writes memory it does not own.
- Crc32.Checksum: does not model the `int` loop variable against a `size_t` length, which matters beyond two gigabytes.
- Crc16.Crc16Ccitt: does not model a negative length, for which the loop does nothing.
- The text file the device store keeps its lines in: it stores and returns a line unchanged, for names without line breaks.
- DeviceStore.TakeDescriptor: takes reported descriptors below 2^31 bytes, the range of the size the repair is given.
- Freeing of memory: the outcome of an allocation is a parameter, and what is freed is simply no longer used.
- Fields a scan does not reach: their variables are indeterminate in the code, and any value is allowed.
