# Verified model of the SmartThings device SDK core

This project models, in Dafny, the stateful parts of the SmartThings embedded device SDK and proves
what they promise: the circular log and its dump, the base64 codec, the fragmentation of easy-setup
messages over BLE, the work queue and the connection states, and provisioning (the non-volatile
record, the HTTP step sequence and the in-place request parser), with the smaller UUID, MAC address
and retry-backoff code.

`dafny verify dfyconfig.toml` checks everything.

| file | component |
|---|---|
| `Ring.dfy`, `FlashLayout.dfy`, `LogFile.dfy`, `LogTask.dfy` | `iot_log_file.c`: a ring of cells, the sector layout, the RAM and flash log as classes, and the flush task interleaved with the threads that store |
| `DumpLog.dfy` | `iot_dump_log.c`: the dump, raw or as streamed base64 |
| `Base64.dfy`, `Base64Alphabet.dfy`, `Base64Codec.dfy` | `iot_security_util.c`: the specification, what it is bit by bit over the alphabets of RFC 4648, and the two-pass code |
| `BleMsg.dfy` | `iot_easysetup_ble_msg.c`: sender, receiver and transaction ids |
| `WorkQueue.dfy`, `Worker.dfy`, `DeviceWork.dfy`, `Connection.dfy`, `Backoff.dfy` | `iot_util.c` and `iot_main.c`: the linked queue, the worker and its signal as a state machine and as code on that queue, the connection states, the retry delay |
| `NvProv.dfy`, `EasySetup.dfy`, `HttpParser.dfy`, `HttpServer.dfy`, `UuidMac.dfy` | provisioning: the stored records, the step sequence, the request parser and the server that joins them |
| `Bytes.dfy`, `Text.dfy`, `Arithmetic.dfy` | bytes, C strings and numbers, division |

Code that works on arrays, fields and lists is modelled by classes and methods with loops, each tied
by its `ensures` to a function of the old state; the promises are then proved about those functions.
Code whose point is interleaving (the log task, the worker, the connection) is a state machine over
single steps of its threads, and its theorems hold for every run.

Where a promise is false of the code, the model keeps the code and the exact condition is proved:

- Seeking back from the tail of a wrapped log is computed in unsigned 32-bit arithmetic, although the
  comment in `iot_log_file_seek` calls it circular. It is circular if and only if the sum is not
  negative or the file size divides 2^32 (`Ring.SeekIsCircular`), and exactly then the lines dumped are
  the newest whatever the log holds (`DumpLog.NewestIffCircular`). With sectors of a multiple of 16
  bytes the size of the flash log never divides 2^32, so the dump of a full one is from its newest
  lines, whatever it holds, if and only if the tail is not short of the dumped size
  (`DumpLog.FlashDumpGoesWrong`, `DumpLog.WrongLineDumped`).
- A BLE message of one fragment that repeats the last command number is accepted but not delivered
  (`BleMsg.Reassembly`). One of more than 256 fragments is dropped, except with transaction id 0: if
  it ends among the 2nd to 256th fragment counted from a later one whose number is a multiple of 512,
  a message of the right length is dispatched whose front is misplaced and followed by what the memory
  held (`BleMsg.Arrival`, `BleMsg.CorruptDispatch`). So a message arrives as sent, whatever the memory
  held, if and only if it has at most 256 fragments and the receiver is ready for it
  (`BleMsg.ArrivesIff`).
- A flush can lose bytes. A step is untimely if it asks for a sync while the task is at work, or if it
  starts the task with a sync already asked for. Timely steps never lose a byte, and a step is timely
  if and only if timely steps alone cannot lose one after it (`LogTask.NothingLost`,
  `LogTask.TimelyIffNothingLost`). A reader that is open when a
  flush looks or finishes leaves storing switched off until the next explicit sync
  (`LogTask.SilentUntilSync`).
- Each provisioning record is all-or-nothing, the pair is not (`NvProv.JointSetMixesIff`). The removal
  of an empty field that fails is not noticed: a completed set reads back exactly if and only if what
  such removals left behind reads as if it were not there (`NvProv.WifiReadsBackIff`,
  `NvProv.CloudReadsBackIff`, `NvProv.MixedRecord`). A server address or label of exactly 1025 bytes
  fills the reader's buffer and leaves no room for its NUL, and only such a one does
  (`NvProv.CleanAfterSetIff`).
- The onboarding order is lost exactly by two kinds of request (`EasySetup.OrderBreaksIff`): one during
  which the station leaves just between the test and the count of its step, unless the step is
  DEVICEINFO or the request is queued and fails; and one whose step is counted but cannot be queued,
  if the step is DEVICEINFO, KEYINFO, CONFIRMINFO, WIFIPROVISIONINGINFO or the first WIFISCANINFO after
  CONFIRM. A CONFIRM, SETUPCOMPLETE or other WIFISCANINFO that is lost that way does not lead to steps
  out of order.
- The retry backoff is as intended if and only if the maximum is at most 2^22 seconds
  (`Backoff.IntendedIffSmall`).
- The work queue task spends a wakeup for nothing if it cannot take the queue's mutex, and then loses
  it exactly if work is left that no producer is about to announce (`DeviceWork.Tasks.Take`).
- The UUID validator takes every capital letter for a hexadecimal digit, and the MAC parser any
  character that is not a letter (`UuidMac.PrintParseUuid`, `UuidMac.PrintParseMac`).

## Model

| member | source | states |
|---|---|---|
| Ring.HoldsAppend | src/iot_log_file.c:401-452 | storing a block circularly in cells that hold the newest bytes of a history gives cells that hold the newest bytes of the longer history, with the tail one circular advance on |
| Ring.HoldsStoreChar | src/iot_log_file.c:43-64 | storing one byte in the RAM buffer, which wraps only when the next byte comes, keeps it holding the newest bytes |
| Ring.ChunksAreOneRead | src/iot_log_file.c:681-752 | reads of any sizes, one after the other, deliver the bytes of one circular read |
| Ring.SeekIsCircular | src/iot_log_file.c:654-679 | the 32-bit seek lands on the circular target if and only if the sum is not negative or the size divides 2^32 |
| Ring.NewestFromTail | src/iot_log_file.c:543-627 | the m bytes read from m cells before the tail are the newest m of the history |
| Ring.OpenedAtOldest | src/iot_log_file.c:562-612 | reading a whole file from where it is opened gives the newest bytes in order |
| FlashLayout.HeaderRoundTrip | src/iot_log_file.c:178-206 | a header read back from flash is the header written |
| FlashLayout.RewriteSector | src/iot_log_file.c:244-288 | erasing a sector and writing it back changes only the bytes modified |
| FlashLayout.WritesAreOverlay | src/iot_log_file.c:321-375 | writing one sector, or two that straddle a boundary or the end of the region, is one circular store in the log area and leaves the header bytes alone |
| FlashLayout.TailAdvances | src/iot_log_file.c:409-452 | the new sector number and offset lie in the log area, one circular advance on, also when the region's end is passed |
| FlashLayout.AppendFlushed | src/iot_log_file.c:377-407 | flushing behind an existing log gives a log area that holds the newest flushed bytes |
| FlashLayout.FirstFlushed | src/iot_log_file.c:160-206 | the first flush gives a log area that holds the newest flushed bytes, whatever flash held before |
| FlashLayout.HeaderDescribes | src/iot_log_file.c:409-452 | the header written after the data describes it: sizes, sector and offset |
| FlashLayout.HeaderFields | src/include/iot_log_file.h:117-130 | the little-endian fields of a stored header, byte by byte |
| LogFile.Log.constructor | src/iot_log_file.c:829-896 | a log opened over flash that is consistent with what was flushed is valid, empty in RAM and accepting |
| LogFile.Log.Store | src/iot_log_file.c:96-133 | an accepted string joins the history; accepted exactly when enabled and shorter than 128; in flash mode the buffer never wraps, enabled implies 128 bytes free, and a nearly full buffer disables storing and asks for a sync |
| LogFile.Log.SyncRequest | src/iot_log_file.c:135-141 | storing is disabled and the sync bit set, in flash mode only |
| LogFile.Log.WriteSector | src/iot_log_file.c:244-288 | read-modify-write through an erase changes exactly the given bytes of flash; only erased flash is written |
| LogFile.Log.WriteData | src/iot_log_file.c:321-375 | the sectors written are those of the specification, with the wrap to just after the header |
| LogFile.Log.FlushPending | src/iot_log_file.c:454-487 | after steps 1 to 4 the log area holds the newest bytes of the whole history |
| LogFile.Log.Manager | src/iot_log_file.c:454-501 | one pass leaves flash consistent with everything accepted and the RAM buffer empty; flash begins with "LOG", bytes 8 to 11 are the size written and bytes 12 to 19 the sector and offset behind the newest byte; accepted bytes are those in flash followed by those pending |
| LogFile.Log.TaskTurn | src/iot_log_file.c:503-525 | a sync request is consumed, and acted on unless a reader is open |
| LogFile.Log.Open | src/iot_log_file.c:543-627 | a handle that stands at the oldest byte still held, with the log's size; none for a flash log without a header |
| LogFile.Log.Seek | src/iot_log_file.c:654-679 | the handle goes where the 32-bit computation says; an empty log is refused |
| LogFile.Log.Read | src/iot_log_file.c:681-752 | min(n, size) bytes going round the file are put in the buffer, nothing else in it changes, and the handle stands behind them |
| LogFile.Log.ReadsNewest | src/iot_log_file.c:543-752 | an opened log read to its length in chunks of any sizes gives, in order, the last min(history, RAM_BUF_SIZE) bytes of every history of stores in RAM mode, and the last min(flushed, FLASH_SIZE - header) flushed in flash mode |
| LogFile.Log.Close | src/iot_log_file.c:754-772 | storing in RAM mode and flushing in flash mode are possible again |
| LogFile.Log.Remove | src/iot_log_file.c:774-819 | a new log begins and every byte of flash is erased; refused while a flash log is open; storing in RAM mode is enabled unless a reader is open, and unchanged in flash mode |
| LogTask.QuietIffTimely | src/iot_log_file.c:96-141 | a step keeps storing off during a flush if and only if it is not a sync during a flush or a task start with a sync pending |
| LogTask.NothingLost | src/iot_log_file.c:208-222 | in every run of such steps no accepted byte is lost, accepted is flushed followed by pending, and every accepted store finds room |
| LogTask.UntimelyLoses | src/iot_log_file.c:454-525 | after an untimely step there is a run of timely steps that loses an accepted byte |
| LogTask.TimelyIffNothingLost | src/iot_log_file.c:96-141 | a step is timely if and only if no run of timely steps after it loses a byte |
| LogTask.SilentUntilSync | src/iot_log_file.c:503-525 | with storing off and no sync pending nothing is accepted any more until a sync is asked for |
| LogTask.SilencedIffReading | src/iot_log_file.c:208-222 | exactly a reader open when a flush begins or ends brings that about |
| DumpLog.StreamedGroups | src/iot_dump_log.c:110-157 | encoding groups carried over with groups read gives the encoding of the whole, whatever the boundaries |
| DumpLog.CopyMemory | src/iot_dump_log.c:110-157 | one call writes the encoding of the whole groups of carry and source, or the source itself, and keeps the 0 to 2 bytes left over |
| DumpLog.MessageFits | src/iot_dump_log.c:191-228 | the output never exceeds the limit, and one more line would exceed it or not exist |
| DumpLog.DumpLines | src/iot_dump_log.c:267-285 | the read loop ends with the m bytes from the seek target dumped behind what was dumped before |
| DumpLog.PadOut | src/iot_dump_log.c:290-299 | the last call completes the text |
| DumpLog.DumpDecodes | src/iot_dump_log.c:290-303 | a base64 dump has 4*ceil(N/3) characters and a NUL, and decodes to its N payload bytes and at most two more |
| DumpLog.PayloadLaid | src/iot_dump_log.c:238-285 | the payload byte by byte: magic number, version, the size of the state record or zero, padding, the record exactly if it was asked for, and the lines |
| DumpLog.NewestLines | src/iot_dump_log.c:263-285 | the lines dumped from any ring, full or not, are the newest whole lines when the seek is circular |
| DumpLog.NewestIffCircular | src/iot_dump_log.c:263-285 | for every size, tail and dumped size: the lines dumped are the newest for all histories that lead to the tail if and only if the tail is not short of them or the size divides 2^32 |
| DumpLog.FlashDumpGoesWrong | src/iot_dump_log.c:263-285 | for flash logs with sectors of a multiple of 16 bytes the condition is that the tail is not short of the dumped size |
| DumpLog.WrongLineDumped | src/iot_dump_log.c:263-285 | a concrete log whose newest line is not the one dumped |
| DumpLog.CreateLogDump | src/iot_dump_log.c:159-318 | the dump, or what a base64 dump decodes to, is byte for byte the header, the state record exactly if it was asked for and the m log bytes from the seek target, m the largest whole number of 16-byte lines that fits; they are the newest lines whenever the seek is circular; it fails exactly when the head does not fit or there is no log |
| Base64.EncodeSplits | src/security/iot_security_util.c:147-209 | encoding splits over concatenation at multiples of three bytes |
| Base64.PassesAgree | src/security/iot_security_util.c:58-142 | the second pass writes the length the first computes, less what an incomplete last group drops, so exactly it for whole groups and never more |
| Base64.RoundTrip | src/security/iot_security_util.c:58-209 | decoding undoes encoding for every byte string |
| Base64.BlanksDoNotMatter | src/security/iot_security_util.c:58-142 | an accepted text decodes to what its symbols without spaces and line breaks decode to |
| Base64.UrlTranslation | src/security/iot_security_util.c:213-271 | translating the URL-safe text back gives the standard encoding |
| Base64.UrlRoundTrip | src/security/iot_security_util.c:341-439 | URL-safe decoding undoes URL-safe encoding, with the padding or with trailing '=' stripped |
| Base64Alphabet.EncodeIs | src/security/iot_security_util.c:147-209 | character k of the encoding is the character of the alphabet of section 4 of RFC 4648 for bits 6k to 6k+5 of the source, most significant first with zeros behind, and '=' fills up to a multiple of four |
| Base64Alphabet.EncodeUrlIs | src/security/iot_security_util.c:213-241 | the URL-safe encoding is the same over the alphabet of section 5 |
| Base64Alphabet.SymbolIs | src/security/iot_security_util.c:25-55 | a symbol stands for its place in the alphabet of section 4, and only '=' for padding |
| Base64Alphabet.DecodedBit | src/security/iot_security_util.c:122-137 | bit i of the decoded bytes is bit i % 6, most significant first, of the place in the alphabet of symbol i / 6 of an accepted text |
| Base64Alphabet.DecodedLength | src/security/iot_security_util.c:122-142 | an accepted text decodes to three bytes for every whole group of symbols, less one for each '=' in them |
| Base64Alphabet.Accepted | src/security/iot_security_util.c:65-101 | accepted are exactly the texts of the alphabet, at most two '=' with nothing but blanks and '=' behind the first, carriage returns before line feeds, and spaces before blanks, line breaks or the end |
| Base64Alphabet.UrlSymbolIs | src/security/iot_security_util.c:243-271 | a digit of section 5 is read as the digit of section 4 with the same place |
| Base64Codec.EncodeTo | src/security/iot_security_util.c:147-209 | the loop stores the specified encoding and a NUL, or reports the size needed |
| Base64Codec.Scan | src/security/iot_security_util.c:65-101 | the first pass accepts exactly the well-formed texts and counts their symbols and padding |
| Base64Codec.SecondPassStep | src/security/iot_security_util.c:122-137 | the accumulator's low bits are the last symbols, whatever overflowed; each fourth symbol writes its bytes |
| Base64Codec.Emit | src/security/iot_security_util.c:122-142 | the second pass stores exactly the decoded symbols |
| Base64Codec.EmitFits | src/security/iot_security_util.c:109-142 | the second pass never writes more than the first computed |
| Base64Codec.DecodeTo | src/security/iot_security_util.c:58-142 | both passes: the decoded bytes if the text is accepted and fits, and nothing is written otherwise |
| Base64Codec.SecurityEncode | src/security/iot_security_util.c:273-305 | the encoding, or the error for empty arguments or a short buffer |
| Base64Codec.SecurityDecode | src/security/iot_security_util.c:307-339 | the decoded bytes exactly for a well-formed text that fits, and the errors |
| Base64Codec.UrlEncodeInPlace | src/security/iot_security_util.c:213-241 | only '+' and '/' are replaced, in place |
| Base64Codec.UrlDecodeInPlace | src/security/iot_security_util.c:243-271 | only '-' and '_' are replaced, in place |
| Base64Codec.SecurityEncodeUrlsafe | src/security/iot_security_util.c:341-379 | the URL-safe encoding, or the error |
| Base64Codec.SecurityDecodeUrlsafe | src/security/iot_security_util.c:381-439 | the decoding of the re-padded, translated text, or the error |
| BleMsg.WireRoundTrip | src/easysetup/ble/iot_easysetup_ble_msg.c:49-65 | a fragment read off the air is the fragment put on it |
| BleMsg.NextFragment | src/easysetup/ble/iot_easysetup_ble_msg.c:126-140 | one more fragment in order extends the assembled prefix; the last one dispatches the message |
| BleMsg.SenderFits | src/easysetup/ble/iot_easysetup_ble_msg.c:108-194 | the fragments of a sender stay inside the receiver's buffer and announce no further chunk |
| BleMsg.Reassembly | src/easysetup/ble/iot_easysetup_ble_msg.c:108-283 | fragments fed in order to an idle peer dispatch exactly the original bytes, once and on the last fragment, if and only if the id is fresh and it is not a one-fragment repetition; otherwise nothing |
| BleMsg.Arrival | src/easysetup/ble/iot_easysetup_ble_msg.c:108-283 | what a message of any length and id comes to at an idle peer, for every content of fresh memory: delivered up to 256 fragments when the peer is ready; dropped beyond, or, with id 0 and fragments in the right places, dispatched with the content stated |
| BleMsg.ArrivesIff | src/easysetup/ble/iot_easysetup_ble_msg.c:108-283 | exactly the bytes sent are dispatched, whatever fresh memory contains, if and only if there are at most 256 fragments and the peer is ready |
| BleMsg.CorruptDispatch | src/easysetup/ble/iot_easysetup_ble_msg.c:126-206 | a concrete message of 514 fragments with id 0 that is dispatched with another first byte, whatever fresh memory contains |
| BleMsg.AcceptedIdsClimb | src/easysetup/ble/iot_easysetup_ble_msg.c:145-171 | in any run of packets and replies, once a non-zero id is accepted every later accepted first fragment has a larger one |
| BleMsg.DispatchedIdsClimb | src/easysetup/ble/iot_easysetup_ble_msg.c:145-214 | no non-zero id is dispatched twice |
| BleMsg.AtMost255Transactions | src/easysetup/ble/iot_easysetup_ble_msg.c:103-171 | at most 255 non-zero transactions are accepted between resets |
| BleMsg.WiresRoundTrip | src/easysetup/ble/iot_easysetup_ble_msg.c:253-274 | every indication sent reads back as its fragment |
| BleMsg.IndicationIs | src/easysetup/ble/iot_easysetup_ble_msg.c:249-274 | indication i of a message, byte by byte: i % 256, command, transaction id, the message length or the offset i*mtu, fragments to come, segment length and segment; there is one for every i with i*mtu below the length |
| BleMsg.FirstPacket | src/easysetup/ble/iot_easysetup_ble_msg.c:145-217 | what the bytes of a packet do at an idle receiver: refused, delivered at once unless it repeats the command, or the beginning of a message |
| BleMsg.NextPacket | src/easysetup/ble/iot_easysetup_ble_msg.c:126-140 | what they do at one that is assembling: refused with a reset, stored at its offset, or the end of the message |
| BleMsg.Recovers | src/easysetup/ble/iot_easysetup_ble_msg.c:126-144 | a fragment that does not continue the message being assembled costs that message only: the next one arrives |
| BleMsg.Transfer.ResetState | src/easysetup/ble/iot_easysetup_ble_msg.c:81-101 | everything but command number and transaction id is reset |
| BleMsg.Transfer.ResetTransfer | src/easysetup/ble/iot_easysetup_ble_msg.c:103-106 | everything but the command number is reset, the transaction id too |
| BleMsg.Transfer.Assemble | src/easysetup/ble/iot_easysetup_ble_msg.c:108-217 | the code on its fields and buffer does what the receiver's step function says, for every state and packet |
| BleMsg.Transfer.Disassemble | src/easysetup/ble/iot_easysetup_ble_msg.c:219-283 | the send loop puts out exactly the message's fragments, up to the first refused indication; wrong command, wrong state and empty messages as coded; every indication sent is stated byte by byte |
| WorkQueue.Queue.Send | src/iot_util.c:516-553 | a copy of the item is appended to the sequence; head and tail are both null or delimit distinct nodes linked in order; nothing changes on an error |
| WorkQueue.Queue.Receive | src/iot_util.c:555-587 | the first item is removed and copied out; an empty queue is a bad request |
| WorkQueue.Queue.Delete | src/iot_util.c:490-514 | every node is visited once, in order |
| WorkQueue.Queue.AppendItem | src/iot_util.c:536-542 | a node behind the others adds its item at the end |
| Worker.NoWakeupLost | src/iot_main.c:984-1035 | in every reachable state a non-empty queue has the pending bit set, the worker between its wait and its re-set, or a producer between enqueue and set, until the kill signal; handled, in hand and queued together are what was enqueued, in order |
| Worker.InternalRunsEnd | src/iot_main.c:984-1014 | without new work only boundedly many steps remain |
| Worker.EverythingIsHandled | src/iot_main.c:984-1035 | every run comes to rest within that bound with every item handled exactly once, in enqueue order |
| DeviceWork.Tasks.Enqueue | src/iot_main.c:1016-1031 | putting work in is one enqueue step of the state machine, with the linked queue's contents as its queue; a refused lock changes nothing |
| DeviceWork.Tasks.SetPending | src/iot_main.c:1032-1032 | setting the pending bit is the producer's second step |
| DeviceWork.Tasks.Take | src/iot_main.c:991-1002 | a turn up to the handler is the wake and take steps: bits cleared, kill first, then the first item, copied out; if the queue cannot be locked the wakeup is lost exactly when work is left that no producer is about to announce |
| DeviceWork.Tasks.Rearm | src/iot_main.c:1003-1008 | the rest of the turn is the finish and re-set steps |
| Connection.StepKeepsInv | src/iot_main.c:449-617 | every single step of worker, timer, user and other threads keeps the invariant |
| Connection.NeverStranded | src/iot_main.c:619-880 | in every reachable state a disconnected device has a connecting command, a connected update or a deleted notification queued, the retry timer armed or firing, the worker at work on one of them, or a user clean-up under way |
| Connection.Escapes | src/iot_main.c:449-880 | from every such state the user, the worker and the timer alone lead out of disconnected, with no failed attempt and no help from outside |
| Connection.AttemptedIs | src/iot_main.c:766-853 | what handling a connecting command comes to in each case |
| Connection.Context.StateUpdating | src/iot_main.c:449-617 | the handler runs as those steps and keeps the invariant; exactly twelve transitions are accepted, to provisioning only if the radio obeys, and the connecting or registering command is sent on the way to disconnected or provisioned |
| Connection.Context.CloudConnecting | src/iot_main.c:766-853 | the handler runs as those steps and keeps the invariant; what it queues in each case, the retry count, and the retry delay of a failed attempt |
| Connection.Context.DeviceDeleted | src/iot_main.c:864-880 | a requested deletion is acknowledged, any other resets the device |
| Connection.Context.HandleNext | src/iot_main.c:999-1008 | handling the next command without interruption is a run of those steps |
| Connection.Context.NextRetry | src/iot_main.c:810-814 | the next try is the intended delay away: one, two, four, eight, 16 or 32 seconds and jitter, then 64 seconds |
| Connection.LossIsAnswered | src/iot_main.c:548-552 | a connected device told of the loss is disconnected with a connecting command queued |
| Connection.ConnectsAgain | src/iot_main.c:766-853 | a disconnected device that comes to its connecting command is connected again, while the Wi-Fi and the attempt are good |
| Connection.WholeLife | src/iot_main.c:449-617 | from the initial state the handlers go through provisioning, registration, connection and a loss to a new connecting command |
| Backoff.Generate | src/iot_util.c:590-605 | the loop computes the delay in 32-bit arithmetic |
| Backoff.DelayIsIntended | src/iot_util.c:590-605 | 2^t seconds and jitter below one second while below the maximum, the maximum afterwards, for every maximum up to 2^22 seconds |
| Backoff.OverflowsBeyond | src/iot_util.c:596-602 | past 2^22 seconds the 23rd try overflows and comes out below the 22nd |
| Backoff.IntendedIffSmall | src/iot_util.c:590-605 | for every 32-bit maximum the delay is as intended for all tries and random values if and only if the maximum is at most 2^22 seconds |
| Backoff.NeverFalls | src/iot_util.c:590-605 | the delay never exceeds the maximum and never falls as the try count grows, whatever the random values |
| NvProv.NothingOrNone | src/iot_nv_data.c:477-602 | a transaction that does not complete has changed nothing or has left its status at NONE |
| NvProv.SetWifiThenGet | src/iot_nv_data.c:336-602 | a completed set is read back exactly: strings cut at NUL or size, MAC or empty, type or -1 |
| NvProv.StoredWifi | src/iot_nv_data.c:477-602 | which key holds which bytes after a completed wifi set |
| NvProv.StoredCloud | src/iot_nv_data.c:713-813 | which key holds which bytes after a completed cloud set |
| NvProv.AddressRead | src/iot_nv_data.c:411-452 | the address read is the text stored if it is one, or the six bytes of an older record with a text that reads back as them, and none otherwise |
| NvProv.SetCloudThenGet | src/iot_nv_data.c:604-813 | after a completed set the store can be read exactly if neither string fills the reader's buffer, and then the record is read back exactly if both are shorter, and not at all otherwise |
| NvProv.EraseResult | src/iot_nv_data.c:307-334 | an erase leaves NONE in the statuses it reached and takes away their records |
| NvProv.NeverAMix | src/iot_nv_data.c:307-813 | after any history of sets and erases with failed writes and power losses, a successful get returns exactly the record of the latest completed set; and the store can be read, if no string set fills the reader's buffer |
| NvProv.FromEmptyStore | src/iot_nv_data.c:307-813 | after any history that starts with an empty store, each get finds nothing or the record of the latest completed set, and the store can be read |
| NvProv.JointSetMixesIff | src/iot_nv_data.c:291-305 | after an interrupted joint set the new wifi record is read with the old cloud record if and only if it stopped between the two |
| NvProv.WifiReadsBackIff | src/iot_nv_data.c:336-602 | a completed wifi set reads back exactly if and only if every removal that failed left a value that reads as none |
| NvProv.CloudReadsBackIff | src/iot_nv_data.c:604-813 | a completed cloud set reads back exactly if and only if its strings fit and every removal that failed had nothing to remove |
| NvProv.FailedRemovalMixes | src/iot_nv_data.c:511-514 | when only the removal of the SSID fails, a get returns the new record with the old SSID |
| NvProv.MixedRecord | src/iot_nv_data.c:336-602 | a concrete store and set that completes and reads back as such a mix |
| NvProv.CleanAfterSetIff | src/iot_nv_data.c:641-794 | after a completed cloud set every string in the store ends inside the reader's buffer if and only if neither string set is exactly 1025 bytes long |
| NvProv.Storage.SetWifi | src/iot_nv_data.c:477-602 | the code performs the wifi transaction's operations in order, up to the first failure or power loss |
| NvProv.Storage.SetCloud | src/iot_nv_data.c:713-813 | the code performs the cloud transaction's operations in order, up to the first failure or power loss |
| NvProv.Storage.SetProv | src/iot_nv_data.c:291-305 | one transaction after the other |
| NvProv.Storage.EraseProv | src/iot_nv_data.c:307-334 | both statuses to NONE, in order |
| NvProv.Storage.ReadData | src/iot_nv_data.c:121-152 | the value with a NUL where there is room, or which error |
| NvProv.Storage.GetWifi | src/iot_nv_data.c:336-475 | through the shared buffer, exactly the wifi record in the store, which after any history is that of the latest completed set; fails only if there is none or a read fails |
| NvProv.Storage.GetCloud | src/iot_nv_data.c:604-711 | through the shared buffer, exactly the cloud record in the store, which after any history is that of the latest completed set; fails only if there is none or a read fails |
| NvProv.Storage.ProvDataExist | src/iot_nv_data.c:237-273 | true exactly if both statuses are DONE and can be read |
| Text.DecimalReadsBack | src/iot_nv_data.c:566-574 | the decimal text of an integer reads back with atoi |
| Text.DigitIs | src/iot_nv_data.c:566-574 | the decimal text digit by digit, without leading zeros |
| EasySetup.Advance | src/easysetup/http/iot_easysetup_http.c:144-160 | an accepted step takes the reference step to what the steps so far require |
| EasySetup.AcceptedIff | src/easysetup/http/iot_easysetup_http.c:248-269 | a step is accepted if and only if the steps so far and it begin DEVICEINFO KEYINFO (CONFIRMINFO (CONFIRM WIFISCANINFO+ or WIFISCANINFO*))? WIFIPROVISIONINGINFO SETUPCOMPLETE |
| EasySetup.RequestKeepsIff | src/easysetup/http/iot_easysetup_http.c:120-338 | a request keeps the reference step in agreement with the steps that succeeded if and only if its step is not counted without being taken and the station does not leave before the count |
| EasySetup.Outcomes | src/easysetup/http/iot_easysetup_http.c:120-338 | what becomes of each request: unchanged without a step or payload, begun anew by a log request, a step out of order or a failing reply, and one step further otherwise |
| EasySetup.OrderKept | src/easysetup/http/iot_easysetup_http.c:86-338 | in every run without a spoilt request the steps since the last reset begin an onboarding |
| EasySetup.OrderBreaksIff | src/easysetup/http/iot_easysetup_http.c:86-338 | from every state such runs reach, a request can be followed, without another spoilt one, by steps that begin no onboarding if and only if it is spoilt |
| EasySetup.StartsWithoutDeviceInfo | src/easysetup/http/iot_easysetup_http.c:144-172 | a concrete run: DEVICEINFO counted but not queued, then KEYINFO as the first step taken |
| EasySetup.StepsInOrder | src/easysetup/http/iot_easysetup_http.c:86-338 | in every run that keeps that agreement the steps since the last reset begin an onboarding, and the next one succeeds or resets accordingly |
| EasySetup.EveryOnboardingSucceeds | src/easysetup/http/iot_easysetup_http.c:120-338 | every onboarding in order goes through to the end |
| EasySetup.Sequencer.StationLeft | src/easysetup/http/iot_easysetup_http.c:92-100 | the reset when the station leaves |
| EasySetup.Sequencer.GenGetPayload | src/easysetup/http/iot_easysetup_http.c:121-212 | the GET handler does what the model of a request says, with its errors |
| EasySetup.Sequencer.GenPostPayload | src/easysetup/http/iot_easysetup_http.c:225-338 | the POST handler does what the model of a request says, with its errors, a missing payload among them |
| HttpParser.StrTok | src/easysetup/http/iot_easysetup_http_parser.c:80-82 | the token strtok finds, what it overwrites and where it goes on |
| HttpParser.NameIsContentLength | src/easysetup/http/iot_easysetup_http_parser.c:42-65 | true exactly for content-length in any case of letters |
| HttpParser.Round | src/easysetup/http/iot_easysetup_http_parser.c:109-142 | one round of the header loop on a field of a well-formed request: its length if it has one, and whether it was the last |
| HttpParser.ParseHeaders | src/easysetup/http/iot_easysetup_http_parser.c:105-142 | the loop finds the length and the end of the headers and leaves the body alone |
| HttpParser.UsualRequest | src/easysetup/http/iot_easysetup_http_parser.c:125-133 | a single Content-Length field with a space and a decimal number is well-formed, in the usual spelling |
| HttpParser.Parse | src/easysetup/http/iot_easysetup_http_parser.c:67-183 | for every well-formed POST the step of the address, its Content-Length and the place of the first body byte, and a failure if the length is missing or negative; for every other first line the step of a GET's address, or an unsupported request |
| HttpParser.PostAddresses | src/easysetup/http/iot_easysetup_http_parser.c:159-174 | each of the six addresses gives its step and no other does, for POST |
| HttpParser.GetAddresses | src/easysetup/http/iot_easysetup_http_parser.c:91-102 | each of the four addresses gives its step and no other does, for GET |
| HttpParser.ContentLengthIs | src/easysetup/http/iot_easysetup_http_parser.c:42-65 | the field's name is content-length, each letter small or capital |
| HttpServer.AddressesOfSteps | src/easysetup/http/iot_easysetup_http_parser.c:91-174 | every step has its address with one method and none with the other, and the onboarding steps that are posted are those the POST handler serves |
| HttpServer.HandleMessage | src/easysetup/http/iot_easysetup_http.c:364-427 | a parsed request goes to the handler of its method, and a failed or unsupported one to neither |
| HttpServer.ServeOne | src/easysetup/http/tcp/iot_easysetup_httpd.c:130-167 | the text of a request for a step, received, parsed and handled, does what the model of that step says, whatever follows it in the buffer |
| HttpServer.ServeConnection | src/easysetup/http/tcp/iot_easysetup_httpd.c:121-187 | a connection whose requests are those of an onboarding in order takes it to the end |
| UuidMac.ValidateUuidFormat | src/iot_util.c:121-173 | the field-by-field check accepts exactly the 36-character texts with dashes in place, a version from 1 to 5 and loosely hexadecimal digits |
| UuidMac.ConvertStrUuid | src/iot_util.c:175-235 | the loop reads the bytes of an accepted text |
| UuidMac.ConvertUuidStr | src/iot_util.c:237-276 | the loop writes the text and a NUL |
| UuidMac.HexDigitIs | src/iot_util.c:254-265 | a digit prints as its place in 0123456789abcdef and reads back in either case |
| UuidMac.UuidLayout | src/iot_util.c:254-271 | the text is four, two, two, two and six bytes in hexadecimal with dashes between |
| UuidMac.ReplacedUuid | src/iot_util.c:45-173 | which characters may replace one of a text, and that a capital letter past F reads as zero |
| UuidMac.ParsePrintUuid | src/iot_util.c:121-276 | a printed id is accepted if and only if its version is 1 to 5, and reads back as the id |
| UuidMac.PrintParseUuid | src/iot_util.c:175-276 | printing what was read gives the lower-case text if and only if every digit is hexadecimal |
| UuidMac.GetRandomUuid | src/iot_uuid.c:165-201 | a random id has version 4 and variant 2, all its other bits are those of the random numbers, and it survives printing and reading |
| UuidMac.ConvertStrMac | src/iot_util.c:278-345 | the loop accepts exactly the specified texts and reads their bytes |
| UuidMac.ConvertMacStr | src/iot_util.c:347-385 | the loop writes the text and a NUL |
| UuidMac.MacLayout | src/iot_util.c:364-380 | two hexadecimal digits a byte with colons between |
| UuidMac.ReplacedMac | src/iot_util.c:278-345 | which characters may replace one of a text |
| UuidMac.ParsePrintMac | src/iot_util.c:278-385 | every address reads back from its text |
| UuidMac.PrintParseMac | src/iot_util.c:278-385 | printing what was read gives the lower-case text if and only if every digit is hexadecimal |

## Left out

- CBOR and JSON conversion, web tokens and the JSON payload handlers: they wrap libraries that are not part of this model.
- Security contexts, ciphers, MQTT, Wi-Fi, BLE and flash drivers, timers and threads: their results are parameters or steps of the environment.
- Failing allocations, mutex and timer creation, except where a method takes the mutex's answer as an argument.
- LogFile.Log.Manager: one pass is atomic there; its interleaving with stores and syncs is `LogTask`.
- LogFile.Log.Read: a buffer size that takes the address past 2^32 is excluded; the code's range check wraps there and it reads outside the log.
- LogFile.Log.Remove: taken as one step; a flush running beside it is not modelled.
- LogTask.NothingLost: a store is one step and the task is not interrupted between two single assignments of one of its steps.
- DumpLog.CopyMemory: the copy inside the carry buffer takes the source as it was before, where the code calls memcpy on overlapping bytes; a carry with a source too short to complete its group, which makes the code read past the source and its size arithmetic wrap, is excluded, and no call in the dump makes one.
- DumpLog.DumpDecodes: says nothing about the value of the last one or two bytes, which the code takes from the carry buffer instead of zeros.
- DumpLog.CreateLogDump: the state record is given as bytes; its fields are not modelled. `IOT_SECURITY_B64_ENCODE_LEN` is taken as 4*ceil(n/3)+1, and rounding up for re-padding as to a multiple of 4.
- BleMsg.Transfer.Assemble: messages of one chunk only, so a first fragment that announces another chunk is excluded; the segment must fit the buffer, since the code's memcpy is undefined otherwise.
- BleMsg.Transfer.Disassemble: packets received while a reply is being sent are not modelled.
- The single-slot es_msg_dispatch: a message dispatched is an output of the receiver.
- DeviceWork.Tasks.Take: each enqueue and dequeue is one step, as the queue's mutex makes it; what a handler does is its own steps between Take and Rearm.
- Connection.NeverStranded: other threads may queue any command and reset the state at any time, which covers the registering command and what it does, the state timer, MQTT events, BLE disconnection and st_conn_start; what a reboot does afterwards is not modelled. Entering provisioning may fail on the radio.
- Backoff.Generate: the loop counter is unbounded, where the code's int overflows past 2^31 tries.
- NvProv.Storage.GetCloud: the strings in the store must end inside the reader's buffer; on a string of exactly 1025 bytes without NUL the code's strlen runs past it, which has no defined result.
- NvProv.Storage.GetWifi: the texts in the store must end inside the reader's buffer, which every set sees to; fields of the caller's structure past the NUL of a string are not modelled; the cloud record's location and room are not stored by the code.
- NvProv.NeverAMix: every operation on one key is atomic, and the removal of an empty field takes effect; what a removal that fails does is `NvProv.WifiReadsBackIff` and `NvProv.CloudReadsBackIff`.
- EasySetup.Sequencer.GenPostPayload: the state update after SETUPCOMPLETE is taken to be queued.
- HttpParser.Parse: the buffer needs a NUL with three bytes behind it, which the code reads; `long` is 32 bits; of malformed requests only those without a length or with a negative one are said to fail, and of the others that the parser stays inside the buffer.
- HttpServer.ServeOne: a packet comes in whole as far as the end of its headers; reading the rest of a body, the reply text and a packet that leaves less than four bytes of the buffer are not modelled.
- The command line of the BLE easy-setup steps, channel and frequency tables, URL parsing and logging macros: constants or easy members.
