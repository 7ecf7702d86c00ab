# Verification of libtopfield

libtopfield talks to Topfield PVRs over USB. This project models its packet codec, its transfer
protocol, its CRC, its path canonicaliser, its directory search, its calendar arithmetic and its
firmware loader, and proves what a caller relies on. `dafny verify dfyconfig.toml` checks all of it.

## How it is built

Code that works by changing things in place is modelled that way: packets, the handle, the bus and
the path buffer are classes and arrays, and every method is proved equal to a function of values.
The theorems about whole runs are then about those functions.

| module | part of the library |
|---|---|
| `Bytes`, `Folds` | byte access and swapping (`tf_bytes.c`); loops over sequences in general |
| `Crc16`, `CrcProperties` | the CRC (`crc16.c`): the table against bit-serial division, and what it detects |
| `Frames`, `Integrity`, `Packets`, `Requests` | the wire format, damage to it, the packet buffer, requests with paths (`tf_io.c`) |
| `Usb`, `Devices` | bulk transfers (`usb_io.c`) with short and failing kernel calls; the device at the other end |
| `Dirents` | file descriptions, packed and unpacked (`tf_io.c`) |
| `Protocol`, `Handles` | the calls of `tf_io.c` as step functions, and as methods of a handle that refine them |
| `Answers` | what each call makes of each reply, and what it says on the bus |
| `GetRuns`, `CancelRuns`, `Sessions`, `PutRuns` | whole downloads, cancellations, sequences of both, and uploads |
| `RoundTrips` | files put on a device and got back |
| `Listing`, `ListRuns`, `Stat` | directory listings and `tf_stat` (`tf_util.c`), as functions, on a conforming device, and as methods |
| `StoredErrors` | results against the error the handle keeps |
| `MakeName`, `MakeNameLaws`, `MakeNameRules` | `tf_makename` (`tf_util.c`) in its buffer, as a change of directory, and as rules on texts |
| `Mjd` | the calendar of `mjd.c`, after Annex C of ETSI EN 300 468 |
| `Firmware` | the boot loader protocol (`tf_fwio.c`) |

## The surroundings

* A kernel write takes any prefix of what it is given, or fails. A kernel read brings what was
  requested or the rest of the transfer, or fails. What is left of a partly read transfer is lost.
  `Usb.Pipe` keeps every result of the kernel and every transfer.
* A step function takes, as values, how each of its transfers went: a send is `Delivered`, `Lost`, or
  `Late` (reported as failed although all of the frame arrived; proved impossible for frames that
  need no padding), a read is `Heard`, `Silent` or `Broken`. These are no free choice of a method:
  `View.log` records every frame sent and every read with its value, and `Handles.Handle.Valid`,
  which every method keeps, says that the log and the transfers of the pipe correspond one to one and
  that each value is the function `ArrivedAs` or `Brought` of the bytes that were transferred.
* A conforming device takes a transfer for a message if it is whole and its CRC is right, and ignores
  it otherwise. It reads requests by `Requests.Understand`, keeps the files it is sent together with
  their descriptions, and takes a description before the data, and nothing else. FAIL and CANCEL make
  it idle. Any other message that arrives while a reply is unread,
  or that the protocol does not allow at that point, confuses it for good. So "the device is not
  `Confused`" says that the host never has two replies outstanding and never speaks out of turn.
* A scripted device sends any sequence of transfers of up to 0x10000 bytes, whatever it is told.

## Where code and documentation disagree

The model follows the code. Where a promise is kept for some inputs, a theorem says exactly for which,
and another names one for which it is not.

* `tf_io.h:110-115` says that results are stored in `tf->error`. `tf_cmd_get`, the `put` calls and the
  directory calls return results that they do not store: `StoredErrors.GetKept`, `PutKept`,
  `PutDataKept`, `PutDoneKept`, `AskKept`, with `GetNotKept`, `PutNotKept`, `PutDataNotKept`,
  `PutDoneNotKept`, `DirNotKept`.
* It also says that 0 means success and that failures are negative. A FAIL message with code 0 makes
  a call return 0 (`StoredErrors.GetZeroForFailure`, `CmdZeroForFailure`), and codes above 2^31 come
  back positive (`StoredErrors.FailCodeNegative`, `FailCodeDone`).
* `tf_io.h:281-287` says that error codes are negated before they are passed to `tf_send_fail`;
  `tf_cmd_get_cancel` passes `TF_ERR_CRC` as it is, so the reason sent is 0xFFFFFFFF
  (`Protocol.FAIL_CRC`).
* `tf_cmd_get_cancel` returns 0 when it read any reply at all, so 0 does not say that the transfer
  was cancelled (`CancelRuns.CancelMisled`, `AttemptMisled`).
* `tf_cmd_get_next` does not report that its acknowledgement of the end was lost; the device then
  refuses the next download (`GetRuns.DownloadEnds`, `NextDownload`).
* `tf_cmd_get` does not clear `pending` (`GetRuns.FirstNextExactly`, `AbandonedByCancel`).
* `tf_send` means never to transmit a multiple of 64 bytes. For exactly the odd lengths one short of
  one it does (`Requests.TransferShape`). No request with a path is among them.
* `tf_cmd_put` sends the size of the file in the host's byte order, while sizes are read big-endian
  (`Dirents.SizeRead`, `OneByteAnnounced`).
* `tf_util.h` says that `tf_stat` returns a negative number on error; it returns 1
  (`Stat.TfStat`).
* `tf_makename` treats empty components as real ones, so it behaves as chdir and is idempotent
  exactly when none is left innermost (`MakeNameLaws.ChangeDirectoryExactly`,
  `CanonicalTwiceExactly`, `CanonicalTwiceTextually`, with `ChangeFailsAt`, `TwiceFailsAt`).
* `tf_fw_upload_next` accepts 0x8000 bytes of data, for which it transmits one byte from behind its
  packet (`Firmware.TotalShape`, `Firmware.Padding`).
* On the bus the last data byte of an odd frame follows its padding, so a frame that loses exactly
  that byte is still complete in length; the CRC decides (`Integrity.Truncated`).
* `tf_bytes.h` calls the byte order little-endian; it is big-endian (`Bytes.Be32Get32`).

## Model

| member | source | states |
|---|---|---|
| Bytes.Get16Be16 | tf_bytes.c:32-45 | a 16-bit word survives storing and reading |
| Bytes.Get32Be32 | tf_bytes.c:54-85 | a 32-bit word survives storing and reading, although the writer takes quotients and the reader sums |
| Bytes.Get64Be64 | tf_bytes.c:87-114 | a 64-bit word survives storing and being read byte after byte |
| Bytes.Be32Get32 | tf_bytes.c:54-85 | every four bytes are the encoding of what they decode to |
| Bytes.Be64Get64 | tf_bytes.c:87-114 | every eight bytes are the encoding of what they decode to |
| Bytes.Get16Value | tf_bytes.c:32-37 | the word is the value of its two bytes, the first the more significant; read raw, the second |
| Bytes.Get24Value | tf_bytes.c:47-52 | the same for three bytes |
| Bytes.Get32Value | tf_bytes.c:54-59 | the same for four bytes |
| Bytes.Get64Value | tf_bytes.c:87-100 | the same for eight bytes, read one after the other |
| Bytes.Put16 | tf_bytes.c:39-45 | stores two big-endian bytes at a position and changes no other byte |
| Bytes.Put32 | tf_bytes.c:77-85 | stores four big-endian bytes likewise |
| Bytes.Put64 | tf_bytes.c:102-114 | stores eight big-endian bytes likewise |
| Bytes.ByteSwap | tf_bytes.c:116-134 | exchanges neighbouring bytes in place up to a count, and leaves the rest of the buffer |
| Bytes.SwapTwice | tf_bytes.c:116-134 | swapping is its own inverse |
| Bytes.Get16RawSwap | tf_bytes.c:69-74 | the raw read of a swapped buffer is the plain read of the restored one |
| Crc16.TableCorrect | crc16.c:29-62 | each of the 256 table entries is eight steps of division by the reflected polynomial 0xA001 |
| Crc16.Crc16Ansi | crc16.c:64-74 | the table loop computes the CRC of exactly the given stretch of the buffer, from any initial value |
| CrcProperties.CrcIsBitSerial | crc16.c:29-74 | for every initial value and message the CRC is the bit-serial, low-bit-first division |
| CrcProperties.CrcComposes | crc16.c:64-74 | the CRC of two pieces is the CRC of the second from the CRC of the first |
| CrcProperties.CrcLinear | crc16.c:64-74 | the CRC is linear over exclusive or, in register and message together |
| CrcProperties.FeedInjective | crc16.c:70 | a division step loses nothing: equal results come from equal registers |
| CrcProperties.BurstDetected | crc16.c:64-74 | messages of any length that differ in a burst of at most 16 consecutive bits have different CRCs |
| CrcProperties.ByteBurstDetected | crc16.c:64-74 | the same for byte strings, at any bit position |
| CrcProperties.TwoBytesDetected | crc16.c:64-74 | one or two adjacent bytes replaced anywhere change the CRC |
| CrcProperties.CrcParity | crc16.c:64-74 | the parity of the CRC is the parity of the initial value and the message together |
| CrcProperties.StoredParity | tf_io.c:150-169 | the two stored bytes of a CRC have its parity |
| Frames.RoundTrip | tf_io.c:150-169 | stamping, padding, swapping, restoring and checking return the same command and payload, for every frame that fits, with any bytes after it, CRC checked or not |
| Frames.RestoredWire | tf_io.c:288-338 | the receiver restores exactly the sender's image and pad byte |
| Frames.DecodeCut | tf_io.c:307-335 | an even number of bytes of any transfer is short or decodes like all of it |
| Integrity.DamagedWordRejected | tf_io.c:307-335 | any replacement of one aligned wire word behind the length gives the identical packet, when no byte of the frame changed, and TF_ERR_CRC in every other case |
| Integrity.OddFlipsRejected | tf_io.c:320-330 | an odd number of flipped bits across the CRC field and the covered bytes is reported |
| Integrity.ReceivedParity | tf_io.c:320-330 | whatever is received without error has even parity there |
| Integrity.BurstRejected | tf_io.c:320-330 | a burst of at most 16 bits in the covered bytes is reported |
| Integrity.Truncated | tf_io.c:307-318 | a transfer cut short is reported as short, except for an odd frame that lost one byte, which is right exactly if that byte was zero and a CRC error otherwise |
| Packets.Packet.Init | tf_io.c:134-143 | an empty packet with the command |
| Packets.Packet.Put8 | tf_io.c:171-177 | appends one byte to the data and changes neither the command nor the data before |
| Packets.Packet.Put16 | tf_io.c:179-185 | appends two big-endian bytes likewise |
| Packets.Packet.Put32 | tf_io.c:187-193 | appends four big-endian bytes likewise |
| Packets.Packet.Put64 | tf_io.c:195-201 | appends eight big-endian bytes likewise |
| Packets.Packet.PutData | tf_io.c:203-209 | appends the given bytes likewise, inside the packet |
| Packets.Packet.PutFilename | tf_io.c:217-244 | appends length prefix, name, terminator and padding, and ends on an even length; the name has no slash, a backslash exactly where the path has one or the other, and is the path elsewhere |
| Packets.Packet.Done | tf_io.c:150-169 | the buffer starts with the wire form of the frame that was built |
| Packets.SealedImage | tf_io.c:150-169 | storing length and CRC over a packet makes the image of its frame |
| Requests.PathRequestsEven | tf_io.c:217-272 | every request with a path has an even length and is never transmitted at a multiple of 64 |
| Requests.TransferShape | tf_io.c:254-272 | every transfer is even; it is a multiple of 64 exactly for lengths one short of one; it never passes the end of the packet structure |
| Requests.TakeNameField | tf_io.c:217-244 | the length prefix delimits the name, wherever the field starts and whatever follows |
| Requests.RenameDecodes | tf_io.c:493-503 | a rename payload decodes to its two paths, in order |
| Requests.SendUnderstood | tf_io.c:723-740 | the request to open a transfer decodes, from its frame, to direction, path and offset |
| Requests.NameAlone | tf_io.c:471-479 | a name without its length ends at its first zero, and only one or two zeros follow it |
| Requests.RequestUnderstood | tf_io.c:217-244 | every request with paths, delete, mkdir, dir, rename, get and put, decodes from its frame to the same request; each name in it is as long as the path, has no slash, has a backslash exactly where the path has a slash or a backslash, and is the path elsewhere |
| Requests.RequestsDiffer | tf_io.c:217-244 | different requests of any kind whose paths have no backslashes make different frames |
| Usb.BulkWrite | usb_io.c:59-102 | for every sequence of short or failed kernel calls the device got, in order, exactly the prefix whose length is returned, in slices of at most 0x4000; at least one call is made, and a short count means that the last one took nothing or failed; the loop ends |
| Usb.BulkRead | usb_io.c:104-144 | the buffer holds a prefix of the transfer and zeros; a short count means that the last kernel call failed, after whole slices; the loop ends |
| Dirents.CopyString | tf_io.c:510 | strcpy stays inside a field that has a terminator and copies what is before the first one |
| Dirents.UnpackDirent | tf_io.c:505-514 | reads the entry from its place in the buffer |
| Dirents.DescriptionRead | tf_io.c:505-514 | for every stamp, type byte, size, name, attributes and bytes between and behind them: only type 1 is a directory, the name ends at its first zero, and each field is read from its place |
| Dirents.RowRead | tf_io.c:516-544 | a row of packed descriptions is read as all of them, in order; a part of one at the end does not count |
| Dirents.FillTypeFile | tf_io.c:603-612 | fills in every byte of the description except what is behind the terminator of the name |
| Dirents.TypeFileRead | tf_io.c:505-514 | a description that was put is read back as a file with the name cut to 94 characters, no attributes, and the size as the host's order has it |
| Dirents.StampSurvives | mjd.c:32-98 | the time of a description comes back exactly up to 22 April 2038 |
| Dirents.SizeRead | tf_io.c:609 | the size comes back exactly from big-endian hosts, or when its bytes read the same both ways |
| Dirents.OneByteAnnounced | tf_io.c:609 | a little-endian host announces a file of one byte as 2^56 |
| Handles.SuccessPacket | tf_io.c:902-913 | the prepared constant bytes are a sealed SUCCESS frame |
| Handles.DecodeInPlace | tf_io.c:304-335 | restoring and checking in the buffer agrees with decoding the transfer, including both errors |
| Handles.Arrival | tf_io.c:251-286 | for every number of bytes that arrive: they agree with the frame, the device hears the frame exactly if the bytes are not to be called lost, and a frame without padding is never late |
| Handles.Hearing | tf_io.c:288-338 | for every number of bytes a read brings, decoding them is what the value that goes with that number says |
| Handles.Handle.Send | tf_io.c:251-286 | one transfer of the padded length whose bytes are a prefix of the packet; 0 exactly if connected and the bus took all of it, otherwise the last kernel call took nothing; refines SendStep |
| Handles.Handle.GetResponse | tf_io.c:288-338 | one transfer that brings a prefix of what the device offers, less than all only after a failed kernel call; refines ReceiveStep, and leaves length, command and data in the buffer |
| Handles.ToldMore | tf_io.c:251-338 | a log that tells what happened on the bus still does with one more transfer and its event |
| Handles.Handle.Cmd | tf_io.c:347-367 | refines CmdStep: SUCCESS, the code of a FAIL, or unexpected |
| Handles.Handle.CmdGet | tf_io.c:723-765 | refines GetStep; the caller's entry is unpacked from the description that came, and untouched otherwise |
| Handles.Handle.CmdGetNext | tf_io.c:767-831 | refines GetNextStep, pending included; its acknowledgements are never late |
| Handles.Handle.CmdGetCancel | tf_io.c:833-878 | refines the attempts: between one and five, five if it fails; pending is clear |
| Handles.Handle.CmdPut | tf_io.c:581-650 | refines PutStep, with the description made from path, size and time |
| Handles.Handle.CmdPutData | tf_io.c:652-688 | refines PutDataStep; timeout is restored on every path |
| Handles.Handle.CmdPutDone | tf_io.c:690-712 | refines PutDoneStep: a cancellation exactly when the device did not confirm |
| Handles.Handle.SendFail | tf_io.c:915-924 | sends the reason given, not negated |
| Handles.Handle.SendSuccess | tf_io.c:902-913 | sends the prepared bytes as the SUCCESS frame, never late |
| Handles.Handle.CmdCancel | tf_io.c:430-438 | refines CmdStep of a CANCEL frame |
| Handles.Handle.CancelAttempt | tf_io.c:851-871 | one turn of the loop refines AttemptStep: FAIL, CANCEL, and another read if that failed |
| Protocol.AttemptsAppend | tf_io.c:851-871 | a loop that tries once more is the attempts with one more at the end |
| Protocol.NegatedWraps | tf_io.c:347-367 | a code is negated as a 32-bit int: added to the code it wraps to 0 |
| GetRuns.Download | tf_io.c:723-831 | in every run, whatever is lost: the buffers are consecutive and a prefix of the file from the offset, all of it at DONE; the device never has two replies outstanding and is never spoken to out of turn; no frame is acknowledged twice; pending is set only with one reply waiting |
| GetRuns.NextKeeps | tf_io.c:767-831 | each call keeps: pending is set exactly when the last frame is acknowledged and its reply unread; the buffers so far are the device's chunks in order; however it ends, no more frames are acknowledged than were read |
| GetRuns.RunKeeps | tf_io.c:767-831 | the same over every run of calls |
| GetRuns.OpenKeeps | tf_io.c:723-765 | from a fresh state tf_cmd_get either begins a download or leaves the device unharmed, with nothing pending |
| GetRuns.OpenBegins | tf_io.c:723-765 | a download that begins is of the file and offset asked for |
| GetRuns.OpenExactly | tf_io.c:723-765 | tf_cmd_get from a fresh state returns 0 exactly when both transfers go well and the device has the file and the offset |
| GetRuns.NextEnds | tf_io.c:785-791 | a call that returns DONE has sent the acknowledgement of the end: one more frame is acknowledged and the device is idle exactly if it arrived |
| GetRuns.RunEnds | tf_io.c:767-831 | the same for every run of calls that ends in DONE, whatever was lost before |
| GetRuns.DownloadEnds | tf_io.c:785-791 | when a download has ended in DONE: every frame read, description, buffers and end, was acknowledged exactly once, and the device is as it was before the download, ready for the next request, all exactly if the acknowledgement of the end, whose loss is not reported, arrived |
| GetRuns.NextDownload | tf_io.c:723-831 | after it the next download opens exactly if that acknowledgement arrived, its own transfers go well, and the device has the file and the offset |
| GetRuns.NextSucceeds | tf_io.c:767-831 | a call whose acknowledgement the bus took and whose reply it brought does not fail |
| GetRuns.RunFinishes | tf_io.c:767-831 | lost early acknowledgements cost nothing: one call per chunk and one more end in DONE |
| GetRuns.RetrySafe | tf_io.c:767-790 | a call that failed because its acknowledgement was lost may be repeated |
| GetRuns.StalePending | tf_io.c:723-790 | with pending left over, the next download opens and its first tf_cmd_get_next fails |
| GetRuns.AbandonedByCancel | tf_io.c:430-438 | a download given up by tf_cmd_cancel leaves the device ready and pending set |
| GetRuns.FirstNextExactly | tf_io.c:723-790 | after an open, a first tf_cmd_get_next with good transfers fails exactly when pending was set before |
| CancelRuns.AttemptsCancels | tf_io.c:833-878 | whatever the device does, n attempts send at most n cancellations, exactly n if none succeeds |
| CancelRuns.AttemptMode | tf_io.c:851-871 | an attempt leaves the device idle if one of its two messages reached it, and as it was if not |
| CancelRuns.AttemptSucceeds | tf_io.c:851-871 | when the cancellation arrives and its answer is read, one attempt returns 0 and leaves nothing to read, whatever state the device was in |
| CancelRuns.CancelIdles | tf_io.c:833-878 | after the whole call the device is idle exactly if it was before or a message of an attempt that was made reached it |
| CancelRuns.CancelSucceeds | tf_io.c:851-871 | as soon as one cancellation arrives and its answer is read the loop returns 0 |
| CancelRuns.CancelMisled | tf_io.c:833-878 | the whole call returns 0 with the device still sending exactly when a reply was waiting that it did not drop, no message arrived, and an attempt read that reply |
| CancelRuns.AttemptMisled | tf_io.c:851-871 | a case of it |
| Sessions.PendingExactly | tf_io.h:205-230 | after every sequence of get, get_next and get_cancel calls that tf_io.h allows, whatever is lost: pending is set exactly when a transaction is active and the one reply is waiting, and then the download is in progress; so it is clear after DONE, errors and cancels |
| Sessions.SessionSound | tf_io.c:723-878 | the invariant behind it, over every such sequence |
| Sessions.OpenSound | tf_io.c:723-765 | tf_cmd_get keeps it, also on a device that was left in the middle of something |
| Sessions.MoreSound | tf_io.c:767-831 | tf_cmd_get_next keeps it |
| Sessions.GiveUpSound | tf_io.c:833-878 | tf_cmd_get_cancel keeps it |
| PutRuns.PieceFits | tf_io.h:37 | a data frame fits the 16-bit length exactly up to one byte more than MAX_PUT_SIZE |
| PutRuns.PutOpens | tf_io.c:581-650 | tf_cmd_put returning 0 from a fresh state means that the device has the description given, byte for byte, and stores over the old contents |
| PutRuns.PutExactly | tf_io.c:581-650 | tf_cmd_put from a fresh state returns 0 exactly when all four transfers go well and what it sends is a description |
| PutRuns.StoreStarted | tf_io.c:603-618 | the device takes a whole description with a terminated name at that point, and nothing else |
| PutRuns.PutDataKeeps | tf_io.c:652-688 | a data call returning 0 means that the device has written the piece at its offset |
| PutRuns.PutDataExactly | tf_io.c:652-688 | a data call returns 0 exactly when both transfers go well and the piece ends within 64 bits |
| PutRuns.PutRunKeeps | tf_io.c:652-688 | the same over every run of data calls |
| PutRuns.DoneStores | tf_io.c:690-712 | tf_cmd_put_done returning 0 means that exactly this file has the new contents and the description, and all else on the device is as before |
| PutRuns.DoneExactly | tf_io.c:690-712 | tf_cmd_put_done returns 0 exactly when the end is sent and its answer read |
| PutRuns.Upload | tf_io.c:581-712 | when every call returned 0 the device has the file, which is the old one overwritten by the pieces in call order, and the description given to tf_cmd_put, and nothing else has changed |
| PutRuns.WrittenConsecutive | tf_io.c:652-688 | consecutive pieces from the start replace the beginning of the file by their contents |
| PutRuns.PutDataTouchesNothing | tf_io.c:652-688 | however a data call goes, timeout and the files on disk stay |
| RoundTrips.PutThenGet | tf_io.c:581-765 | a file that was put opens exactly from the offsets it has, and the description that comes is the one it was put with |
| RoundTrips.PutThenDownload | tf_io.c:581-831 | what is then read is what was written, whatever is lost, and all of it at DONE |
| RoundTrips.NewFileReturns | tf_io.c:581-831 | a new file put piece by piece from the start comes back byte for byte |
| RoundTrips.PutThenEntry | tf_io.c:603-618 | the entry a caller of tf_cmd_get sees: a file under the first 94 characters of its path; the size exactly from big-endian hosts or when its bytes read the same both ways; the time exactly up to 22 April 2038 |
| Listing.EntriesFit | tf_io.c:524-531 | no reply overruns the caller's array of 595 entries |
| Listing.FindIsFirst | tf_util.c:71-80 | a name is found exactly when it occurs, and then its first entry |
| Listing.PathDivides | tf_util.c:48-65 | for every directory and every name without a slash: on their joined path tf_stat searches that directory, or the root if it is empty, for that name |
| Listing.SearchFinds | tf_util.c:65-92 | whatever is lost, the nested loops have found exactly the first entry with the name among all those received so far |
| Listing.SearchIsListing | tf_util.c:65-92 | the search, which stops at a hit, decides as a search of the listing carried on to its first result other than 0 would |
| Listing.StatIsListing | tf_util.c:29-94 | the same for tf_stat, on the path of any name in any directory |
| Listing.StatFinds | tf_util.c:29-94 | when tf_stat is over on the path of a name in a directory: found exactly when the name is among the entries received before the first result other than 0, and then the first; on a miss there was such a result |
| Listing.SearchSends | tf_util.c:65-92 | whatever is lost, each batch gone through without a hit is acknowledged once, the end once, nothing else; a hit is cancelled once |
| Listing.StatSends | tf_util.c:29-94 | the same for tf_stat on a path below the root |
| Listing.StatSilent | tf_util.c:33-52 | on any other path nothing is sent: the root is a directory of size 0 without a date, and nothing else is found |
| ListRuns.NextBatch | tf_io.c:566-573 | each call brings exactly the next batch of the directory, DONE comes only behind the last, the device never has two replies outstanding, and after DONE it is idle if the end was acknowledged |
| ListRuns.FirstBatch | tf_io.c:549-564 | the first call likewise, or a directory the device does not have is refused |
| ListRuns.StatDirectory | tf_util.c:29-94 | on a conforming device, for the path of any name in a directory it has, whatever is lost: the batches received are that directory's, each once and in order; a hit, or a miss at DONE, is right for the whole directory |
| ListRuns.StatNoDirectory | tf_util.c:29-94 | in a directory the device does not have nothing is found, and that does no harm |
| ListRuns.StatListing | tf_util.c:29-94 | when nothing is lost, one call per batch decides for the whole of the directory in the path, and the device is then as it was, ready for the next request |
| StoredErrors.GetKept | tf_io.h:110-115 | tf_cmd_get stores its result unless a reply was read that is neither a description nor a failure with code 0; it returns 0 exactly for these two |
| StoredErrors.PutKept | tf_io.h:110-115 | tf_cmd_put likewise, over its two exchanges |
| StoredErrors.PutDataKept | tf_io.h:110-115 | tf_cmd_put_data stores its result unless a reply other than SUCCESS was read |
| StoredErrors.PutDoneKept | tf_io.h:110-115 | tf_cmd_put_done stores its result unless it cancelled and the cancellation came to something else |
| StoredErrors.AskKept | tf_io.h:110-115 | the listing calls store their result unless a reply was read that is no batch; DONE is never stored |
| StoredErrors.CmdKept | tf_io.c:340-367 | tf_cmd always stores its result; it returns 0 exactly for SUCCESS and for a failure with code 0 |
| StoredErrors.GetNotKept | tf_io.c:723-765 | a reply for which tf_cmd_get fails and 0 stays stored |
| StoredErrors.GetZeroForFailure | tf_io.c:755-759 | a failure for which tf_cmd_get returns 0 |
| StoredErrors.CmdZeroForFailure | tf_io.c:353-356 | the same for tf_cmd |
| StoredErrors.PutNotKept | tf_io.c:581-650 | a reply for which tf_cmd_put fails and 0 stays stored |
| StoredErrors.PutDataNotKept | tf_io.c:652-688 | the same for tf_cmd_put_data |
| StoredErrors.PutDoneNotKept | tf_io.c:690-712 | the same for tf_cmd_put_done, after a cancellation that went well |
| StoredErrors.DirNotKept | tf_io.c:566-573 | tf_cmd_dir_next returns DONE and 0 stays stored |
| StoredErrors.FailCodeNegative | tf_io.h:110-115 | a failure is reported as a negative number exactly for codes from 1 to 2^31 |
| StoredErrors.FailCodeDone | tf_io.c:347-367 | the code 0xFFFFFFFF is reported as 1, which is DONE |
| Answers.FailureReported | tf_io.c:347-367 | the code of a FAIL message is reported negated, as a 32-bit int, whatever follows it |
| Answers.CmdAnswers | tf_io.c:347-367 | for every reply to tf_cmd: the message and one read on the bus, and 0 for SUCCESS, the code for FAIL, -100 for anything else |
| Answers.GetAnswers | tf_io.c:723-765 | for every reply to tf_cmd_get: the request and one read, and 0 for a description, the code for FAIL, -100 for anything else |
| Answers.AskAnswers | tf_io.c:516-573 | for every reply to a listing call: 0 with the entries of a batch, 1 for the end, which is acknowledged, -100 for anything else |
| Answers.PutAnswers | tf_io.c:581-650 | for every reply to the request of tf_cmd_put other than SUCCESS: no description is sent |
| Answers.StartAnswers | tf_io.c:603-650 | for every reply to the description: it was sent as given, and only SUCCESS gives 0 |
| Answers.PutDataAnswers | tf_io.c:652-688 | for every reply to a piece: offset and data on the bus, then a read with twice the time, and only SUCCESS gives 0 |
| Answers.PutDoneAnswers | tf_io.c:690-712 | for every reply to the end: any but SUCCESS gives -100 and a CANCEL is sent |
| Answers.PutDoneUnanswered | tf_io.c:690-712 | without a reply the CANCEL is sent too; if the end could not be sent it is not |
| Answers.NextAnswers | tf_io.c:767-831 | for every reply to tf_cmd_get_next, pending or not: an acknowledgement first unless pending, one read, and an acknowledgement of data and of the end; 0, 1, -101 for FAIL, -100 for anything else; pending exactly if the early acknowledgement of data was sent |
| Answers.NextReplyBrings | tf_io.c:793-818 | the buffer has the offset and the data of the message |
| Answers.DrainAnswers | tf_io.c:838-849 | a pending reply is read and dropped before cancelling |
| Answers.AttemptAnswers | tf_io.c:851-871 | an attempt sends FAIL with the bytes FF FF FF FF, then CANCEL, and is done at SUCCESS |
| Answers.BusFails | tf_io.c:251-338 | a call whose message is lost, or that gets no whole reply, returns -101 |
| Answers.NextBusFails | tf_io.c:767-831 | the same for tf_cmd_get_next, which sends no message first if pending |
| Answers.NoDevice | tf_io.c:251-338 | without a device every call returns -102, and nothing is sent or read |
| Answers.NoDeviceToCancel | tf_io.c:851-871 | so do all attempts to cancel |
| Answers.DamageReported | tf_io.c:320-335 | a reply with one aligned word damaged behind the length is reported as -1, or read as it was sent if the damage is outside the packet; with the CRC off it is taken as it comes |
| Stat.CmdRename | tf_io.c:493-503 | refines CmdStep of the rename request |
| Stat.GetDirents | tf_io.c:516-544 | refines DirentsStep; the array holds the entries of the reply in order |
| Stat.CmdDirFirst | tf_io.c:549-564 | refines DirFirstStep |
| Stat.CmdDirNext | tf_io.c:566-573 | refines DirNextStep |
| Stat.FindIn | tf_util.c:71-80 | the inner loop finds the first entry with the name |
| Stat.LastSlashIn | tf_util.c:48-63 | the backwards search finds the last slash, or that there is none |
| Stat.DirNextLess | tf_util.c:69-85 | each batch received is one fewer to come, for every device, so the search ends |
| Stat.SearchBatches | tf_util.c:65-92 | the outer loop refines Search: handle, result, batches seen and last result; it ends with a hit or with a result other than 0 |
| Stat.TfStat | tf_util.c:29-94 | refines StatStep; 0 with the entry, or 1, and below the root 1 only after a result other than 0 |
| MakeName.TfMakeName | tf_util.c:96-189 | the buffer, just large enough for the worst case and never overrun, holds the rendering of the component stack that the resolver builds |
| MakeName.CopyPath | tf_util.c:122-177 | the in-place loop with its cursor and back-ups computes the scan, and its cursor stays between 1 and the input consumed |
| MakeName.CopyStep | tf_util.c:122-143 | one turn consumes a ".." component or copies one character; what remains to be scanned gives the same result |
| MakeName.BackUp | tf_util.c:124-141 | cutting the string and searching for its last slash backs up to the previous boundary, in place |
| MakeName.StrRChr | tf_util.c:124-141 | the last slash before the first zero |
| MakeName.Finish | tf_util.c:180-184 | one trailing slash is removed, but not the root's, and the string is terminated inside the buffer |
| MakeName.BackPrefix | tf_util.c:124-141 | the backwards search lands on the previous component boundary, or stays at the root |
| MakeName.UpNextIsDotDot | tf_util.c:122-143 | the character tests recognise exactly the component ".." |
| MakeName.ScanWalks | tf_util.c:122-177 | for every text and stack, scanning characters is walking components |
| MakeName.CopiedIsResolved | tf_util.c:113-177 | for every directory and file name, the copied text is the resolved path |
| MakeNameLaws.ResolvedNoDotDot | tf_util.h:37-50 | no component of a result is ".." |
| MakeNameLaws.SplitRender | tf_util.c:96-189 | a rendered path reads back as its components |
| MakeNameLaws.CanonicalTwiceExactly | tf_util.h:37-50 | canonicalising a result changes something exactly when the inputs resolve to a path longer than one component whose last is empty |
| MakeNameLaws.CanonicalTwiceTextually | tf_util.h:37-50 | without "..": exactly when the file name, or the directory if there is none, ends in two slashes behind a leading one |
| MakeNameLaws.TwiceFailsAt | tf_util.c:96-189 | "a//" is such an input |
| MakeNameLaws.ChangeDirectoryExactly | tf_util.h:37-50 | changing to f and then to g is changing to f/g, for every g, exactly when f leaves no empty component innermost |
| MakeNameLaws.ChangeDirectoryTextually | tf_util.h:37-50 | if the last component of f is not "..", the law holds for every g exactly when f does not end in a slash |
| MakeNameLaws.ChangeFailsAt | tf_util.c:96-189 | "a/" from the root is a case in which it fails |
| MakeNameLaws.ChangeDirectoryFails | tf_util.c:96-189 | when it does, g = "x" shows the difference |
| MakeNameLaws.ChangeDirectoryOrdinary | tf_util.h:37-50 | chdir holds for inputs without double slashes and f relative, not empty and without a trailing slash |
| MakeNameLaws.CanonicalOrdinary | tf_util.h:37-50 | idempotent for inputs without double slashes |
| MakeNameRules.DirectoryAlone | tf_util.h:37-50 | a directory without "..": the text with one leading slash, and without one trailing one |
| MakeNameRules.NameInDirectory | tf_util.h:37-50 | a relative file name behind a directory, both without "..": the texts with a slash between them if there is none, and without one trailing one |
| MakeNameRules.AbsoluteIgnoresDirectory | tf_util.h:37-50 | a file name that begins with a slash ignores the directory |
| MakeNameRules.LeadingSlash | tf_util.h:37-50 | "/abc" and "abc" are the same directory |
| MakeNameRules.DirectoryDownAndUp | tf_util.c:122-143 | anywhere in a directory a component and the ".." behind it may be left out, also at its end |
| MakeNameRules.NameDownAndUp | tf_util.c:146-177 | the same anywhere in a relative file name, from every directory |
| MakeNameRules.RootStays | tf_util.c:124-141 | ".." at the root stays at the root |
| MakeNameRules.NameClimbs | tf_util.c:146-177 | a file name that begins with ".." leaves the last component of the directory |
| MakeNameRules.CaseRoot | test_makename.c:39-42 | the cases of test_makename.c for all names that are neither empty nor "..": the root, however it is given, is "/" |
| MakeNameRules.CaseInRoot | test_makename.c:43-45 | a file in the root |
| MakeNameRules.CaseInDirectory | test_makename.c:46-52 | a file in a directory, with or without slashes around the directory |
| MakeNameRules.CaseAbsolute | test_makename.c:47-53 | an absolute file, with or without a slash behind it, from any directory |
| MakeNameRules.CaseUpInDirectory | test_makename.c:54 | ".." behind a directory |
| MakeNameRules.CaseUpFromRoot | test_makename.c:55 | ".." at the root |
| MakeNameRules.CaseUpInName | test_makename.c:56-57 | ".." as the file name, and before another name |
| Mjd.DayCountCounts | mjd.c:76-93 | the reference calendar starts at 15079 on 1 March 1900 and adds one for each next day |
| Mjd.EncodeIsDayCount | mjd.c:79-94 | the closed form is the day count, for every date from 1 March 1900 with a leap day every fourth year |
| Mjd.EncodeIsGregorian | mjd.c:79-94 | for Gregorian dates from 1900 it is right exactly up to 28 February 2100 |
| Mjd.DecodeEncode | mjd.c:45-57 | decoding undoes encoding from 1 March 1900 |
| Mjd.EncodeDecode | mjd.c:45-57 | every day number from 15079 up decodes to a valid date, which encodes to it |
| Mjd.ComesBack | mjd.c:45-94 | among Gregorian dates from 1900 exactly those from 1 March 1900 come back |
| Mjd.EncodeMonotone | mjd.c:79-94 | a later date has a larger number |
| Mjd.StoredDate | mjd.c:94-97 | a date survives 16-bit storage exactly up to 22 April 2038 |
| Mjd.QuotientMargins | mjd.c:45-46 | neither quotient of the decoder comes near a whole number |
| Mjd.ProductMargins | mjd.c:46-47 | nor do the month products of either direction, and the year products have two binary places at most, so that rounding cannot change what is cut off |
| Mjd.MonthNumbers | mjd.c:46-94 | these are the month numbers that occur |
| Mjd.TfDatetime.FromTm | mjd.c:74-98 | stores day number, hour, minute and second of a local time |
| Mjd.TfDatetime.ToTm | mjd.c:32-71 | all ones is no date; anything else is the decoded local time |
| Mjd.StampIsDate | mjd.c:32-71 | a stamp is no date exactly if all its bits are set; any other is the time it stores, on the date whose day number it stores, from 1 March 1900 |
| Firmware.CalcChecksum | tf_fwio.c:103-112 | the loop computes the sum of exactly the given stretch |
| Firmware.SumIsAdded | tf_fwio.c:103-112 | the checksum is the sum of the bytes modulo 256, from any start |
| Firmware.WireLaid | tf_fwio.c:119-134 | where everything is in a transmitted frame: mark, sequence number, command, length, data and the sum of all but the mark |
| Firmware.Packet.PutData | tf_fwio.c:130-134 | appends the data behind the header |
| Firmware.Packet.Done | tf_fwio.c:119-128 | the buffer starts with the wire form of the frame that was built, for the largest data with the byte behind the structure |
| Firmware.RoundTrip | tf_fwio.c:119-134 | a frame survives transmission with its padding |
| Firmware.DamagedByteRejected | tf_fwio.c:119-128 | any one changed byte outside the length is noticed |
| Firmware.TotalShape | tf_fwio.c:145-160 | the transmitted size is even, a multiple of 0x200 exactly when it is 0x4000, and inside the packet exactly for less than 0x8000 bytes of data |
| Firmware.TotalLeast | tf_fwio.c:145-160 | no smaller size holds the packet, is even and is not a multiple of 0x200 other than 0x4000 |
| Firmware.AnswerRequest | tf_fwio.c:257-264 | for all bytes of a request: sequence number, then two bytes of length, then three of offset |
| Firmware.AnswerFrame | tf_fwio.c:265-272 | every other frame is the end (1) or unexpected (-1); only command 2 identifies the loader |
| Firmware.AnswerShort | tf_fwio.c:203-256 | a reply shorter than its header or its length, or no connection, gives -1 |
| Firmware.Handle.Send | tf_fwio.c:141-201 | for every behaviour of the bus the bytes accepted are in order a prefix of the padded packet, in slices of at most 0x4000; 0 exactly if connected and all arrived, otherwise the last kernel call took nothing |
| Firmware.Handle.GetResponse | tf_fwio.c:203-241 | a prefix of the next transfer in a cleared buffer; 0 exactly if connected and the declared length arrived |
| Firmware.Handle.WaitForReqData | tf_fwio.c:243-272 | the result and the block asked for are what the reply says |
| Firmware.Handle.Upload | tf_fwio.c:274-297 | announces, expects the identification, and returns the loader's first request |
| Firmware.Handle.UploadNext | tf_fwio.c:299-323 | sends the block under the sequence number asked for, up to 0x8000 bytes; a failed send asks for nothing; too much data touches nothing |

## Left out

- Kernel and operating system: device discovery, opening, locking, signals, clocks and time zones are not modelled; a bulk transfer is a nondeterministic count and dates are `tm` fields.
- Tracing and error strings: `print_packet`, `tf_command_name` and `tf_strerror` change nothing.
- Short fixed sequences: `tf_init`, ready, reset, turbo, size, delete, mkdir, put cancel and firmware reboot would add only more uses of `Cmd` and `Send`.
- Sorting: `qsort` is a library routine, and the comparators add only easy members.
- Aliasing of results: `tf_cmd_get_next` returns a pointer into a buffer of the handle and `tf_makename` one into a static buffer; the model returns a value and a fresh array.
- Host byte order of the packet structure: length and command are separate fields until a packet is sealed.
- The two copying loops of `tf_makename`, which are the same text twice, are one method, `MakeName.CopyPath`.
- Handles.DecodeInPlace: does not model replies that declare fewer than eight bytes, because from there the source reads its buffer with a negative length.
- Replies whose commands lack their fields, and descriptions whose names are not terminated: the source reads what is not theirs; `Devices.Meaningful` excludes them.
- Requests that do not fit a packet: the source does not check the length of a path; a precondition excludes them.
- Overflow of `timeout * 2` in `tf_cmd_put_data`: the timeout is an unbounded integer.
- Rounding of floating-point numbers in `mjd.c`: they are exact reals; `Mjd.QuotientMargins` and `Mjd.ProductMargins` say how far rounding would have to go to matter.
