# TAOLST framing, modelled in Dafny

The model covers the framing core of `01-rx/rx_test.py`, the ground-side script for the TAOLST serial protocol.

A TAOLST frame occupies a 258-byte buffer:
- start bytes `0x22 0x69`;
- a length byte `L >= 6`;
- a little-endian hardware id and message id;
- a route byte holding the source role in its high nibble and the destination role in its low nibble;
- an opcode;
- `L - 6` payload bytes.

A frame puts `L + 3` bytes on the wire.

The project has five modules:

- `Taolst` (`taolst.dfy`) holds what the other modules share:
  - the protocol constants;
  - little-endian encoding, and the 16- and 32-bit field extraction of `cmd_bytes_to_str`;
  - the route nibbles;
  - the two name lookups;
  - `Describe`, which gives the integer fields that `cmd_bytes_to_str` renders.
- `Decoder` (`decoder.dfy`) models the receive buffer `RxCmdBuff`.
  - `Step` is one `append_byte` transition on a value snapshot of the buffer. `FeedAll` feeds a byte sequence.
  - The class `RxCmdBuff` keeps the source's fields in place, with the buffer as a 258-element array. Its `AppendByte` is proved to perform `Step`.
- `Encoder` (`encoder.dfy`) models the frame builder `TxCmd`.
  - `Created` and the `With...` functions give the buffer that the constructor and each setter produce.
  - The class `TxCmd` does the same writes in place, with the source's loops, and is proved against those functions.
- `Reply` (`reply.dfy`) models `TxCmdBuff.generate_reply`.
  - The function `Reply` gives the reply buffer, and lemmas state the opcode table row by row.
  - The class `TxCmdBuff` builds the reply in place.
- `Link` (`link.dfy`) connects the encoder to the decoder. It holds the round trip of a `TxCmd` frame, and the driver's send loop for the reply buffer with the serial line taken out.

## Model

| member | source | states |
|---|---|---|
| Taolst.ByteCount | 01-rx/rx_test.py:317-318 | `get_byte_count()` of either buffer (also 391-392 and 483-484): between 3 and 258, and at least 9 exactly when the length byte is at least 6 |
| Taolst.FramedByteCount | 01-rx/rx_test.py:317-318 | a buffer with valid start bytes and a length of at least 6 has a byte count between 9 and 258 |
| Taolst.Field16 | 01-rx/rx_test.py:186-191 | the 16-bit id read from two bytes lies in [0, 2^16) |
| Taolst.Field32 | 01-rx/rx_test.py:128-133 | the 32-bit field read from four bytes lies in [0, 2^32) |
| Taolst.Le16 | 01-rx/rx_test.py:208-211 | the two shifted and masked bytes the constructor writes for an id are two bytes that read back as the id modulo 2^16 |
| Taolst.Field16Encodes | 01-rx/rx_test.py:186-191 | re-encoding a decoded 16-bit field gives back the same two bytes |
| Taolst.Le32 | 01-rx/rx_test.py:259-262 | the four shifted and masked bytes of an integer (also at 270-277 and 434-435) are four bytes that read back as the integer modulo 2^32 |
| Taolst.Field32Encodes | 01-rx/rx_test.py:128-133 | re-encoding a decoded 32-bit field gives back the same four bytes |
| Taolst.Field32At | 01-rx/rx_test.py:136-148 | four little-endian bytes of `x` anywhere in a buffer decode to `x` modulo 2^32 |
| Taolst.SrcOf | 01-rx/rx_test.py:192-193 | the source role taken from the high nibble lies in [0, 16) |
| Taolst.DstOf | 01-rx/rx_test.py:194-195 | the destination role taken from the low nibble lies in [0, 16) |
| Taolst.Route | 01-rx/rx_test.py:212 | the route byte built from roles below 16 splits back into those two roles |
| Taolst.RouteEncodes | 01-rx/rx_test.py:192-195 | every route byte is the route of its two nibbles |
| Taolst.SwapNibbles | 01-rx/rx_test.py:422-424 | the swapped route byte has source and destination exchanged |
| Taolst.SwapNibblesInvolution | 01-rx/rx_test.py:422-424 | swapping the nibbles twice gives the original route byte |
| Taolst.SwapNibblesExample | 01-rx/rx_test.py:422-424 | route 0x1a (comm to ctrl) becomes 0xa1 |
| Taolst.DestIdToName | 01-rx/rx_test.py:94-104 | the name is comm, ctrl, expt or term for roles 1, 10, 2 and 0 (one ensures per role), and "?" exactly for every other id |
| Taolst.DestIdNamesDistinct | 01-rx/rx_test.py:94-104 | two different known roles have different names |
| Taolst.AckReasonToName | 01-rx/rx_test.py:107-115 | the name is pong, erased or jump for reasons 0, 1 and 0xff (one ensures per reason), and "?" exactly for every other reason |
| Taolst.AckReasonNamesDistinct | 01-rx/rx_test.py:107-115 | two different known reasons have different names |
| Taolst.PayloadBytes | 01-rx/rx_test.py:152-153 | the rendered payload has `L - 6 - drop` bytes, where `drop` is 1 for the write-page page and 0 otherwise, or none when that count is not positive |
| Taolst.DescribeDetail | 01-rx/rx_test.py:121-185 | the opcode alone selects the set-time, telemetry, write-page and ascii details; the reboot delay exactly at length 0x0a and the ack reason and erase status exactly at length 7; telemetry and ascii carry `L - 6` bytes, the write-page detail carries byte 9 as its page number and 128 page bytes exactly at length 0x87 |
| Taolst.Describe | 01-rx/rx_test.py:118-197 | the opcode is byte 8, the ids re-encode to bytes 3-4 and 5-6, and the two roles are below 16 and rebuild byte 7 |
| Decoder.Cleared | 01-rx/rx_test.py:328-338 | the cleared decoder satisfies the invariant with nothing consumed, and it is the only state in START_BYTE_0 that does |
| Decoder.Step | 01-rx/rx_test.py:340-389 | one byte keeps the decoder invariant: the buffer before the length byte is cleared apart from the start bytes seen; after it, `end_index = L+3 <= 258`, `start_index` stays 9 until the opcode is stored, stays strictly below `end_index` in DATA, and equals it in COMPLETE |
| Decoder.FeedAll | 01-rx/rx_test.py:340-389 | any byte sequence keeps the decoder invariant |
| Decoder.FeedAllAppend | 01-rx/rx_test.py:340-389 | feeding `a + b` equals feeding `a` and then `b` |
| Decoder.FeedAllSnoc | 01-rx/rx_test.py:340-389 | feeding one more byte is one more step |
| Decoder.NoiseBeforeStart | 01-rx/rx_test.py:341-344 | in START_BYTE_0 any byte but 0x22 changes nothing; 0x22 is stored and moves to START_BYTE_1 |
| Decoder.CompleteIgnoresBytes | 01-rx/rx_test.py:388-389 | in COMPLETE every byte sequence leaves the decoder unchanged |
| Decoder.Resynchronises | 01-rx/rx_test.py:345-358 | a second byte other than 0x69, or a length byte below 6, gives the cleared decoder |
| Decoder.NoiseIgnored | 01-rx/rx_test.py:341-344 | a run of bytes without 0x22 leaves a cleared decoder cleared |
| Decoder.NoisePrefixIgnored | 01-rx/rx_test.py:341-344 | any prefix after which a cleared decoder is still cleared (noise without 0x22, or a false start such as `22 00`) does not change what the stream decodes to |
| Decoder.FalseStartIgnored | 01-rx/rx_test.py:345-350 | 0x22 followed by any byte other than 0x69 leaves a cleared decoder cleared |
| Decoder.RepeatedStartByteNotResynchronised | 01-rx/rx_test.py:345-350 | `22 22 69` leaves the decoder cleared: the rejected 0x22 is not examined again |
| Decoder.ShortLengthRejected | 01-rx/rx_test.py:351-358 | start bytes followed by a length below 6 leave the decoder cleared |
| Decoder.StepStores | 01-rx/rx_test.py:359-387 | after the length byte, each byte is stored at the next index 3..L+2 and COMPLETE is entered exactly when that index reaches `end_index`, which covers L = 6 directly from OPCODE |
| Decoder.FeedBody | 01-rx/rx_test.py:359-387 | from any point after the length byte, the next frame bytes are stored in order and COMPLETE holds exactly at `end_index` |
| Decoder.FeedHeaderStart | 01-rx/rx_test.py:341-356 | a frame's first three bytes leave the decoder in HWID_LSB with `start_index` 9 and `end_index` equal to the byte count |
| Decoder.DecodeFrame | 01-rx/rx_test.py:340-389 | feeding a valid frame's byte count of bytes into a cleared decoder reaches COMPLETE, with the same bytes, zeros after them and the same byte count |
| Decoder.NotCompleteEarly | 01-rx/rx_test.py:374-387 | COMPLETE is not reached before the last byte of a frame |
| Decoder.RxCmdBuff.constructor | 01-rx/rx_test.py:328-332 | a fresh decoder is the cleared snapshot |
| Decoder.RxCmdBuff.Clear | 01-rx/rx_test.py:334-338 | clearing reallocates a zero buffer and resets state and cursors |
| Decoder.RxCmdBuff.AppendByte | 01-rx/rx_test.py:340-389 | the in-place update of the fields and the array is exactly `Step` |
| Decoder.RxCmdBuff.GetByteCount | 01-rx/rx_test.py:391-392 | once a length byte is accepted the byte count is `end_index`, between 9 and 258; before that it is 3 |
| Encoder.DefaultLength | 01-rx/rx_test.py:214-254 | the default length is 0x0e for set-time, 0x54 for telemetry, 0x07 for write-page and 6 for every other opcode |
| Encoder.Created | 01-rx/rx_test.py:204-254 | the 258-byte buffer the constructor builds; its properties are stated by `Encoder.CreatedDecodes` |
| Encoder.CreatedDecodes | 01-rx/rx_test.py:204-254 | the constructor's frame is well formed with the default length, a byte count in [9, 258] and a zero payload, and it reads back as the given opcode, ids modulo 2^16 and roles |
| Encoder.HeaderThenLength | 01-rx/rx_test.py:205-254 | the header written over a zero buffer, plus the default length, is the constructor's buffer |
| Encoder.WithRebootDelay | 01-rx/rx_test.py:256-266 | no change unless the opcode is reboot; otherwise length 0x0a, the delay modulo 2^32 at 9..12, nothing else changed |
| Encoder.WithTime | 01-rx/rx_test.py:268-285 | no change unless the opcode is set-time; otherwise sec and ns modulo 2^32 at 9..16, nothing else changed, the length included |
| Encoder.WithTelemetry | 01-rx/rx_test.py:287-290 | no change unless the opcode is telemetry and there are exactly 78 bytes; otherwise those bytes at 9..86, nothing else changed |
| Encoder.WithAckReason | 01-rx/rx_test.py:292-295 | no change unless the opcode is bootloader ack; otherwise length 7 and the reason at 9, nothing else changed |
| Encoder.WithEraseStatus | 01-rx/rx_test.py:297-300 | no change unless the opcode is bootloader erase; otherwise length 7 and the status at 9, nothing else changed |
| Encoder.WithWritePage | 01-rx/rx_test.py:302-308 | no change unless the opcode is write-page; otherwise the page number at 9, and only for exactly 128 bytes length 0x87 and the page at 10..137, nothing else changed |
| Encoder.Codes | 01-rx/rx_test.py:314-315 | one character code per character |
| Encoder.WithAscii | 01-rx/rx_test.py:310-315 | no change unless the opcode is ascii and the text has at most 249 characters; otherwise length 6 plus the text length, the codes at 9 onwards, nothing else changed |
| Encoder.RebootDelayDescribed | 01-rx/rx_test.py:125-133 | after `app_reboot` the renderer reads the delay modulo 2^32 |
| Encoder.TimeDescribed | 01-rx/rx_test.py:134-148 | after `app_set_time` the renderer reads sec and ns modulo 2^32 |
| Encoder.TelemetryDescribed | 01-rx/rx_test.py:149-153 | after `app_telem` on a telemetry frame of length 0x54 the renderer reads the 78 telemetry bytes |
| Encoder.AckReasonDescribed | 01-rx/rx_test.py:154-158 | after `bootloader_ack` the renderer reads the reason |
| Encoder.EraseStatusDescribed | 01-rx/rx_test.py:159-162 | after `bootloader_erase` the renderer reads the status |
| Encoder.WritePageDescribed | 01-rx/rx_test.py:169-175 | after `bootloader_write_page`, for any page length, the renderer reads the page number; it reads the page when it has 128 bytes, and no page bytes when it has another length and the length byte is not already 0x87 |
| Encoder.AsciiDescribed | 01-rx/rx_test.py:178-183 | after `common_ascii` the renderer reads back exactly the text |
| Encoder.AsciiAbc | 01-rx/rx_test.py:310-315 | "abc" gives length 9 and the codes 0x61 0x62 0x63 at 9..11 |
| Encoder.Apply | 01-rx/rx_test.py:256-315 | every setter keeps a frame well formed |
| Encoder.ApplyAll | 01-rx/rx_test.py:256-315 | any sequence of setters keeps a frame well formed and leaves header bytes 0-8, except the length, unchanged |
| Encoder.TxCmd.constructor | 01-rx/rx_test.py:204-254 | the new buffer is `Created` of the arguments |
| Encoder.TxCmd.WriteHeader | 01-rx/rx_test.py:205-213 | over a zero buffer, the start bytes, the two ids, the route byte and the opcode are written at 0..8 and the rest stays zero |
| Encoder.TxCmd.WriteDefaultLength | 01-rx/rx_test.py:214-254 | the opcode's branch writes its default length, and the payload zeros it writes leave the zero payload as it was |
| Encoder.TxCmd.AppReboot | 01-rx/rx_test.py:256-266 | the in-place writes give `WithRebootDelay` of the old buffer |
| Encoder.TxCmd.AppSetTime | 01-rx/rx_test.py:268-285 | the in-place writes give `WithTime` of the old buffer |
| Encoder.TxCmd.AppTelem | 01-rx/rx_test.py:287-290 | the copy loop gives `WithTelemetry` of the old buffer |
| Encoder.TxCmd.BootloaderAck | 01-rx/rx_test.py:292-295 | the in-place writes give `WithAckReason` of the old buffer |
| Encoder.TxCmd.BootloaderErase | 01-rx/rx_test.py:297-300 | the in-place writes give `WithEraseStatus` of the old buffer |
| Encoder.TxCmd.BootloaderWritePage | 01-rx/rx_test.py:302-308 | the page number write and the copy loop give `WithWritePage` of the old buffer |
| Encoder.TxCmd.CommonAscii | 01-rx/rx_test.py:310-315 | the length write and the code loop give `WithAscii` of the old buffer |
| Encoder.TxCmd.GetByteCount | 01-rx/rx_test.py:317-318 | the byte count of a well-formed frame is between 9 and 258 |
| Encoder.TxCmd.Clear | 01-rx/rx_test.py:320-321 | clearing reallocates a zero buffer |
| Reply.ReplyHeader | 01-rx/rx_test.py:416-424 | the reply buffer after the header writes, still 258 bytes; its properties are stated by `Reply.ReplyHeaderCopied` |
| Reply.Reply | 01-rx/rx_test.py:414-481 | the reply buffer after `generate_reply`, still 258 bytes; the table rows are stated by the lemmas below |
| Reply.ReplyHeaderCopied | 01-rx/rx_test.py:416-424 | every reply has the start bytes and the request's bytes 3..6, and it reads back with the request's ids and with source and destination exchanged |
| Reply.ReplyRouteExample | 01-rx/rx_test.py:422-424 | a request routed 0x1a is answered with route 0xa1 |
| Reply.ReplyToGetTelemetry | 01-rx/rx_test.py:425-429 | get-telemetry is answered with opcode 0x18, length 0x54 and 78 zero payload bytes |
| Reply.ReplyToGetTime | 01-rx/rx_test.py:430-445 | get-time is answered with opcode 0x14 and length 0x0e, and the frame reads back as the clock's seconds and `micros*1000 < 10^9` nanoseconds |
| Reply.ReplyNacks | 01-rx/rx_test.py:446-481 | each of the eleven nack-group requests is answered with opcode 0xff, length 6 and the payload bytes untouched |
| Reply.ReplyAcks | 01-rx/rx_test.py:473-475 | a common ack is answered with opcode 0x10 and length 6 |
| Reply.ReplyToUnknown | 01-rx/rx_test.py:425-481 | an opcode without a row leaves the length, the opcode and the payload as the buffer held them |
| Reply.ReplyToUnknownAfterClear | 01-rx/rx_test.py:408-412 | on a cleared reply buffer, an unknown opcode gives byte count 3 and no valid frame, and the decoder rejects those three bytes |
| Reply.KnownReplyDecodes | 01-rx/rx_test.py:425-481 | the reply to every opcode with a row is a valid frame that a cleared decoder receives whole |
| Reply.TxCmdBuff.constructor | 01-rx/rx_test.py:402-406 | a new reply buffer is empty, with zero cursors and a zero buffer |
| Reply.TxCmdBuff.Clear | 01-rx/rx_test.py:408-412 | clearing resets `empty` and the cursors and reallocates a zero buffer |
| Reply.TxCmdBuff.GenerateReply | 01-rx/rx_test.py:414-481 | unless the decoder is COMPLETE and the buffer empty, nothing changes; otherwise the buffer becomes `Reply` of its old contents and the request |
| Reply.TxCmdBuff.WriteHeader | 01-rx/rx_test.py:416-424 | the start bytes, the ids and the swapped route byte are written in place |
| Reply.TxCmdBuff.ZeroPayload | 01-rx/rx_test.py:428-429 | the telemetry loop zeroes payload bytes 9..86 and nothing else |
| Reply.TxCmdBuff.WriteTime | 01-rx/rx_test.py:434-445 | the eight writes put seconds and nanoseconds little-endian at 9..16 and nothing else |
| Reply.TxCmdBuff.GetByteCount | 01-rx/rx_test.py:483-484 | the byte count of a well-formed reply is between 9 and 258 |
| Link.DescribeWithin | 01-rx/rx_test.py:118-197 | two buffers that agree on a frame's wire bytes describe the same frame, provided the fields always read lie on the wire |
| Link.ApplyKeepsFieldsOnWire | 01-rx/rx_test.py:256-315 | no setter changes the opcode or moves a set-time or write-page field off the wire |
| Link.ApplyAllKeepsFieldsOnWire | 01-rx/rx_test.py:256-315 | the same holds for any sequence of setters |
| Link.SettersKeepHeader | 01-rx/rx_test.py:256-315 | after any setters the frame is still well formed and reads back as the constructor's opcode, ids modulo 2^16 and roles |
| Link.RoundTrip | 01-rx/rx_test.py:204-389 | any `TxCmd` after any setters, fed up to its byte count into a cleared decoder, gives COMPLETE with the same bytes, the same byte count and the same described fields, and they are the constructor's opcode, ids modulo 2^16 and roles |
| Link.Loopback | 01-rx/rx_test.py:527-529 | sending the reply buffer's `get_byte_count()` bytes one at a time into a decoder leaves it as `FeedAll` of those bytes, and the reply buffer unchanged |
| Link.Serve | 01-rx/rx_test.py:520-529 | `generate_reply` on a COMPLETE request followed by the send loop: the reply buffer becomes `Reply`, the far-end decoder is `FeedAll` of its byte count of bytes, and a cleared far-end decoder sent the reply to a request with a table row ends COMPLETE holding the reply's bytes |

## Left out

- Argument parsing, opening the serial port, the driver's listen and reply loop, and all printing are left out as I/O. The send loop appears only as `Link.Loopback`, which hands the reply buffer's bytes directly to a decoder, and one turn of the listen and reply loop as `Link.Serve`.
- Link.Serve: starts from a COMPLETE request and an empty reply buffer, because the driver reaches `generate_reply` only after its receive loop sees COMPLETE, and `empty` is never false; the receive loop itself, which reads the serial port, is not modelled.
- The wall clock is left out. That covers `datetime.now`, the J2000 epoch arithmetic, `math.floor` and `total_seconds`, all of which read the system clock or use floating point. The get-time reply therefore takes the whole seconds `sec` and the microsecond remainder `micros` as parameters, with `0 <= micros < 10^6`.
- Reply.TxCmdBuff.GenerateReply: requires `0 <= sec < 2^32` only when the get-time row runs, because `to_bytes(4, 'little')` raises an exception for other values. That exception is not modelled.
- The text rendering of `cmd_bytes_to_str` and the `__str__` methods is left out, because it is diagnostic string output. That covers hex and decimal formatting, names in parentheses and concatenation. `Describe` keeps the integer fields the renderer extracts, and the ascii row's `chr` of each byte.
- Python integers are unbounded. The model states their ranges as preconditions and does not model overflow into neighbouring bits:
  - roles below 16 for the route byte written by the constructor;
  - byte values for the opcode, reason, status, page number, telemetry and page bytes;
  - character codes below 256 for ascii text.
- Encoder.TxCmd.AppReboot and Encoder.TxCmd.AppSetTime: the delay, seconds and nanoseconds are any integers and are stored modulo 2^32, exactly as the shifts and masks do. No range is demanded.
- The unused fields of `TxCmdBuff` are kept but never read. `empty` is never set to false, so the guard of `generate_reply` is modelled exactly as written. The model has no "reply pending" transition.
- An opcode without a row in the reply table leaves the length byte and the opcode byte as the buffer held them. This follows the code as written and is not replaced by a nack. `Reply.ReplyToUnknownAfterClear` shows what the code then sends.
