# HARP frame decoder

A Dafny model of the HARP (HArdware Research Platform) binary decoder in
`harp_parser.py`. The model covers:

- the payload type table (`PayloadLookup.DATA_CHARS`) and how a payload
  type byte is masked to look it up;
- the format string `get_payload_string` builds;
- `struct.unpack` on little-endian integers;
- the message-type filter `__unpack_message_types_to_process`;
- the frame-scanning loop of `to_list`, which turns the bytes of a file
  into rows `[message_type, message_address, timestamp] + elements`.

Modules, from the bottom up:

- `LittleEndian` (`little_endian.dfy`): bytes, and unsigned and
  two's-complement integers of any width, least significant byte first.
  These are the `<B b H h I i Q q` codes of `struct`.
- `Errors` (`errors.dfy`): the Python exceptions the decoder can end
  with: `IndexError`, `TypeError`, `ZeroDivisionError`, `KeyError(key)` and
  `struct.error` (here `StructError`).
- `Wrappers` (`wrappers.dfy`): `Option` and `Result`.
- `PayloadLookup` (`payload_lookup.dfy`): the table, the masks
  `& 0x0F`, `& 0xC0`, `& 0x10` and `(b & 0xC0) | (b & 0x0F)`, and the
  layout a format string spells. The masks are written as arithmetic on a
  byte `0..255`; lemmas show each one equals the bitwise `&` on `bv8`.
- `StructUnpack` (`struct_unpack.dfy`): `struct.unpack` on a layout,
  `struct.error` when `calcsize` differs from the payload length, and the
  encoder that inverts it.
- `HarpParser` (`harp_parser.dfy`), the core:
  - the filter helper as written, and as evidently intended;
  - the frame scanner, with Python's clamping slices;
  - the decoding of one frame;
  - `to_list` itself, as the `ScanFrames` method with the source's
    `while` loop, proved equal to the functional specification
    `DecodeStream`.
- `HarpEncoding` (`harp_encoding.dfy`): the inverse of the decoder. It
  builds HARP frames from messages: header, payload and a checksum byte.
  It proves that, given a filter list (`processEvent` set, or the
  intended helper), `to_list` gives back, in order, the records of
  exactly the messages the filter selects, whatever checksum byte each frame
  carries (`DecodeSerialized`), and so in particular for the HARP
  checksums (`DecodeHarpStream`).

The file is read by the caller. `ToList` takes its bytes as a parameter.

Where the HARP binary protocol's frame layout (a type byte, a length
byte counting every byte after it, address, port, payload type, payload
and a final checksum byte) and the code differ, the model follows the
code:

- **Frame extent.** The slice `data[start : start + length + 1]` stops
  before the byte at `start + length + 1`. For a HARP frame, whose length
  byte counts everything after it (checksum included), that byte is the
  checksum. `next_message_start = message_end + 1` skips it. So the
  payload `message[5:]` does not hold the checksum, and the element count
  is computed without it (`HarpEncoding.DecodeEncodedFrame`). The
  checksum is read as an element only when the length byte counts more
  bytes than the frame has, as in the 8-byte frame
  `[1, 7, 5, 0, 1, 42, 0, chk]` (one too many), which decodes to the
  elements `42, 0, chk`
  (`HarpEncoding.LengthCountsTheChecksum`).
- **Short final frames.** A frame that runs past the end is not an
  error in itself. Python's slice clamps it to the end of the data, and
  the clamped frame is filtered and decoded like any other. A clamped
  frame whose type the filter does not list is skipped before its header
  is read, whatever its length
  (`HarpEncoding.UnlistedClampedFrameSkipped`). A clamped frame of a listed type shorter
  than five bytes raises `IndexError`. One of a listed type and of five
  bytes or more meets
  the errors of any frame (`ZeroDivisionError`, `KeyError`, and
  `struct.error` when its payload is not the timestamp plus a whole
  number of elements), and otherwise decodes silently to a record: an
  untimestamped `B` frame of a listed type always does, so
  `[1, 10, a, 0, 1, v]`, whose length byte promises ten bytes, decodes to the read reply of `v`
  (`HarpEncoding.ClampedFrameDecodes`, stated for a stream that is that
  one frame, and `HarpEncoding.ClampedReadReply`).
  Only a lone last byte raises `IndexError` at `data[start + 1]`.
- **Bad payload sizes.** The element count is a floor division. A
  payload that is not a whole number of elements fails inside
  `struct.unpack` with `struct.error`. A low nibble of 0 fails earlier,
  with `ZeroDivisionError`, before the table is consulted. An unknown
  type fails with `KeyError` of the masked key.
- **Errors abort the call.** The first error ends `to_list`, with no
  partial result.

## Model

| member | source | states |
|---|---|---|
| PayloadLookup.DATA_CHARS | harp_parser.py:18-28 | the table of the nine payload types: its contract is `Key` (each kind's key is in it and maps back to the kind) and `DataCharDomain` (it has exactly those nine keys) |
| PayloadLookup.Width | harp_parser.py:164 | `struct`'s standard size of each format character under `<`: its contract is `Key` (a kind's width is its key's low nibble), `LayoutSizeRepeat` and `UnpackRepeatAt` |
| PayloadLookup.Key | harp_parser.py:18-28 | the inverse of the table: each kind's key is in `DATA_CHARS` and maps back to that kind, its low nibble is the kind's width, and masking leaves it unchanged |
| PayloadLookup.DataChar | harp_parser.py:59 | when the lookup of a payload type byte succeeds, the width of the kind it gives equals the byte's low nibble (`& 0x0F`) |
| PayloadLookup.DataCharDomain | harp_parser.py:18-28 | the lookup succeeds exactly when the masked key is one of the nine table keys, and then the kind's key is the masked key |
| PayloadLookup.DataCharIsKeyInverse | harp_parser.py:18-28 | a byte looks up kind `k` if and only if its masked key is `k`'s key |
| PayloadLookup.Float64IsUnknown | harp_parser.py:18-28 | 0x48 (an 8-byte float), 0x58 and 0x03 have no entry |
| PayloadLookup.MaskedKey | harp_parser.py:59 | the key the table is searched with, `(b & 0xC0) \| (b & 0x0F)`: its contract is given by `MaskedKeyFields` (class bits and low nibble kept, bits 4 and 5 cleared) and `MaskedKeyMatchesBitwise` |
| PayloadLookup.LowNibble | harp_parser.py:160 | the element width `b & SIZE_MASK`: its contract is `LowNibbleMatchesBitwise`, and `DataChar` ties it to the width of the kind looked up |
| PayloadLookup.HasTimestampFlag | harp_parser.py:158 | the test `b & HAS_TIMESTAMP`: its contract is `TimestampFlagMatchesBitwise` |
| PayloadLookup.LayoutSize | harp_parser.py:164 | `struct.calcsize` of a format: its contract is `LayoutSizeAppend`, `LayoutSizeRepeat` and `PayloadStringSize` |
| PayloadLookup.ClassBits | harp_parser.py:59 | the class field `b & 0xC0`: its contract is `ClassBitsMatchBitwise` |
| PayloadLookup.MaskedKeyFields | harp_parser.py:59 | the masked key keeps the class bits and the low nibble and clears bits 4 and 5 |
| PayloadLookup.MaskedKeyMatchesBitwise | harp_parser.py:59 | the arithmetic masked key equals `(b & 0xC0) \| (b & 0x0F)` on every `bv8` |
| PayloadLookup.ClassBitsMatchBitwise | harp_parser.py:59 | the class field equals `b & 0xC0` on every `bv8` |
| PayloadLookup.LowNibbleMatchesBitwise | harp_parser.py:160 | the width field equals `b & SIZE_MASK` on every `bv8` |
| PayloadLookup.TimestampFlagMatchesBitwise | harp_parser.py:158 | the timestamp flag holds if and only if `b & HAS_TIMESTAMP` is non-zero |
| PayloadLookup.LookupIgnoresBits4And5 | harp_parser.py:59 | two bytes that agree on bits 0-3 and 6-7 have the same masked key and look up the same kind |
| PayloadLookup.SettingBits4And5 | harp_parser.py:59 | setting the timestamp flag, bit 5 or both on a key does not change its lookup |
| PayloadLookup.Repetitions | harp_parser.py:47 | how often `char_code * count` repeats the character, max(count, 0): its contract is `PayloadString` and `PayloadStringSize` |
| PayloadLookup.Repeat | harp_parser.py:47 | `count` copies of the element character, with `RepeatTail` splitting off the first |
| PayloadLookup.Layout | harp_parser.py:45-47 | the format the two f-strings build, `IH` or nothing, then the repeated character: its contract is `PayloadString`, `PayloadStringPrefix` and `LayoutSizeRepeat` |
| PayloadLookup.TimestampBytes | harp_parser.py:159 | `6 if payload_has_timestamp else 0`: its contract is `PayloadStringSize` and `CountFits` |
| PayloadLookup.PayloadString | harp_parser.py:31-47 | KeyError of the masked key if and only if the table has no entry; otherwise `IH` exactly when the timestamp flag is set, then max(count, 0) copies of the element kind and nothing else |
| PayloadLookup.PayloadStringSize | harp_parser.py:45-47 | the byte size of the format is 6 for the timestamp plus max(count, 0) times the element width |
| PayloadLookup.PayloadStringPrefix | harp_parser.py:45-46 | the format starts with `I`, `H` if and only if the timestamp flag is set |
| PayloadLookup.LayoutSizeAppend | harp_parser.py:46 | the size of concatenated layouts is the sum of their sizes |
| PayloadLookup.LayoutSizeRepeat | harp_parser.py:47 | `count` elements of one kind take `count` times its width |
| LittleEndian.Unsigned | harp_parser.py:164 | the value of `n` little-endian bytes is below 256^n |
| LittleEndian.Signed | harp_parser.py:164 | the two's-complement value lies in [-2^(8n-1), 2^(8n-1)), is negative exactly when the unsigned value is at least half the range, and differs from the unsigned value by 0 or 256^n |
| LittleEndian.UnsignedBytes | harp_parser.py:164 | encoding a value below 256^n in n bytes gives n bytes that read back as the value |
| LittleEndian.SignedBytes | harp_parser.py:164 | the same for the two's-complement reading |
| LittleEndian.UnsignedBytesOfUnsigned | harp_parser.py:164 | reading n bytes and encoding the value in n bytes gives the same bytes |
| LittleEndian.SignedBytesOfSigned | harp_parser.py:164 | the same for the two's-complement reading |
| StructUnpack.DecodeElement | harp_parser.py:164 | a decoded element is a value its kind can hold: in range for its signedness and width, or 4 raw bytes for `f` |
| StructUnpack.EncodeElement | harp_parser.py:164 | encoding a value that fits its kind gives `width` bytes that decode back to the value |
| StructUnpack.EncodeDecodeElement | harp_parser.py:164 | decoding and re-encoding an element gives the same bytes |
| StructUnpack.UnpackAll | harp_parser.py:164 | unpacking gives one value per format character |
| StructUnpack.Unpack | harp_parser.py:164 | success if and only if `calcsize` equals the payload length, `struct.error` otherwise, and every value fits its kind |
| StructUnpack.UnpackAllFits | harp_parser.py:164 | every unpacked value fits its format character |
| StructUnpack.UnpackAllCons | harp_parser.py:164 | the first value is read from the first `width` bytes and the rest from the bytes after them |
| StructUnpack.UnpackRepeatAt | harp_parser.py:164 | element `j` of `n` elements of one kind is read from bytes `j*w` to `j*w + w` |
| StructUnpack.UnpackRepeatAtOffset | harp_parser.py:164 | the same for elements that start at an offset, as after the timestamp |
| StructUnpack.EncodeAll | harp_parser.py:164 | values that fit a layout encode to `calcsize` bytes that unpack back to the values |
| StructUnpack.EncodeUnpackAll | harp_parser.py:164 | bytes of the layout's size unpack, and the values re-encode to the same bytes |
| HarpParser.SelectedTypes | harp_parser.py:106-112 | type 1, 2 or 3 is selected exactly when its flag is set, and in increasing order |
| HarpParser.UnpackMessageTypesToProcess | harp_parser.py:94-113 | as written: returns a list if and only if `processEvent`, and then the types of all three flags; None otherwise |
| HarpParser.MessageTypesToProcessIntended | harp_parser.py:106-113 | as intended: type t is in the list exactly when its flag is set, in increasing order, whatever the flags |
| HarpParser.PySlice | harp_parser.py:146 | Python's slice with clamped bounds: the exact slice in range, the suffix when the end is past the data, empty when the bounds cross |
| HarpParser.MessageEnd | harp_parser.py:143 | the frame's end lies past its start, so no frame is cut empty by its bounds |
| HarpParser.NextMessageStart | harp_parser.py:144 | the next frame starts one byte past the end, so the cursor strictly advances |
| HarpParser.Message | harp_parser.py:143-147 | a frame within the data is `data[start:end]`, whose length is the length byte plus one; a frame past the end is the rest of the data; the frame starts with the type byte |
| HarpParser.Frames | harp_parser.py:140-146 | the frames the loop cuts, and whether it stopped on a lone last byte: its contract is `FramesNonEmpty`, `FramesShift`, `FramesOfFrame`, `FramesOfSerialize`, `FramesOfWholeStream` and `DecodeStreamIsDecodeSelected` |
| HarpParser.FloorDiv | harp_parser.py:160 | Python's `//` for the positive width: its contract is `FloorDivIsFloor` |
| HarpParser.ElementCount | harp_parser.py:159-160 | the floor-divided element count: its contract is `FloorDivIsFloor`, `CountFits` and `DecodedElementCount` |
| HarpParser.FormatFor | harp_parser.py:162-163 | the format string built for a frame: its contract is `FormatFits`, `FormatCount` and `FormatOfEncoded` |
| HarpParser.DecodePayload | harp_parser.py:156-176 | the payload of one frame decoded: its contract is `DecodePayloadOutcome`, `DecodedTimestamp`, `DecodedElementCount`, `DecodedElements` and `DecodeEncodedPayload` |
| HarpParser.DecodeMessage | harp_parser.py:152-176 | one frame decoded to a record: its contract is `DecodeMessageOutcome`, `DecodeMessageHeaderErrors`, `DecodeMessageReads` and `DecodeEncodedFrame` |
| HarpParser.Assemble | harp_parser.py:149-176 | the filtered frames decoded in order: its contract is `AssembleIsDecodeSelected`, `AssembledRecords` and `AssembleWithoutFilter` |
| HarpParser.DecodeStream | harp_parser.py:133-178 | the specification of `to_list`: its contract is `DecodeStreamStep`, `DecodeStreamIsDecodeSelected`, `DecodeStreamWithoutFilter`, `DecodeSerialized` and `ClampedFrameDecodes`, and `ScanFrames` is proved equal to it |
| HarpParser.FloorDivIsFloor | harp_parser.py:159-160 | the count quotient is Python's floor division, for negative dividends too |
| HarpParser.CountFits | harp_parser.py:159-164 | the format's size equals the payload length if and only if the payload holds the timestamp and a whole number of elements, and then the count is exact |
| HarpParser.FormatFits | harp_parser.py:159-164 | for a known type, the format is built, and its size is the payload length exactly when the payload fits |
| HarpParser.FormatCount | harp_parser.py:159-163 | a fitting payload's format has one element per width of bytes after the timestamp |
| HarpParser.DecodePayloadOutcome | harp_parser.py:156-164 | KeyError of the masked key for an unknown type, `struct.error` when a known type's payload does not fit, success exactly when it does |
| HarpParser.UnpackTimestampPair | harp_parser.py:164-173 | a format starting `IH` reads seconds from bytes 0-3 and ticks from bytes 4-5, and the rest from the bytes after them |
| HarpParser.DecodedTimestamp | harp_parser.py:166-176 | a decoded payload has a timestamp if and only if the flag is set, and then it is the unsigned value of bytes 0-3 and 4-5 |
| HarpParser.DecodedElementCount | harp_parser.py:157-176 | a decoded payload is of a known type that fits, and holds (length - prefix) / width elements |
| HarpParser.DecodedElements | harp_parser.py:157-176 | the elements are the bytes after the prefix unpacked as the type's kind, and those bytes are exactly the elements' size |
| HarpParser.DecodeMessageHeaderErrors | harp_parser.py:147-162 | IndexError for a frame shorter than five bytes, ZeroDivisionError for a low nibble of 0, KeyError for an unknown type |
| HarpParser.DecodeMessageOutcome | harp_parser.py:152-176 | a frame decodes if and only if it has five bytes, a known type and a payload that fits; `struct.error` for a known type that does not fit; a record copies the type and address bytes and the decoded payload |
| HarpParser.Selected | harp_parser.py:149 | a frame is kept if and only if it is non-empty and its type is in the filter: every kept frame is one of the frames, of a listed type, and every such frame is kept |
| HarpParser.SelectedAppend | harp_parser.py:140-149 | filtering keeps the frames' order: filtering two runs of frames is filtering each and joining the results |
| HarpParser.DecodeAllRecords | harp_parser.py:152-176 | each record of a decoded list is its own frame decoded |
| HarpParser.AssembleIsDecodeSelected | harp_parser.py:147-176 | assembling with a filter is decoding exactly the selected frames in order |
| HarpParser.AssembledRecords | harp_parser.py:149-176 | one record per selected frame, each of a type the filter lists |
| HarpParser.AssembleWithoutFilter | harp_parser.py:149 | without a filter the first frame raises TypeError (`in None`) |
| HarpParser.DecodeStreamWithoutFilter | harp_parser.py:130-149 | without a filter: no records for empty data, IndexError for a single byte, TypeError otherwise |
| HarpParser.FramesNonEmpty | harp_parser.py:140-147 | every frame the scanner cuts is non-empty |
| HarpParser.DecodeStreamIsDecodeSelected | harp_parser.py:133-178 | the whole loop at once: decoding a stream is decoding, in order, the frames the scanner cuts that the filter keeps, then IndexError if a lone last byte was left |
| HarpParser.DecodeStreamStep | harp_parser.py:140-176 | one turn of the loop: the frame at the cursor is skipped, decoded and prepended, or fails, and the rest is decoded from the next frame's start |
| HarpParser.PrependPrepend | harp_parser.py:172-176 | appending rows in two steps is appending them together |
| HarpParser.ScanFrames | harp_parser.py:133-178 | the loop returns exactly what the specification `DecodeStream` gives for the data and the filter |
| HarpParser.ToList | harp_parser.py:128-178 | `to_list` as written: `DecodeStream` with the helper's filter, which is None without `processEvent` |
| HarpParser.ToListDefault | harp_parser.py:115-178 | `to_list()` with its default flags processes all three message types: `DecodeStream` with the filter `[1, 2, 3]` |
| HarpParser.ToListIntended | harp_parser.py:130-178 | `to_list` with the intended helper: `DecodeStream` with the types of the three flags |
| HarpEncoding.KeyFlags | harp_parser.py:18-28 | each kind's key, with or without bit 4, looks up that kind, has the flag exactly when bit 4 is set, and keeps its width |
| HarpEncoding.PayloadType | harp_parser.py:156-160 | an encoded payload type looks up the message's kind, carries the flag exactly when the message has a timestamp, and has the kind's width |
| HarpEncoding.CountOfBytes | harp_parser.py:159-160 | n elements' bytes divided by the width are n elements |
| HarpEncoding.FormatOfEncoded | harp_parser.py:159-163 | the format built for an encoded payload is the message's own layout |
| HarpEncoding.DecodeEncodedPayload | harp_parser.py:156-176 | an encoded payload decodes to the message's timestamp and elements |
| HarpEncoding.DecodeEncodedFrame | harp_parser.py:146-176 | the slice the scanner cuts from an encoded frame decodes to the message's record, whatever the checksum byte |
| HarpEncoding.FramesShift | harp_parser.py:140-146 | bytes in front of a stream do not change how the scanner cuts what follows |
| HarpEncoding.FirstFrame | harp_parser.py:141-146 | the first frame cut from an encoded frame followed by more bytes is the frame without its checksum, and the next frame starts right after the checksum |
| HarpEncoding.FramesOfFrame | harp_parser.py:140-146 | an encoded frame followed by more bytes is cut at its checksum, and scanning resumes after it |
| HarpEncoding.HarpChecksums | harp_parser.py:140-146 | one HARP checksum (the byte sum of the frame) per message |
| HarpEncoding.FramesOfSerialize | harp_parser.py:140-146 | a serialized stream, with any checksum byte on each frame, is cut back into its frame bodies without a stray byte |
| HarpEncoding.SelectedMessages | harp_parser.py:149 | a message is kept if and only if its type is listed: every kept message is one of the messages, of a listed type, and every such message is kept |
| HarpEncoding.SelectedMessagesAppend | harp_parser.py:149 | keeping messages keeps their order: filtering two runs of messages is filtering each and joining the results |
| HarpEncoding.AssembleBodies | harp_parser.py:147-176 | the frame bodies of a stream assemble to the records of the selected messages |
| HarpEncoding.DecodeSerialized | harp_parser.py:133-178 | the round trip: a serialized stream, whatever checksum byte each frame carries, decodes to the records of exactly the selected messages, in order |
| HarpEncoding.DecodeHarpStream | harp_parser.py:133-178 | the same round trip for frames carrying their HARP checksums |
| HarpEncoding.SerializedWithoutEvent | harp_parser.py:111-113 | with the helper as written, a stream of at least one frame, with any checksums, read without `processEvent` fails with TypeError |
| HarpEncoding.DecodeOneFrame | harp_parser.py:140-176 | a stream of one frame, whatever its checksum, decodes to its record when the type is listed and to nothing otherwise |
| HarpEncoding.SelectOne | harp_parser.py:149-176 | assembling one encoded frame keeps or drops its record by its type |
| HarpEncoding.ReadReplyFrame | harp_parser.py:140-176 | a one-byte read reply decodes to its record with reads selected, to nothing with only writes, to TypeError without `processEvent` |
| HarpEncoding.FramesOfWholeStream | harp_parser.py:143-146 | a frame whose length byte reaches the end of the data or beyond it is the stream's single frame, clamped to the data |
| HarpEncoding.EncodeU8 | harp_parser.py:164 | bytes read as `B` elements encode back to themselves |
| HarpEncoding.DecodeMessageReads | harp_parser.py:152-176 | decoding a frame reads only its type, address and payload type bytes and its payload, not the length or port bytes |
| HarpEncoding.DecodeU8Frame | harp_parser.py:152-176 | an untimestamped `B` frame decodes to its bytes after the header, whatever its length byte says |
| HarpEncoding.AssembleOne | harp_parser.py:149-176 | one selected frame that decodes assembles to its one record |
| HarpEncoding.ClampedFrameDecodes | harp_parser.py:143-176 | a stream that is one untimestamped `B` frame of a listed type, at least five bytes long, whose length byte runs past the end of the data, decodes silently to a record of the bytes that are there |
| HarpEncoding.ClampedReadReply | harp_parser.py:143-176 | the six bytes `[1, 10, a, 0, 1, v]`, whose length byte promises ten, decode to the read reply of `v` with no error |
| HarpEncoding.UnlistedClampedFrameSkipped | harp_parser.py:143-149 | a stream that is one frame running past the end, of a type the filter does not list, decodes to no records and no error, however short the frame |
| HarpEncoding.LengthCountsTheChecksum | harp_parser.py:143-157 | when a `B` frame's length byte reaches the end of the data, every byte after the header, the last one included, is an element |

## Left out

- Reading the file (`__read_data`, harp_parser.py:79-92): I/O. `ToList` takes the file's bytes as a parameter.
- `to_dataframe` and `to_csv` (harp_parser.py:180-224): pandas and CSV output, outside the decoder.
- HarpParser.DecodeMessage: the timestamp is kept as the raw pair (seconds, ticks). The source's float `seconds + ticks * 32e-6` (harp_parser.py:167-170) is floating point.
- HarpParser.DecodeMessage: the NaN placed in the timestamp column when there is no timestamp (harp_parser.py:74, 176) is the constructor `Missing`.
- StructUnpack.DecodeElement: a `f` element is kept as its 4 raw bytes. Decoding an IEEE 754 single is floating point.
- The `lru_cache` on `get_payload_string` (harp_parser.py:30): a cache of a pure function. It does not change what is returned.
- The `HarpParser` and `PayloadLookup` objects hold no state the decoder updates. Their methods are module-level functions here, and `to_list` is a method with the source's loop.
- The checksum byte is never checked by the source. The model does not check it either. `HarpEncoding.DecodeSerialized` proves that a stream of encoded frames decodes the same whatever checksum byte each frame carries, and `DecodeEncodedFrame` that a frame's record does not depend on its checksum byte.
- HarpEncoding.PayloadBytes, HarpEncoding.FrameBody, HarpEncoding.EncodeFrame: their own contracts state only sizes. What the bytes mean is stated by the round-trip lemmas about them (`DecodeEncodedFrame`, `FramesOfFrame`).

## Findings

| source | as written | input that shows it | evidently intended | confidence | as-written member | corrected member |
|---|---|---|---|---|---|---|
| harp_parser.py:111-113 | the `return` is indented under `if processEvent:`, so without that flag the helper returns None, and `message_type in None` raises TypeError on the first frame | `processRead=True, processWrite=True, processEvent=False` on data holding one frame | return the types of the three flags whatever they are | high; not executed | HarpParser.UnpackMessageTypesToProcess (with HarpEncoding.SerializedWithoutEvent) | HarpParser.MessageTypesToProcessIntended (with HarpParser.ToListIntended) |
