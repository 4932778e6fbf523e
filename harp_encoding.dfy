/**
  The inverse of the decoder: HARP frames built from messages, and the
  round trip from messages to the bytes of a stream and back to the
  records `to_list` returns for them.

  A frame is `[messageType, length, address, port, payloadType] +
  payload + [checksum]`, where `length` counts the bytes after it (the
  address, port and payload type, the payload and the checksum), the
  payload type is the table key of the element kind with bit 4 set when a
  timestamp leads the payload, and the checksum is the sum of the other
  bytes modulo 256.
 */
module HarpEncoding {
  import opened Wrappers
  import opened LittleEndian
  import opened Errors
  import opened PayloadLookup
  import opened StructUnpack
  import opened HarpParser

  /** One message as a device sends it. */
  datatype HarpMessage = HarpMessage(
    messageType: byte,
    address: byte,
    port: byte,
    kind: ElementKind,
    timestamp: Timestamp,
    elements: seq<Value>)

  /** The record the decoder is meant to give back for a message. */
  function RecordOf(m: HarpMessage): Record
  {
    Record(m.messageType, m.address, m.timestamp, m.elements)
  }

  /** The table key of each kind, with and without the timestamp flag. */
  lemma {:induction false} KeyFlags(k: ElementKind)
    ensures Key(k) + 0x10 < 256
    ensures DataChar(Key(k)) == Some(k) && DataChar(Key(k) + 0x10) == Some(k)
    ensures !HasTimestampFlag(Key(k)) && HasTimestampFlag(Key(k) + 0x10)
    ensures LowNibble(Key(k) + 0x10) == Width(k)
  {
    var key := Key(k);
    MaskedKeyFields(key);
    Split(key);
    Fields(key / 64, 0, key % 16);
    Fields(key / 64, 1, key % 16);
    DataCharIsKeyInverse(key, k);
    SettingBits4And5(key, 0x10);
  }

  /** The payload type byte of a message. */
  function PayloadType(m: HarpMessage): (payloadType: byte)
    ensures DataChar(payloadType) == Some(m.kind)
    ensures HasTimestampFlag(payloadType) <==> m.timestamp.Stamp?
    ensures LowNibble(payloadType) == Width(m.kind)
  {
    KeyFlags(m.kind);
    if m.timestamp.Stamp? then Key(m.kind) + 0x10 else Key(m.kind)
  }

  /** The payload's byte count: timestamp prefix and elements. */
  function PayloadSize(m: HarpMessage): nat
  {
    TimestampBytes(m.timestamp.Stamp?) + LayoutSize(Repeat(m.kind, |m.elements|))
  }

  /** A message a frame can carry: values of its kind, a timestamp in range, a length that fits a byte. */
  predicate Encodable(m: HarpMessage)
  {
    && AllFit(Repeat(m.kind, |m.elements|), m.elements)
    && (m.timestamp.Stamp? ==> 0 <= m.timestamp.seconds < Pow256(4) && 0 <= m.timestamp.ticks < Pow256(2))
    && 4 + PayloadSize(m) < 256
  }

  /** The bytes of the payload: U32 seconds and U16 ticks, then the elements, little-endian. */
  function PayloadBytes(m: HarpMessage): (bs: seq<byte>)
    requires Encodable(m)
    ensures |bs| == PayloadSize(m)
  {
    var prefix := if m.timestamp.Stamp? then UnsignedBytes(m.timestamp.seconds, 4) + UnsignedBytes(m.timestamp.ticks, 2) else [];
    prefix + EncodeAll(Repeat(m.kind, |m.elements|), m.elements)
  }

  /** The frame without its checksum: the bytes the decoder slices out. */
  function FrameBody(m: HarpMessage): (body: seq<byte>)
    requires Encodable(m)
    ensures |body| == PayloadSize(m) + 5
  {
    [m.messageType, 4 + PayloadSize(m), m.address, m.port, PayloadType(m)] + PayloadBytes(m)
  }

  /** The sum of the bytes modulo 256. */
  function Checksum(bs: seq<byte>): byte
  {
    if bs == [] then 0 else (bs[0] + Checksum(bs[1..])) % 256
  }

  /** The frame of a message, followed by a checksum byte. */
  function EncodeFrame(m: HarpMessage, checksum: byte): (frame: seq<byte>)
    requires Encodable(m)
    ensures |frame| == PayloadSize(m) + 6 && frame[..PayloadSize(m) + 5] == FrameBody(m)
  {
    var body := FrameBody(m);
    assert (body + [checksum])[..|body|] == body;
    body + [checksum]
  }

  // ---- One frame ----

  /** Dividing `n` elements' bytes by the element width gives back `n`. */
  lemma {:induction false} CountOfBytes(n: nat, k: ElementKind)
    ensures FloorDiv(n * Width(k), Width(k)) == n
  {
    match k
    case U8 =>
    case I8 =>
    case U16 =>
    case I16 =>
    case U32 =>
    case I32 =>
    case U64 =>
    case I64 =>
    case F32 =>
  }

  /** The layout the decoder builds for a message's payload is the message's own. */
  lemma {:induction false} FormatOfEncoded(m: HarpMessage)
    requires Encodable(m)
    ensures FormatFor(PayloadType(m), PayloadSize(m))
         == Ok((if m.timestamp.Stamp? then [U32, U16] else []) + Repeat(m.kind, |m.elements|))
  {
    var pt, n, w := PayloadType(m), |m.elements|, Width(m.kind);
    LayoutSizeRepeat(m.kind, n);
    assert PayloadSize(m) - TimestampBytes(HasTimestampFlag(pt)) == n * w;
    CountOfBytes(n, m.kind);
    assert ElementCount(pt, PayloadSize(m)) == n;
  }

  /** Decoding the payload of a message gives back its timestamp and elements. */
  lemma {:induction false} DecodeEncodedPayload(m: HarpMessage)
    requires Encodable(m)
    ensures DecodePayload(PayloadType(m), PayloadBytes(m)) == Ok((m.timestamp, m.elements))
  {
    var payload := PayloadBytes(m);
    var n := |m.elements|;
    var elements := EncodeAll(Repeat(m.kind, n), m.elements);
    FormatOfEncoded(m);
    var format := FormatFor(PayloadType(m), |payload|).value;
    if m.timestamp.Stamp? {
      var seconds, ticks := UnsignedBytes(m.timestamp.seconds, 4), UnsignedBytes(m.timestamp.ticks, 2);
      assert payload == seconds + ticks + elements;
      assert payload[0..4] == seconds && payload[4..6] == ticks && payload[6..] == elements;
      assert format[2..] == Repeat(m.kind, n);
      UnpackTimestampPair(format, payload);
    } else {
      assert payload == elements;
      assert format == Repeat(m.kind, n);
    }
  }

  /**
    The round trip of one frame: the decoder's slice of an encoded frame
    decodes to the message's record, whatever its checksum byte.
   */
  lemma {:induction false} DecodeEncodedFrame(m: HarpMessage, checksum: byte)
    requires Encodable(m)
    ensures |EncodeFrame(m, checksum)| == PayloadSize(m) + 6
    ensures DecodeMessage(EncodeFrame(m, checksum)[..PayloadSize(m) + 5]) == Ok(RecordOf(m))
  {
    var body := FrameBody(m);
    assert body[4] == PayloadType(m) && body[5..] == PayloadBytes(m);
    assert body[0] == m.messageType && body[2] == m.address;
    DecodeEncodedPayload(m);
  }

  // ---- A stream of frames ----

  /** A stream in which the frames of these messages follow one another. */
  predicate AllEncodable(ms: seq<HarpMessage>)
  {
    ms == [] || (Encodable(ms[0]) && AllEncodable(ms[1..]))
  }

  /** The bytes of a stream of messages, the frame of `ms[i]` ending with the byte `checksums[i]`. */
  function Serialize(ms: seq<HarpMessage>, checksums: seq<byte>): seq<byte>
    requires AllEncodable(ms) && |checksums| == |ms|
  {
    if ms == [] then []
    else EncodeFrame(ms[0], checksums[0]) + Serialize(ms[1..], checksums[1..])
  }

  /** The checksums a HARP device sends: each frame's sum modulo 256. */
  function HarpChecksums(ms: seq<HarpMessage>): (checksums: seq<byte>)
    requires AllEncodable(ms)
    ensures |checksums| == |ms|
  {
    if ms == [] then [] else [Checksum(FrameBody(ms[0]))] + HarpChecksums(ms[1..])
  }

  /** The frame bodies of a stream: what the scanner should cut from it. */
  function Bodies(ms: seq<HarpMessage>): (bodies: seq<seq<byte>>)
    requires AllEncodable(ms)
    ensures |bodies| == |ms|
  {
    if ms == [] then [] else [FrameBody(ms[0])] + Bodies(ms[1..])
  }

  lemma {:induction false} SliceOfAppend(a: seq<byte>, b: seq<byte>, lo: nat, hi: nat)
    requires lo <= hi <= |b|
    ensures (a + b)[|a| + lo .. |a| + hi] == b[lo..hi]
  {
  }

  /** Bytes in front of a stream do not change how the scanner cuts what follows them. */
  lemma {:induction false} FramesShift(a: seq<byte>, b: seq<byte>, start: nat)
    ensures Frames(a + b, |a| + start) == Frames(b, start)
    decreases |b| - start
  {
    if start + 1 < |b| {
      var data := a + b;
      assert data[|a| + start] == b[start] && data[|a| + start + 1] == b[start + 1];
      var end := MessageEnd(b, start);
      if end <= |b| {
        SliceOfAppend(a, b, start, end);
      } else {
        SliceOfAppend(a, b, start, |b|);
        assert b[start..] == b[start..|b|];
        assert data[|a| + start..] == data[|a| + start .. |a| + |b|];
      }
      assert Message(data, |a| + start) == Message(b, start);
      assert NextMessageStart(data, |a| + start) == |a| + NextMessageStart(b, start);
      FramesShift(a, b, NextMessageStart(b, start));
    }
  }

  /** The first frame the scanner cuts from an encoded frame and what follows is its body. */
  lemma {:induction false} FirstFrame(m: HarpMessage, checksum: byte, rest: seq<byte>)
    requires Encodable(m)
    ensures var data := EncodeFrame(m, checksum) + rest;
      && 1 < |data| && Message(data, 0) == FrameBody(m)
      && NextMessageStart(data, 0) == |EncodeFrame(m, checksum)|
  {
    var frame := EncodeFrame(m, checksum);
    var data := frame + rest;
    var end := PayloadSize(m) + 5;
    assert data[1] == 4 + PayloadSize(m);
    assert MessageEnd(data, 0) == end;
    assert data[0..end] == frame[..end] == FrameBody(m);
  }

  /** The scanner cuts a frame followed by more bytes at the frame's checksum. */
  lemma {:induction false} FramesOfFrame(m: HarpMessage, checksum: byte, rest: seq<byte>)
    requires Encodable(m)
    ensures Frames(EncodeFrame(m, checksum) + rest, 0)
         == Scan([FrameBody(m)] + Frames(rest, 0).messages, Frames(rest, 0).truncated)
  {
    var frame := EncodeFrame(m, checksum);
    FirstFrame(m, checksum, rest);
    FramesShift(frame, rest, 0);
    assert |frame| + 0 == |frame|;
  }

  /** The scanner cuts a serialized stream back into its frame bodies, with no stray byte. */
  lemma {:induction false} FramesOfSerialize(ms: seq<HarpMessage>, checksums: seq<byte>)
    requires AllEncodable(ms) && |checksums| == |ms|
    ensures Frames(Serialize(ms, checksums), 0) == Scan(Bodies(ms), false)
  {
    if ms != [] {
      FramesOfSerialize(ms[1..], checksums[1..]);
      FramesOfFrame(ms[0], checksums[0], Serialize(ms[1..], checksums[1..]));
    }
  }

  /** The messages the filter keeps, in stream order. */
  function SelectedMessages(ms: seq<HarpMessage>, types: seq<int>): (selected: seq<HarpMessage>)
    ensures |selected| <= |ms|
    ensures forall i :: 0 <= i < |selected| ==> selected[i] in ms
    ensures forall i :: 0 <= i < |selected| ==> selected[i].messageType in types
    ensures forall m :: m in ms && m.messageType in types ==> m in selected
  {
    if ms == [] then []
    else
      assert forall m :: m in ms ==> m == ms[0] || m in ms[1..];
      if ms[0].messageType in types then [ms[0]] + SelectedMessages(ms[1..], types)
      else SelectedMessages(ms[1..], types)
  }

  /** The filter keeps the order of the messages: selecting from two runs is selecting from each in turn. */
  lemma {:induction false} SelectedMessagesAppend(a: seq<HarpMessage>, b: seq<HarpMessage>, types: seq<int>)
    ensures SelectedMessages(a + b, types) == SelectedMessages(a, types) + SelectedMessages(b, types)
  {
    if a == [] {
      assert a + b == b;
    } else {
      assert (a + b)[0] == a[0] && (a + b)[1..] == a[1..] + b;
      SelectedMessagesAppend(a[1..], b, types);
    }
  }

  function RecordsOf(ms: seq<HarpMessage>): (records: seq<Record>)
    ensures |records| == |ms|
  {
    if ms == [] then [] else [RecordOf(ms[0])] + RecordsOf(ms[1..])
  }

  /** Assembling the bodies of a stream gives the records of the messages the filter keeps. */
  lemma {:induction false} AssembleBodies(ms: seq<HarpMessage>, types: seq<int>)
    requires AllEncodable(ms)
    ensures Assemble(Bodies(ms), Some(types)) == Ok(RecordsOf(SelectedMessages(ms, types)))
  {
    if ms != [] {
      var bodies := Bodies(ms);
      assert bodies[0] == FrameBody(ms[0]) && bodies[1..] == Bodies(ms[1..]);
      AssembleBodies(ms[1..], types);
      if ms[0].messageType in types {
        var m := ms[0];
        DecodeEncodedFrame(m, 0);
        var selected := [m] + SelectedMessages(ms[1..], types);
        assert selected[0] == m && selected[1..] == SelectedMessages(ms[1..], types);
      }
    }
  }

  /**
    The round trip of a stream: `to_list`, given a filter, returns the
    records of exactly the messages whose type it lists, in the order they
    were sent, whatever the checksum bytes of their frames.
   */
  lemma {:induction false} DecodeSerialized(ms: seq<HarpMessage>, checksums: seq<byte>, types: seq<int>)
    requires AllEncodable(ms) && |checksums| == |ms|
    ensures DecodeStream(Serialize(ms, checksums), Some(types), 0) == Ok(RecordsOf(SelectedMessages(ms, types)))
  {
    FramesOfSerialize(ms, checksums);
    AssembleBodies(ms, types);
  }

  /** In particular for the stream a HARP device sends, with correct checksums. */
  lemma {:induction false} DecodeHarpStream(ms: seq<HarpMessage>, types: seq<int>)
    requires AllEncodable(ms)
    ensures DecodeStream(Serialize(ms, HarpChecksums(ms)), Some(types), 0) == Ok(RecordsOf(SelectedMessages(ms, types)))
  {
    DecodeSerialized(ms, HarpChecksums(ms), types);
  }

  /**
    With the message-type helper as written, a stream of at least one
    frame read without `processEvent` fails with TypeError, whatever
    `processRead` and `processWrite` ask for.
   */
  lemma {:induction false} SerializedWithoutEvent(ms: seq<HarpMessage>, checksums: seq<byte>)
    requires AllEncodable(ms) && |checksums| == |ms| && ms != []
    ensures DecodeStream(Serialize(ms, checksums), None, 0) == Err(TypeError)
  {
    assert |Serialize(ms, checksums)| >= 6;
    DecodeStreamWithoutFilter(Serialize(ms, checksums));
  }

  // ---- Streams of one frame ----

  /**
    A stream holding one frame, whatever its checksum byte, decodes to the
    message's record when the filter lists its type and to no record when
    it does not.
   */
  lemma {:induction false} DecodeOneFrame(m: HarpMessage, checksum: byte, types: seq<int>)
    requires Encodable(m)
    ensures DecodeStream(EncodeFrame(m, checksum), Some(types), 0)
         == Ok(if m.messageType in types then [RecordOf(m)] else [])
  {
    OneFrameScan(m, checksum);
    SelectOne(m, types);
  }

  lemma {:induction false} OneFrameScan(m: HarpMessage, checksum: byte)
    requires Encodable(m)
    ensures Frames(EncodeFrame(m, checksum), 0) == Scan(Bodies([m]), false)
  {
    FramesOfFrame(m, checksum, []);
    assert EncodeFrame(m, checksum) + [] == EncodeFrame(m, checksum);
    assert [m][1..] == [];
  }

  /** Assembling the frame of one message keeps or drops its record by its type. */
  lemma {:induction false} SelectOne(m: HarpMessage, types: seq<int>)
    requires Encodable(m)
    ensures Assemble(Bodies([m]), Some(types)) == Ok(if m.messageType in types then [RecordOf(m)] else [])
  {
    assert [m][0] == m && [m][1..] == [];
    AssembleBodies([m], types);
    assert SelectedMessages([], types) == [];
    assert SelectedMessages([m], types) == (if m.messageType in types then [m] else []);
    assert RecordsOf([]) == [] && RecordsOf([m]) == [RecordOf(m)];
  }

  /** A read reply from `address` carrying one U8 value. */
  function ReadReply(address: byte, value: byte): (m: HarpMessage)
    ensures Encodable(m) && FrameBody(m) == [1, 5, address, 0, 1, value]
    ensures m.messageType == 1 && RecordOf(m) == Record(1, address, Missing, [Int(value)])
  {
    var m := HarpMessage(1, address, 0, U8, Missing, [Int(value)]);
    assert Repeat(U8, 1) == [U8];
    assert EncodeAll([U8], [Int(value)]) == [value];
    m
  }

  /**
    Its frame, whatever its checksum byte, decodes to its one record when
    reads are selected, to nothing when only writes are, and to TypeError
    without `processEvent`.
   */
  lemma {:induction false} ReadReplyFrame(address: byte, value: byte, checksum: byte)
    ensures DecodeStream([1, 5, address, 0, 1, value, checksum], Some([1, 2, 3]), 0)
         == Ok([Record(1, address, Missing, [Int(value)])])
    ensures DecodeStream([1, 5, address, 0, 1, value, checksum], Some([2]), 0) == Ok([])
    ensures DecodeStream([1, 5, address, 0, 1, value, checksum], None, 0) == Err(TypeError)
  {
    var m := ReadReply(address, value);
    assert EncodeFrame(m, checksum) == [1, 5, address, 0, 1, value, checksum];
    DecodeOneFrame(m, checksum, [1, 2, 3]);
    DecodeOneFrame(m, checksum, [2]);
    DecodeStreamWithoutFilter(EncodeFrame(m, checksum));
  }

  /**
    A frame whose length byte reaches the end of the stream, or beyond it
    (Python's slice then stops at the end), is the stream's one frame.
   */
  lemma {:induction false} FramesOfWholeStream(data: seq<byte>)
    requires |data| >= 2 && |data| - 1 <= data[1]
    ensures Frames(data, 0) == Scan([data], false)
  {
    assert data[0..|data|] == data[0..] == data;
    assert Message(data, 0) == data;
    assert NextMessageStart(data, 0) > |data|;
  }

  /** Bytes read as U8 elements. */
  function IntsOf(bs: seq<byte>): (vs: seq<Value>)
    ensures |vs| == |bs| && forall i :: 0 <= i < |bs| ==> vs[i] == Int(bs[i])
  {
    if bs == [] then [] else [Int(bs[0])] + IntsOf(bs[1..])
  }

  /** U8 elements encode as the bytes they were read from. */
  lemma {:induction false} EncodeU8(bs: seq<byte>)
    ensures AllFit(Repeat(U8, |bs|), IntsOf(bs))
    ensures EncodeAll(Repeat(U8, |bs|), IntsOf(bs)) == bs
  {
    if bs != [] {
      RepeatTail(U8, |bs|);
      EncodeU8(bs[1..]);
      assert IntsOf(bs)[1..] == IntsOf(bs[1..]);
      assert EncodeElement(U8, Int(bs[0])) == [bs[0]];
      assert bs == [bs[0]] + bs[1..];
    }
  }

  /** The untimestamped U8 message whose elements are `bs`. */
  function U8Message(messageType: byte, address: byte, port: byte, bs: seq<byte>): (m: HarpMessage)
    requires |bs| < 252
    ensures Encodable(m) && FrameBody(m) == [messageType, 4 + |bs|, address, port, 1] + bs
    ensures RecordOf(m) == Record(messageType, address, Missing, IntsOf(bs))
  {
    EncodeU8(bs);
    LayoutSizeRepeat(U8, |bs|);
    HarpMessage(messageType, address, port, U8, Missing, IntsOf(bs))
  }

  /** Decoding a frame reads its type, address and payload type bytes and its payload, nothing else. */
  lemma {:induction false} DecodeMessageReads(message: seq<byte>, other: seq<byte>)
    requires |message| >= 5 && |other| >= 5
    requires message[0] == other[0] && message[2] == other[2] && message[4] == other[4] && message[5..] == other[5..]
    ensures DecodeMessage(message) == DecodeMessage(other)
  {
  }

  /**
    A U8 frame without timestamp decodes to its bytes after the header,
    whatever its length byte says.
   */
  lemma {:induction false} DecodeU8Frame(message: seq<byte>)
    requires 5 <= |message| <= 256 && message[4] == 1
    ensures DecodeMessage(message) == Ok(Record(message[0], message[2], Missing, IntsOf(message[5..])))
  {
    var m := U8Message(message[0], message[2], message[3], message[5..]);
    var body := FrameBody(m);
    DecodeEncodedFrame(m, 0);
    assert DecodeMessage(body) == Ok(RecordOf(m));
    assert body[5..] == message[5..];
    DecodeMessageReads(message, body);
  }

  /** Assembling one selected frame that decodes gives its one record. */
  lemma {:induction false} AssembleOne(message: seq<byte>, types: seq<int>)
    requires |message| > 0 && message[0] in types && DecodeMessage(message).Ok?
    ensures Assemble([message], Some(types)) == Ok([DecodeMessage(message).value])
  {
    var noFrames: seq<seq<byte>> := [];
    assert [message][0] == message && [message][1..] == noFrames;
    assert Assemble(noFrames, Some(types)) == Ok([]);
    assert [DecodeMessage(message).value] + [] == [DecodeMessage(message).value];
  }

  /**
    A U8 frame whose length byte reaches exactly the end of the stream:
    every byte after the five header bytes is read as an element, the last
    one (the place of the checksum) included. With the length byte 7 and
    the eight bytes `[1, 7, 5, 0, 1, 42, 0, checksum]` the elements are
    42, 0 and the checksum.
   */
  lemma {:induction false} LengthCountsTheChecksum(data: seq<byte>, types: seq<int>)
    requires |data| >= 6 && |data| - 1 == data[1] && data[4] == 1 && data[0] in types
    ensures DecodeStream(data, Some(types), 0) == Ok([Record(data[0], data[2], Missing, IntsOf(data[5..]))])
  {
    DecodeU8Frame(data);
    FramesOfWholeStream(data);
    AssembleOne(data, types);
  }

  /**
    A last frame whose length byte runs past the end of the data is not an
    error: the slice stops at the end, and a U8 frame without timestamp of
    at least five bytes decodes to a record of the bytes that are there.
   */
  lemma {:induction false} ClampedFrameDecodes(data: seq<byte>, types: seq<int>)
    requires |data| >= 5 && |data| - 1 < data[1] && data[4] == 1 && data[0] in types
    ensures DecodeStream(data, Some(types), 0) == Ok([Record(data[0], data[2], Missing, IntsOf(data[5..]))])
  {
    DecodeU8Frame(data);
    FramesOfWholeStream(data);
    AssembleOne(data, types);
  }

  /** For instance a read reply cut short after one byte of the ten its length byte announces. */
  lemma {:induction false} ClampedReadReply(address: byte, value: byte)
    ensures DecodeStream([1, 10, address, 0, 1, value], Some([1]), 0) == Ok([Record(1, address, Missing, [Int(value)])])
  {
    var data := [1, 10, address, 0, 1, value];
    ClampedFrameDecodes(data, [1]);
    assert data[5..] == [value];
    assert IntsOf([value]) == [Int(value)];
  }

  /**
    A stream that is one frame running past the end, of a type the filter
    does not list, is skipped before its header is read: no error even
    when it is too short to have one.
   */
  lemma {:induction false} UnlistedClampedFrameSkipped(data: seq<byte>, types: seq<int>)
    requires |data| >= 2 && |data| - 1 < data[1] && data[0] !in types
    ensures DecodeStream(data, Some(types), 0) == Ok([])
  {
    FramesOfWholeStream(data);
    DecodeStreamIsDecodeSelected(data, types);
    assert Selected([data], types) == [];
  }
}
