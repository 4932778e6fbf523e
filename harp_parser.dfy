/**
  The HARP frame decoder of harp_parser.py (class HarpParser): the
  message-type filter, the frame scanner of `to_list` and the decoding of
  one frame into a record.

  The stream is cut into frames by the length byte at offset 1 of each
  frame; each frame that the filter selects is decoded from its type byte
  (offset 0), address (offset 2), payload type (offset 4) and payload
  (offset 5 to the end of the frame). The checksum byte that follows each
  frame is skipped.
 */
module HarpParser {
  import opened Wrappers
  import opened LittleEndian
  import opened Errors
  import opened PayloadLookup
  import opened StructUnpack

  /** The raw hardware timestamp, or the NaN sentinel of a frame without one. */
  datatype Timestamp = Missing | Stamp(seconds: int, ticks: int)

  /** One output row: `[message_type, message_address, timestamp] + elements`. */
  datatype Record = Record(messageType: byte, address: byte, timestamp: Timestamp, elements: seq<Value>)

  // ---- The message-type filter ----

  /** The message types the three flags select: 1 read, 2 write, 3 event. */
  function SelectedTypes(processRead: bool, processWrite: bool, processEvent: bool): (types: seq<int>)
    ensures forall t :: t in types <==> (t == 1 && processRead) || (t == 2 && processWrite) || (t == 3 && processEvent)
    ensures forall i, j :: 0 <= i < j < |types| ==> types[i] < types[j]
  {
    (if processRead then [1] else []) + (if processWrite then [2] else []) + (if processEvent then [3] else [])
  }

  /**
    __unpack_message_types_to_process as written: the `return` sits inside
    the `processEvent` branch, so without that flag the helper falls off
    its end and yields None.
   */
  method UnpackMessageTypesToProcess(processRead: bool, processWrite: bool, processEvent: bool)
    returns (types: Option<seq<int>>)
    ensures types.Some? <==> processEvent
    ensures types.Some? ==> types.value == SelectedTypes(processRead, processWrite, true)
  {
    var typesToProcess: seq<int> := [];
    if processRead {
      typesToProcess := typesToProcess + [1];
    }
    if processWrite {
      typesToProcess := typesToProcess + [2];
    }
    if processEvent {
      typesToProcess := typesToProcess + [3];
      return Some(typesToProcess);
    }
    return None;
  }

  /** The helper as evidently intended: the selected list, whatever the flags. */
  method MessageTypesToProcessIntended(processRead: bool, processWrite: bool, processEvent: bool)
    returns (types: seq<int>)
    ensures forall t :: t in types <==> (t == 1 && processRead) || (t == 2 && processWrite) || (t == 3 && processEvent)
    ensures forall i, j :: 0 <= i < j < |types| ==> types[i] < types[j]
    ensures types == SelectedTypes(processRead, processWrite, processEvent)
  {
    types := [];
    if processRead {
      types := types + [1];
    }
    if processWrite {
      types := types + [2];
    }
    if processEvent {
      types := types + [3];
    }
  }

  // ---- Frame boundaries ----

  /** Python's `data[lo:hi]` for non-negative bounds: both are clamped to the length. */
  function PySlice(data: seq<byte>, lo: nat, hi: nat): (s: seq<byte>)
    ensures hi <= |data| && lo <= hi ==> s == data[lo..hi]
    ensures hi > |data| && lo <= |data| ==> s == data[lo..]
    ensures lo >= hi || lo >= |data| ==> s == []
  {
    var h := if hi < |data| then hi else |data|;
    if lo >= h then [] else data[lo..h]
  }

  /** `message_end`: one past the frame starting at `start` (harp_parser.py:143). */
  function MessageEnd(data: seq<byte>, start: nat): (end: nat)
    requires start + 1 < |data|
    ensures end > start
  {
    start + data[start + 1] + 1
  }

  /** `next_message_start`: the frame's end plus the checksum byte it skips. */
  function NextMessageStart(data: seq<byte>, start: nat): (next: nat)
    requires start + 1 < |data|
    ensures next == start + data[start + 1] + 2 && next > start + 1
  {
    MessageEnd(data, start) + 1
  }

  /** `message = data[message_start:message_end]`. */
  function Message(data: seq<byte>, start: nat): (message: seq<byte>)
    requires start + 1 < |data|
    ensures MessageEnd(data, start) <= |data| ==>
      message == data[start..MessageEnd(data, start)] && |message| - 1 == data[start + 1]
    ensures MessageEnd(data, start) > |data| ==> message == data[start..]
    ensures |message| >= 1 && message[0] == data[start]
  {
    PySlice(data, start, MessageEnd(data, start))
  }

  /**
    The frames the scanner cuts from `start` on, and whether it stopped on
    the IndexError of a lone final byte (no length byte to read).
   */
  datatype Scan = Scan(messages: seq<seq<byte>>, truncated: bool)

  function Frames(data: seq<byte>, start: nat): (s: Scan)
    decreases |data| - start
  {
    if start >= |data| then Scan([], false)
    else if start + 1 >= |data| then Scan([], true)
    else
      var rest := Frames(data, NextMessageStart(data, start));
      Scan([Message(data, start)] + rest.messages, rest.truncated)
  }

  // ---- Decoding one frame ----

  /** Python's `a // b` for a positive divisor. */
  function FloorDiv(a: int, b: int): int
    requires b > 0
  {
    a / b
  }

  /** FloorDiv is the floor of the quotient, also for a negative dividend. */
  lemma {:induction false} FloorDivIsFloor(a: int, b: int)
    requires b > 0
    ensures FloorDiv(a, b) * b <= a < FloorDiv(a, b) * b + b
  {
  }

  /**
    `count` of harp_parser.py:158-160: the payload's length less the
    timestamp prefix, floor-divided by the size nibble of the payload type.
   */
  function ElementCount(payloadType: byte, length: nat): int
    requires LowNibble(payloadType) != 0
  {
    FloorDiv(length - TimestampBytes(HasTimestampFlag(payloadType)), LowNibble(payloadType))
  }

  /**
    The layout built for `count == (length - t) // w` elements has
    `t + max(count, 0) * w` bytes; that is `length` exactly when the bytes
    after the prefix are a whole number of elements.
   */
  lemma {:induction false} CountFits(length: nat, t: nat, w: nat, size: int)
    requires w > 0 && size == t + Repetitions(FloorDiv(length - t, w)) * w
    ensures size == length <==> length >= t && (length - t) % w == 0
    ensures length >= t ==> Repetitions(FloorDiv(length - t, w)) == (length - t) / w
  {
    var count := FloorDiv(length - t, w);
    FloorDivIsFloor(length - t, w);
    if length < t {
      assert count * w < 0;
      assert count < 0;
    } else {
      var q, r := (length - t) / w, (length - t) % w;
      assert length - t == q * w + r && 0 <= r < w;
      assert q >= 0;
      if r != 0 {
        assert t + q * w != length;
      }
    }
  }

  /** A payload of `length` bytes holds the timestamp prefix and a whole number of elements. */
  predicate PayloadFits(payloadType: byte, length: nat)
    requires DataChar(payloadType).Some?
  {
    var t := TimestampBytes(HasTimestampFlag(payloadType));
    length >= t && (length - t) % Width(DataChar(payloadType).value) == 0
  }

  /** The layout get_payload_string builds for a payload of `length` bytes. */
  function FormatFor(payloadType: byte, length: nat): Result<seq<ElementKind>, Error>
    requires LowNibble(payloadType) != 0
  {
    PayloadString(HasTimestampFlag(payloadType), ElementCount(payloadType, length), payloadType)
  }

  /**
    The layout built for a payload of `length` bytes has exactly `length`
    bytes when, and only when, the payload fits.
   */
  lemma {:induction false} FormatFits(payloadType: byte, length: nat)
    requires LowNibble(payloadType) != 0 && DataChar(payloadType).Some?
    ensures FormatFor(payloadType, length).Ok?
    ensures LayoutSize(FormatFor(payloadType, length).value) == length <==> PayloadFits(payloadType, length)
  {
    var hasTimestamp := HasTimestampFlag(payloadType);
    var t, w := TimestampBytes(hasTimestamp), Width(DataChar(payloadType).value);
    var count := ElementCount(payloadType, length);
    var size := LayoutSize(FormatFor(payloadType, length).value);
    assert size == t + Repetitions(count) * w by {
      PayloadStringSize(hasTimestamp, count, payloadType);
    }
    assert count == FloorDiv(length - t, w);
    CountFits(length, t, w, size);
  }

  /** A layout that fits holds the timestamp pair and one element per whole element width. */
  lemma {:induction false} FormatCount(payloadType: byte, length: nat)
    requires LowNibble(payloadType) != 0 && DataChar(payloadType).Some? && PayloadFits(payloadType, length)
    ensures FormatFor(payloadType, length).Ok?
    ensures |FormatFor(payloadType, length).value| - (if HasTimestampFlag(payloadType) then 2 else 0)
         == (length - TimestampBytes(HasTimestampFlag(payloadType))) / Width(DataChar(payloadType).value)
  {
    var hasTimestamp := HasTimestampFlag(payloadType);
    var t, w := TimestampBytes(hasTimestamp), Width(DataChar(payloadType).value);
    var count := ElementCount(payloadType, length);
    assert count == FloorDiv(length - t, w);
    CountFits(length, t, w, t + Repetitions(count) * w);
  }

  /**
    Lines 157-164 and 166-176 for a frame's payload type and payload: the
    payload is unpacked against FormatFor, and the timestamp pair, if any,
    is split off the front.
   */
  function DecodePayload(payloadType: byte, payload: seq<byte>): Result<(Timestamp, seq<Value>), Error>
    requires LowNibble(payloadType) != 0
  {
    var format :- FormatFor(payloadType, |payload|);
    var unpacked :- Unpack(format, payload);
    if HasTimestampFlag(payloadType) then
      AllFitAt(format, unpacked, 0);
      AllFitAt(format, unpacked, 1);
      Ok((Stamp(unpacked[0].n, unpacked[1].n), unpacked[2..]))
    else
      Ok((Missing, unpacked))
  }

  /** The record of one selected frame (harp_parser.py:152-176). */
  function DecodeMessage(message: seq<byte>): Result<Record, Error>
  {
    if |message| < 3 then Err(IndexError)
    else if |message| < 5 then Err(IndexError)
    else if LowNibble(message[4]) == 0 then Err(ZeroDivisionError)
    else
      var decoded :- DecodePayload(message[4], message[5..]);
      Ok(Record(message[0], message[2], decoded.0, decoded.1))
  }

  /**
    Which payloads decode: those whose payload type is in the table and
    whose length is the timestamp prefix plus a whole number of elements;
    KeyError for a type outside the table, StructError for a length that
    does not fit.
   */
  lemma {:induction false} DecodePayloadOutcome(payloadType: byte, payload: seq<byte>)
    requires LowNibble(payloadType) != 0
    ensures DataChar(payloadType).None? ==> DecodePayload(payloadType, payload) == Err(KeyError(MaskedKey(payloadType)))
    ensures DataChar(payloadType).Some? && !PayloadFits(payloadType, |payload|) ==>
      DecodePayload(payloadType, payload) == Err(StructError)
    ensures DecodePayload(payloadType, payload).Ok? <==>
      DataChar(payloadType).Some? && PayloadFits(payloadType, |payload|)
  {
    if DataChar(payloadType).Some? {
      FormatFits(payloadType, |payload|);
    }
  }

  /** A layout that starts `IH` reads its first two values from bytes 0-3 and 4-5. */
  lemma {:induction false} UnpackTimestampPair(layout: seq<ElementKind>, bs: seq<byte>)
    requires LayoutSize(layout) == |bs| && |layout| >= 2 && layout[0] == U32 && layout[1] == U16
    ensures |bs| >= 6
    ensures UnpackAll(layout, bs)[0] == Int(Unsigned(bs[0..4]))
    ensures UnpackAll(layout, bs)[1] == Int(Unsigned(bs[4..6]))
    ensures LayoutSize(layout[2..]) == |bs| - 6 && UnpackAll(layout, bs)[2..] == UnpackAll(layout[2..], bs[6..])
  {
    UnpackAllCons(layout, bs);
    UnpackAllCons(layout[1..], bs[4..]);
    assert bs[..4] == bs[0..4];
    assert bs[4..][..2] == bs[4..6];
    assert layout[1..][1..] == layout[2..];
    assert bs[4..][2..] == bs[6..];
  }

  /**
    The timestamp of a decoded payload: present exactly when bit 4 of the
    payload type is set, and then the little-endian U32 seconds of bytes
    0-3 and U16 ticks of bytes 4-5.
   */
  lemma {:induction false} DecodedTimestamp(payloadType: byte, payload: seq<byte>)
    requires LowNibble(payloadType) != 0 && DecodePayload(payloadType, payload).Ok?
    ensures var timestamp := DecodePayload(payloadType, payload).value.0;
      && (timestamp.Stamp? <==> HasTimestampFlag(payloadType))
      && (timestamp.Stamp? ==>
            |payload| >= 6 && timestamp.seconds == Unsigned(payload[0..4]) && timestamp.ticks == Unsigned(payload[4..6]))
  {
    if HasTimestampFlag(payloadType) {
      var format := FormatFor(payloadType, |payload|).value;
      PayloadStringPrefix(true, ElementCount(payloadType, |payload|), payloadType);
      UnpackTimestampPair(format, payload);
    }
  }

  /** A decoded payload holds one element per whole element width after the timestamp. */
  lemma {:induction false} DecodedElementCount(payloadType: byte, payload: seq<byte>)
    requires LowNibble(payloadType) != 0 && DecodePayload(payloadType, payload).Ok?
    ensures DataChar(payloadType).Some? && PayloadFits(payloadType, |payload|)
    ensures |DecodePayload(payloadType, payload).value.1|
         == (|payload| - TimestampBytes(HasTimestampFlag(payloadType))) / Width(DataChar(payloadType).value)
  {
    DecodePayloadOutcome(payloadType, payload);
    FormatCount(payloadType, |payload|);
    var format := FormatFor(payloadType, |payload|).value;
    var unpacked := Unpack(format, payload).value;
    assert |unpacked| == |format|;
  }

  /**
    The elements of a decoded payload are the bytes after the timestamp
    unpacked as the table's kind, as many as fit; UnpackRepeatAtOffset
    (module StructUnpack) then says element `j` is read little-endian
    from the `w` bytes after the timestamp and the `j` elements before it.
   */
  lemma {:induction false} DecodedElements(payloadType: byte, payload: seq<byte>)
    requires LowNibble(payloadType) != 0 && DecodePayload(payloadType, payload).Ok?
    ensures DataChar(payloadType).Some?
    ensures var k, t := DataChar(payloadType).value, TimestampBytes(HasTimestampFlag(payloadType));
      var n := Repetitions(ElementCount(payloadType, |payload|));
      && t <= |payload| && LayoutSize(Repeat(k, n)) == |payload| - t
      && DecodePayload(payloadType, payload).value.1 == UnpackAll(Repeat(k, n), payload[t..])
  {
    DecodePayloadOutcome(payloadType, payload);
    var hasTimestamp := HasTimestampFlag(payloadType);
    var k := DataChar(payloadType).value;
    var n := Repetitions(ElementCount(payloadType, |payload|));
    var format := FormatFor(payloadType, |payload|).value;
    assert format == Layout(hasTimestamp, ElementCount(payloadType, |payload|), k);
    if hasTimestamp {
      assert format[2..] == Repeat(k, n);
      UnpackTimestampPair(format, payload);
    } else {
      assert format == Repeat(k, n);
      assert payload[0..] == payload;
    }
  }

  /**
    The errors raised before the payload is unpacked: IndexError for a
    frame too short to have an address (`message[2]`) or a payload type
    (`message[4]`), ZeroDivisionError for a size nibble of zero, and
    KeyError for a payload type outside the table.
   */
  lemma {:induction false} DecodeMessageHeaderErrors(message: seq<byte>)
    ensures |message| < 5 ==> DecodeMessage(message) == Err(IndexError)
    ensures |message| >= 5 && LowNibble(message[4]) == 0 ==> DecodeMessage(message) == Err(ZeroDivisionError)
    ensures |message| >= 5 && LowNibble(message[4]) != 0 && DataChar(message[4]).None? ==>
      DecodeMessage(message) == Err(KeyError(MaskedKey(message[4])))
  {
    if |message| >= 5 && LowNibble(message[4]) != 0 {
      DecodePayloadOutcome(message[4], message[5..]);
    }
  }

  /**
    Which frames decode: a known payload type and a payload that is the
    timestamp prefix plus a whole number of elements; the record copies
    the frame's type byte and address and takes the rest from its payload.
   */
  lemma {:induction false} DecodeMessageOutcome(message: seq<byte>)
    ensures DecodeMessage(message).Ok? <==>
      |message| >= 5 && DataChar(message[4]).Some? && PayloadFits(message[4], |message| - 5)
    ensures |message| >= 5 && DataChar(message[4]).Some? && !PayloadFits(message[4], |message| - 5) ==>
      DecodeMessage(message) == Err(StructError)
    ensures DecodeMessage(message).Ok? ==>
      var r := DecodeMessage(message).value;
      && r.messageType == message[0]
      && r.address == message[2]
      && (r.timestamp, r.elements) == DecodePayload(message[4], message[5..]).value
  {
    if |message| >= 5 && LowNibble(message[4]) != 0 {
      DecodePayloadOutcome(message[4], message[5..]);
    }
  }

  // ---- Record assembly ----

  /** The records of the selected frames, in order; the first failure aborts. */
  function Assemble(messages: seq<seq<byte>>, types: Option<seq<int>>): Result<seq<Record>, Error>
  {
    if messages == [] then Ok([])
    else if |messages[0]| == 0 then Err(IndexError)
    else if types.None? then Err(TypeError)
    else if messages[0][0] in types.value then
      var record :- DecodeMessage(messages[0]);
      var rest :- Assemble(messages[1..], types);
      Ok([record] + rest)
    else Assemble(messages[1..], types)
  }

  /**
    What `to_list` returns for a buffer and a filter: the frames scanned
    from `start` are assembled, and a lone final byte raises IndexError
    once every frame before it has been decoded.
   */
  function DecodeStream(data: seq<byte>, types: Option<seq<int>>, start: nat): Result<seq<Record>, Error>
  {
    var scan := Frames(data, start);
    var records :- Assemble(scan.messages, types);
    if scan.truncated then Err(IndexError) else Ok(records)
  }

  // ---- Filter, then decode ----

  /** The frames whose type byte the filter lists, in stream order. */
  function Selected(messages: seq<seq<byte>>, types: seq<int>): (selected: seq<seq<byte>>)
    ensures |selected| <= |messages|
    ensures forall i :: 0 <= i < |selected| ==> selected[i] in messages
    ensures forall i :: 0 <= i < |selected| ==> |selected[i]| > 0 && selected[i][0] in types
    ensures forall m :: m in messages && |m| > 0 && m[0] in types ==> m in selected
  {
    if messages == [] then []
    else
      assert forall m :: m in messages ==> m == messages[0] || m in messages[1..];
      if |messages[0]| > 0 && messages[0][0] in types then [messages[0]] + Selected(messages[1..], types)
      else Selected(messages[1..], types)
  }

  /** Selection keeps stream order: selecting from two runs of frames is selecting from each in turn. */
  lemma {:induction false} SelectedAppend(a: seq<seq<byte>>, b: seq<seq<byte>>, types: seq<int>)
    ensures Selected(a + b, types) == Selected(a, types) + Selected(b, types)
  {
    if a == [] {
      assert a + b == b;
    } else {
      assert (a + b)[0] == a[0] && (a + b)[1..] == a[1..] + b;
      SelectedAppend(a[1..], b, types);
    }
  }

  /** Every frame decoded, in order, or the failure of the first that does not decode. */
  function DecodeAll(messages: seq<seq<byte>>): Result<seq<Record>, Error>
  {
    if messages == [] then Ok([])
    else
      var record :- DecodeMessage(messages[0]);
      var rest :- DecodeAll(messages[1..]);
      Ok([record] + rest)
  }

  /** Each record of DecodeAll is its own frame decoded. */
  lemma {:induction false} DecodeAllRecords(messages: seq<seq<byte>>)
    requires DecodeAll(messages).Ok?
    ensures |DecodeAll(messages).value| == |messages|
    ensures forall i :: 0 <= i < |messages| ==> DecodeMessage(messages[i]) == Ok(DecodeAll(messages).value[i])
  {
    if messages != [] {
      DecodeAllRecords(messages[1..]);
      var records := DecodeAll(messages).value;
      assert records == [DecodeMessage(messages[0]).value] + DecodeAll(messages[1..]).value;
      forall i | 0 <= i < |messages|
        ensures DecodeMessage(messages[i]) == Ok(records[i])
      {
        if i > 0 {
          assert messages[i] == messages[1..][i - 1];
        }
      }
    }
  }

  /** The frames of a stream have their type byte. */
  predicate NonEmptyFrames(messages: seq<seq<byte>>)
  {
    forall i :: 0 <= i < |messages| ==> |messages[i]| > 0
  }

  /**
    With a filter, the loop's records are the frames the filter selects,
    decoded in stream order: a frame left out is never decoded, so its
    errors do not matter, and the first selected frame that does not
    decode ends the loop with its error.
   */
  lemma {:induction false} AssembleIsDecodeSelected(messages: seq<seq<byte>>, types: seq<int>)
    requires NonEmptyFrames(messages)
    ensures Assemble(messages, Some(types)) == DecodeAll(Selected(messages, types))
  {
    if messages != [] {
      assert NonEmptyFrames(messages[1..]) by {
        forall i | 0 <= i < |messages[1..]|
          ensures |messages[1..][i]| > 0
        {
          assert messages[1..][i] == messages[i + 1];
        }
      }
      AssembleIsDecodeSelected(messages[1..], types);
      if messages[0][0] in types {
        var selected := [messages[0]] + Selected(messages[1..], types);
        assert selected[0] == messages[0] && selected[1..] == Selected(messages[1..], types);
      }
    }
  }

  /**
    Every record the loop returns has a type the filter lists, and there
    is one per selected frame.
   */
  lemma AssembledRecords(messages: seq<seq<byte>>, types: seq<int>)
    requires NonEmptyFrames(messages) && Assemble(messages, Some(types)).Ok?
    ensures |Assemble(messages, Some(types)).value| == |Selected(messages, types)|
    ensures forall i :: 0 <= i < |Assemble(messages, Some(types)).value| ==>
      Assemble(messages, Some(types)).value[i].messageType in types
  {
    AssembleIsDecodeSelected(messages, types);
    var selected := Selected(messages, types);
    DecodeAllRecords(selected);
    forall i | 0 <= i < |selected|
      ensures DecodeAll(selected).value[i].messageType in types
    {
      DecodeMessageOutcome(selected[i]);
    }
  }

  /** Without a filter, the first frame ends the loop with TypeError (`in None`). */
  lemma {:induction false} AssembleWithoutFilter(messages: seq<seq<byte>>)
    requires NonEmptyFrames(messages) && messages != []
    ensures Assemble(messages, None) == Err(TypeError)
  {
  }

  /**
    `to_list` without a filter: an empty buffer gives no records, a lone
    byte IndexError, and any longer buffer TypeError at its first frame.
   */
  lemma {:induction false} DecodeStreamWithoutFilter(data: seq<byte>)
    ensures |data| == 0 ==> DecodeStream(data, None, 0) == Ok([])
    ensures |data| == 1 ==> DecodeStream(data, None, 0) == Err(IndexError)
    ensures |data| >= 2 ==> DecodeStream(data, None, 0) == Err(TypeError)
  {
    if |data| >= 2 {
      var messages := Frames(data, 0).messages;
      assert messages[0] == Message(data, 0);
    }
  }

  /** The frames a scan cuts are never empty. */
  lemma {:induction false} FramesNonEmpty(data: seq<byte>, start: nat)
    ensures NonEmptyFrames(Frames(data, start).messages)
    decreases |data| - start
  {
    if start + 1 < |data| {
      FramesNonEmpty(data, NextMessageStart(data, start));
      var rest := Frames(data, NextMessageStart(data, start)).messages;
      var messages := Frames(data, start).messages;
      assert messages == [Message(data, start)] + rest;
      forall i | 0 <= i < |messages|
        ensures |messages[i]| > 0
      {
        if i > 0 {
          assert messages[i] == rest[i - 1];
        }
      }
    }
  }

  /**
    `to_list` with a filter, on any bytes: the frames the scanner cuts and
    the filter selects are decoded in stream order, the first that does
    not decode ends it with its error, and a lone final byte then raises
    IndexError.
   */
  lemma {:induction false} DecodeStreamIsDecodeSelected(data: seq<byte>, types: seq<int>)
    ensures DecodeStream(data, Some(types), 0)
         == (var scan := Frames(data, 0);
             match DecodeAll(Selected(scan.messages, types))
             case Err(e) => Err(e)
             case Ok(records) => if scan.truncated then Err(IndexError) else Ok(records))
  {
    FramesNonEmpty(data, 0);
    AssembleIsDecodeSelected(Frames(data, 0).messages, types);
  }

  /** `processed + rest`, or the failure of the rest. */
  function Prepend(processed: seq<Record>, rest: Result<seq<Record>, Error>): Result<seq<Record>, Error>
  {
    match rest
    case Ok(records) => Ok(processed + records)
    case Err(e) => Err(e)
  }

  /** One turn of the scanner's loop, in terms of DecodeStream. */
  lemma {:induction false} DecodeStreamStep(data: seq<byte>, types: Option<seq<int>>, start: nat)
    requires start + 1 < |data|
    ensures var message := Message(data, start);
      DecodeStream(data, types, start) ==
        if types.None? then Err(TypeError)
        else if message[0] in types.value then
          match DecodeMessage(message)
          case Err(e) => Err(e)
          case Ok(record) => Prepend([record], DecodeStream(data, types, NextMessageStart(data, start)))
        else DecodeStream(data, types, NextMessageStart(data, start))
  {
    var rest := Frames(data, NextMessageStart(data, start));
    assert Frames(data, start).messages == [Message(data, start)] + rest.messages;
    assert Frames(data, start).messages[1..] == rest.messages;
  }

  /** Prepending in two steps is prepending the concatenation. */
  lemma {:induction false} PrependPrepend(a: seq<Record>, b: seq<Record>, rest: Result<seq<Record>, Error>)
    ensures Prepend(a, Prepend(b, rest)) == Prepend(a + b, rest)
  {
    if rest.Ok? {
      assert a + (b + rest.value) == (a + b) + rest.value;
    }
  }

  /**
    The `while` loop of `to_list` (harp_parser.py:133-178) over a buffer
    already read, with the filter the helper returned.
   */
  method ScanFrames(data: seq<byte>, typesToProcess: Option<seq<int>>) returns (r: Result<seq<Record>, Error>)
    ensures r == DecodeStream(data, typesToProcess, 0)
  {
    var messageStart := 0;
    var messageEnd := 0;
    var eof := |data|;
    var nextMessageStart := 0;
    var processedData: seq<Record> := [];
    assert Prepend([], DecodeStream(data, typesToProcess, 0)) == DecodeStream(data, typesToProcess, 0) by {
      var d := DecodeStream(data, typesToProcess, 0);
      if d.Ok? {
        assert [] + d.value == d.value;
      }
    }
    while nextMessageStart < eof
      invariant 0 <= messageStart <= nextMessageStart
      invariant DecodeStream(data, typesToProcess, 0)
             == Prepend(processedData, DecodeStream(data, typesToProcess, nextMessageStart))
      decreases eof - nextMessageStart
    {
      messageStart := nextMessageStart;
      if messageStart + 1 >= eof {
        return Err(IndexError);
      }
      messageEnd := messageStart + data[messageStart + 1] + 1;
      nextMessageStart := messageEnd + 1;
      var message := PySlice(data, messageStart, messageEnd);
      assert message == Message(data, messageStart);
      var messageType := message[0];
      DecodeStreamStep(data, typesToProcess, messageStart);
      if typesToProcess.None? {
        return Err(TypeError);
      }
      if messageType in typesToProcess.value {
        var decoded := DecodeMessage(message);
        if decoded.Err? {
          return Err(decoded.error);
        }
        PrependPrepend(processedData, [decoded.value], DecodeStream(data, typesToProcess, nextMessageStart));
        processedData := processedData + [decoded.value];
      }
    }
    assert DecodeStream(data, typesToProcess, nextMessageStart) == Ok([]);
    assert processedData + [] == processedData;
    return Ok(processedData);
  }

  /** `to_list` on the bytes of the file, with the helper as written. */
  method ToList(data: seq<byte>, processRead: bool, processWrite: bool, processEvent: bool)
    returns (r: Result<seq<Record>, Error>)
    ensures r == DecodeStream(data, if processEvent then Some(SelectedTypes(processRead, processWrite, true)) else None, 0)
  {
    var typesToProcess := UnpackMessageTypesToProcess(processRead, processWrite, processEvent);
    r := ScanFrames(data, typesToProcess);
  }

  /**
    `to_list()` called with its default flags: reads, writes and events
    are all processed, so the helper's early return does not bite.
  */
  method ToListDefault(data: seq<byte>) returns (r: Result<seq<Record>, Error>)
    ensures r == DecodeStream(data, Some([1, 2, 3]), 0)
  {
    r := ToList(data, true, true, true);
    assert SelectedTypes(true, true, true) == [1] + [2] + [3] == [1, 2, 3];
  }

  /** `to_list` with the helper as evidently intended. */
  method ToListIntended(data: seq<byte>, processRead: bool, processWrite: bool, processEvent: bool)
    returns (r: Result<seq<Record>, Error>)
    ensures r == DecodeStream(data, Some(SelectedTypes(processRead, processWrite, processEvent)), 0)
  {
    var typesToProcess := MessageTypesToProcessIntended(processRead, processWrite, processEvent);
    r := ScanFrames(data, Some(typesToProcess));
  }
}
