/**
  The payload type table of harp_parser.py (class PayloadLookup): the map
  from a masked payload type byte to a struct format character, and the
  unpack layout built from it.
 */
module PayloadLookup {
  import opened Wrappers
  import opened LittleEndian
  import opened Errors

  /** The struct format characters of the table, one per element kind. */
  datatype ElementKind =
    | U8   // 'B'
    | I8   // 'b'
    | U16  // 'H'
    | I16  // 'h'
    | U32  // 'I'
    | I32  // 'i'
    | U64  // 'Q'
    | I64  // 'q'
    | F32  // 'f'

  /** Byte width of a kind under struct's standard sizes (the `<` prefix). */
  function Width(k: ElementKind): nat
  {
    match k
    case U8 | I8 => 1
    case U16 | I16 => 2
    case U32 | I32 | F32 => 4
    case U64 | I64 => 8
  }

  predicate IsSignedKind(k: ElementKind)
  {
    k == I8 || k == I16 || k == I32 || k == I64
  }

  /** DATA_CHARS: masked payload type to format character. */
  const DATA_CHARS: map<byte, ElementKind> := map[
    0x01 := U8, 0x81 := I8,
    0x02 := U16, 0x82 := I16,
    0x04 := U32, 0x84 := I32,
    0x08 := U64, 0x88 := I64,
    0x44 := F32
  ]

  // The masks of the source, written as arithmetic on a byte held as a
  // number 0..255. The *MatchesBitwise lemmas below show that each equals
  // the bitwise `&` it stands for.

  /** `b & 0x0F`: the element width field (SIZE_MASK). */
  function LowNibble(b: byte): byte
  {
    b % 16
  }

  /** `b & 0xC0`: the numeric class field. */
  function ClassBits(b: byte): byte
  {
    b / 64 * 64
  }

  /** `b & 0x10 != 0`: the timestamp flag (HAS_TIMESTAMP). */
  predicate HasTimestampFlag(b: byte)
  {
    b / 16 % 2 == 1
  }

  /** A byte is its class (bits 6-7), bits 4-5 and its low nibble. */
  lemma {:induction false} Fields(c: int, f: int, n: int)
    requires 0 <= c < 4 && 0 <= f < 4 && 0 <= n < 16
    ensures var b := 64 * c + 16 * f + n;
      && 0 <= b < 256 && LowNibble(b) == n && ClassBits(b) == 64 * c
      && b / 16 % 4 == f && (HasTimestampFlag(b) <==> f % 2 == 1)
  {
    var b := 64 * c + 16 * f + n;
    assert b % 16 == n && b / 16 == 4 * c + f;
    assert b / 64 == c;
  }

  lemma {:induction false} Split(b: byte)
    ensures b == 64 * (b / 64) + 16 * (b / 16 % 4) + b % 16 && b / 64 < 4
  {
  }

  /** The table key of a payload type byte: `(b & 0xC0) | (b & 0x0F)`, bits 4-5 cleared. */
  function MaskedKey(payloadType: byte): byte
  {
    Split(payloadType);
    Fields(payloadType / 64, 0, payloadType % 16);
    ClassBits(payloadType) + LowNibble(payloadType)
  }

  /** The key keeps the class and the low nibble and clears bits 4 and 5. */
  lemma {:induction false} MaskedKeyFields(payloadType: byte)
    ensures var key := MaskedKey(payloadType);
      && LowNibble(key) == LowNibble(payloadType) && ClassBits(key) == ClassBits(payloadType)
      && key / 16 % 4 == 0
  {
    Split(payloadType);
    Fields(payloadType / 64, 0, payloadType % 16);
  }

  lemma {:induction false} LowNibbleMatchesBitwise(b: bv8)
    ensures LowNibble(b as int) == (b & 0x0F) as int
  {
  }

  lemma {:induction false} ClassBitsMatchBitwise(b: bv8)
    ensures ClassBits(b as int) == (b & 0xC0) as int
  {
  }

  lemma {:induction false} TimestampFlagMatchesBitwise(b: bv8)
    ensures HasTimestampFlag(b as int) <==> b & 0x10 != 0
  {
  }

  lemma {:induction false} MaskedKeyMatchesBitwise(b: bv8)
    ensures MaskedKey(b as int) == ((b & 0xC0) | (b & 0x0F)) as int
  {
    LowNibbleMatchesBitwise(b);
    ClassBitsMatchBitwise(b);
  }

  /** The table key of each kind: the inverse of the table. */
  function Key(k: ElementKind): (key: byte)
    ensures key in DATA_CHARS && DATA_CHARS[key] == k
    ensures LowNibble(key) == Width(k) && MaskedKey(key) == key
  {
    match k
    case U8 => 0x01
    case I8 => 0x81
    case U16 => 0x02
    case I16 => 0x82
    case U32 => 0x04
    case I32 => 0x84
    case U64 => 0x08
    case I64 => 0x88
    case F32 => 0x44
  }

  /**
    __get_data_char: the kind the table gives for a payload type byte, or
    None where Python's dictionary lookup raises KeyError.
   */
  function DataChar(payloadType: byte): (r: Option<ElementKind>)
    ensures r.Some? ==> Width(r.value) == LowNibble(payloadType)
  {
    var key := MaskedKey(payloadType);
    MaskedKeyFields(payloadType);
    if key in DATA_CHARS then Some(DATA_CHARS[key]) else None
  }

  /** The lookup succeeds exactly for the nine keys of the table, and gives the kind of that key. */
  lemma {:induction false} DataCharDomain(payloadType: byte)
    ensures DataChar(payloadType).Some? <==> MaskedKey(payloadType) in {0x01, 0x81, 0x02, 0x82, 0x04, 0x84, 0x08, 0x88, 0x44}
    ensures DataChar(payloadType).Some? ==> Key(DataChar(payloadType).value) == MaskedKey(payloadType)
  {
  }

  /** Max(count, 0): what Python's `char * count` repeats a character. */
  function Repetitions(count: int): nat
  {
    if count < 0 then 0 else count
  }

  /** `n` elements of kind `k`: the `char * count` part of a format string. */
  function Repeat(k: ElementKind, n: nat): (r: seq<ElementKind>)
    ensures |r| == n
  {
    seq(n, _ => k)
  }

  lemma {:induction false} RepeatTail(k: ElementKind, n: nat)
    requires n > 0
    ensures Repeat(k, n)[0] == k && Repeat(k, n)[1..] == Repeat(k, n - 1)
  {
  }

  /** The layout a format string spells: optional `IH` timestamp, then `count` elements. */
  function Layout(hasTimestamp: bool, count: int, k: ElementKind): seq<ElementKind>
  {
    (if hasTimestamp then [U32, U16] else []) + Repeat(k, Repetitions(count))
  }

  /**
    get_payload_string: the unpack layout for a payload type byte, a
    timestamp flag and an element count; KeyError when the table has no
    entry for the byte.
   */
  function PayloadString(hasTimestamp: bool, count: int, payloadType: byte): (r: Result<seq<ElementKind>, Error>)
    ensures r.Err? <==> DataChar(payloadType).None?
    ensures r.Err? ==> r.error == KeyError(MaskedKey(payloadType))
    ensures r.Ok? ==>
      var k := DataChar(payloadType).value;
      var prefix := if hasTimestamp then 2 else 0;
      && |r.value| == prefix + Repetitions(count)
      && (hasTimestamp ==> r.value[0] == U32 && r.value[1] == U16)
      && (forall i :: prefix <= i < |r.value| ==> r.value[i] == k)
  {
    match DataChar(payloadType)
    case None => Err(KeyError(MaskedKey(payloadType)))
    case Some(k) => Ok(Layout(hasTimestamp, count, k))
  }

  /** The byte count of the timestamp prefix: 4 for seconds, 2 for ticks. */
  function TimestampBytes(hasTimestamp: bool): nat
  {
    if hasTimestamp then 6 else 0
  }

  /** struct.calcsize of a layout: the sum of its widths (no padding under `<`). */
  function LayoutSize(layout: seq<ElementKind>): nat
  {
    if layout == [] then 0 else Width(layout[0]) + LayoutSize(layout[1..])
  }

  // ---- Properties of the table ----

  /**
    Bits 4 and 5 (the timestamp flag 0x10 and bit 0x20) never change the
    kind: any two bytes that agree on bits 0-3 and 6-7 look up the same.
   */
  lemma {:induction false} LookupIgnoresBits4And5(payloadType: byte, other: byte)
    requires LowNibble(other) == LowNibble(payloadType) && ClassBits(other) == ClassBits(payloadType)
    ensures MaskedKey(other) == MaskedKey(payloadType)
    ensures DataChar(other) == DataChar(payloadType)
  {
  }

  /** In particular setting the timestamp flag, or bit 5, or both. */
  lemma {:induction false} SettingBits4And5(payloadType: byte, flags: byte)
    requires payloadType / 16 % 4 == 0 && flags in {0x10, 0x20, 0x30}
    ensures payloadType + flags < 256 && DataChar(payloadType + flags) == DataChar(payloadType)
  {
    Split(payloadType);
    Fields(payloadType / 64, flags / 16, payloadType % 16);
    LookupIgnoresBits4And5(payloadType, payloadType + flags);
  }

  /** The lookup succeeds for a byte exactly when its key is that of some kind. */
  lemma {:induction false} DataCharIsKeyInverse(payloadType: byte, k: ElementKind)
    ensures DataChar(payloadType) == Some(k) <==> MaskedKey(payloadType) == Key(k)
  {
  }

  /** Float of width 8 (0x48) is not in the table. */
  lemma {:induction false} Float64IsUnknown()
    ensures DataChar(0x48) == None && DataChar(0x58) == None && DataChar(0x03) == None
  {
  }

  // ---- Properties of the layout ----

  lemma {:induction false} LayoutSizeAppend(a: seq<ElementKind>, b: seq<ElementKind>)
    ensures LayoutSize(a + b) == LayoutSize(a) + LayoutSize(b)
  {
    if a == [] {
      assert a + b == b;
    } else {
      assert (a + b)[1..] == a[1..] + b;
      LayoutSizeAppend(a[1..], b);
    }
  }

  lemma {:induction false} LayoutSizeRepeat(k: ElementKind, n: nat)
    ensures LayoutSize(Repeat(k, n)) == n * Width(k)
  {
    if n > 0 {
      RepeatTail(k, n);
      LayoutSizeRepeat(k, n - 1);
    }
  }

  /** The total byte size of a built layout is 6 * ts + count * width. */
  lemma {:induction false} PayloadStringSize(hasTimestamp: bool, count: int, payloadType: byte)
    requires PayloadString(hasTimestamp, count, payloadType).Ok?
    ensures LayoutSize(PayloadString(hasTimestamp, count, payloadType).value)
         == TimestampBytes(hasTimestamp) + Repetitions(count) * Width(DataChar(payloadType).value)
  {
    var k := DataChar(payloadType).value;
    var prefix: seq<ElementKind> := if hasTimestamp then [U32, U16] else [];
    LayoutSizeAppend(prefix, Repeat(k, Repetitions(count)));
    LayoutSizeRepeat(k, Repetitions(count));
    assert LayoutSize(prefix) == TimestampBytes(hasTimestamp);
  }

  /** A layout starts with the timestamp pair `IH` exactly when the flag is set. */
  lemma {:induction false} PayloadStringPrefix(hasTimestamp: bool, count: int, payloadType: byte)
    requires PayloadString(hasTimestamp, count, payloadType).Ok?
    ensures var l := PayloadString(hasTimestamp, count, payloadType).value;
      (|l| >= 2 && l[0] == U32 && l[1] == U16) <==> hasTimestamp
  {
  }
}
