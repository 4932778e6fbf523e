/**
  What `struct.unpack` does with a little-endian layout of the table's
  kinds: each element is read from its own bytes, in order, and the call
  fails unless the layout's size equals the payload's length.
 */
module StructUnpack {
  import opened Wrappers
  import opened LittleEndian
  import opened Errors
  import opened PayloadLookup

  /** One unpacked value: an integer, or the raw bytes of an IEEE single. */
  datatype Value = Int(n: int) | Float32(raw: seq<byte>)

  /** `v` is a value that a kind can produce. */
  predicate Fits(k: ElementKind, v: Value)
  {
    if k == F32 then v.Float32? && |v.raw| == 4
    else if IsSignedKind(k) then v.Int? && -Half(Width(k)) <= v.n < Half(Width(k))
    else v.Int? && 0 <= v.n < Pow256(Width(k))
  }

  /** The value of one element of kind `k` stored in `bs`. */
  function DecodeElement(k: ElementKind, bs: seq<byte>): (v: Value)
    requires |bs| == Width(k)
    ensures Fits(k, v)
  {
    if k == F32 then Float32(bs)
    else if IsSignedKind(k) then Int(Signed(bs))
    else Int(Unsigned(bs))
  }

  /** The bytes that store `v` as kind `k`: the inverse of DecodeElement. */
  function EncodeElement(k: ElementKind, v: Value): (bs: seq<byte>)
    requires Fits(k, v)
    ensures |bs| == Width(k) && DecodeElement(k, bs) == v
  {
    if k == F32 then v.raw
    else if IsSignedKind(k) then SignedBytes(v.n, Width(k))
    else UnsignedBytes(v.n, Width(k))
  }

  lemma {:induction false} EncodeDecodeElement(k: ElementKind, bs: seq<byte>)
    requires |bs| == Width(k)
    ensures EncodeElement(k, DecodeElement(k, bs)) == bs
  {
    if k == F32 {
    } else if IsSignedKind(k) {
      SignedBytesOfSigned(bs);
    } else {
      UnsignedBytesOfUnsigned(bs);
    }
  }

  /** Each value of `vs` is one the kind at the same position can produce. */
  predicate AllFit(layout: seq<ElementKind>, vs: seq<Value>)
  {
    |vs| == |layout| && (layout == [] || (Fits(layout[0], vs[0]) && AllFit(layout[1..], vs[1..])))
  }

  lemma {:induction false} AllFitAt(layout: seq<ElementKind>, vs: seq<Value>, i: nat)
    requires AllFit(layout, vs) && i < |layout|
    ensures Fits(layout[i], vs[i])
  {
    if i > 0 {
      AllFitAt(layout[1..], vs[1..], i - 1);
    }
  }

  /** The values of a layout laid end to end in `bs`. */
  function UnpackAll(layout: seq<ElementKind>, bs: seq<byte>): (vs: seq<Value>)
    requires LayoutSize(layout) == |bs|
    ensures |vs| == |layout|
  {
    if layout == [] then []
    else
      var w := Width(layout[0]);
      var rest := UnpackAll(layout[1..], bs[w..]);
      assert ([DecodeElement(layout[0], bs[..w])] + rest)[1..] == rest;
      [DecodeElement(layout[0], bs[..w])] + rest
  }

  /** struct.unpack(format, payload): StructError unless the sizes agree. */
  function Unpack(layout: seq<ElementKind>, payload: seq<byte>): (r: Result<seq<Value>, Error>)
    ensures r.Ok? <==> LayoutSize(layout) == |payload|
    ensures r.Err? ==> r.error == StructError
    ensures r.Ok? ==> AllFit(layout, r.value)
  {
    if LayoutSize(layout) != |payload| then Err(StructError)
    else
      UnpackAllFits(layout, payload);
      Ok(UnpackAll(layout, payload))
  }

  /** Every unpacked value is one its kind can produce. */
  lemma {:induction false} UnpackAllFits(layout: seq<ElementKind>, bs: seq<byte>)
    requires LayoutSize(layout) == |bs|
    ensures AllFit(layout, UnpackAll(layout, bs))
  {
    if layout != [] {
      var w := Width(layout[0]);
      UnpackAllFits(layout[1..], bs[w..]);
      UnpackAllCons(layout, bs);
      assert UnpackAll(layout, bs)[1..] == UnpackAll(layout[1..], bs[w..]);
    }
  }

  lemma {:induction false} UnpackAllCons(layout: seq<ElementKind>, bs: seq<byte>)
    requires LayoutSize(layout) == |bs| && layout != []
    ensures Width(layout[0]) <= |bs|
    ensures UnpackAll(layout, bs)
         == [DecodeElement(layout[0], bs[..Width(layout[0])])] + UnpackAll(layout[1..], bs[Width(layout[0])..])
  {
  }

  lemma {:induction false} SliceOfSuffix(bs: seq<byte>, w: nat, off: nat, len: nat)
    requires w + off + len <= |bs|
    ensures bs[w..][off .. off + len] == bs[w + off .. w + off + len]
  {
  }

  /** The byte offset of element `j` among elements of width `w`. */
  function ElementStart(j: nat, w: nat): nat
  {
    j * w
  }

  lemma {:induction false} ElementStartStep(j: nat, w: nat)
    requires j > 0
    ensures ElementStart(j - 1, w) + w == ElementStart(j, w)
  {
  }

  /**
    In `n` elements of one kind laid end to end, element `j` is read from
    the `w` bytes at ElementStart(j, w), `w` the kind's width.
   */
  lemma {:induction false} UnpackRepeatAt(k: ElementKind, n: nat, bs: seq<byte>, j: nat)
    requires LayoutSize(Repeat(k, n)) == |bs| && j < n
    ensures ElementStart(j, Width(k)) + Width(k) <= |bs|
    ensures UnpackAll(Repeat(k, n), bs)[j]
         == DecodeElement(k, bs[ElementStart(j, Width(k)) .. ElementStart(j, Width(k)) + Width(k)])
  {
    var w := Width(k);
    var layout := Repeat(k, n);
    RepeatTail(k, n);
    UnpackAllCons(layout, bs);
    if j == 0 {
      assert bs[0..w] == bs[..w];
    } else {
      UnpackRepeatAt(k, n - 1, bs[w..], j - 1);
      ElementStartStep(j, w);
      SliceOfSuffix(bs, w, ElementStart(j - 1, w), w);
    }
  }

  /** The same for elements that start `off` bytes into `bs`. */
  lemma {:induction false} UnpackRepeatAtOffset(k: ElementKind, n: nat, bs: seq<byte>, off: nat, j: nat)
    requires off <= |bs| && LayoutSize(Repeat(k, n)) == |bs| - off && j < n
    ensures off + ElementStart(j, Width(k)) + Width(k) <= |bs|
    ensures UnpackAll(Repeat(k, n), bs[off..])[j]
         == DecodeElement(k, bs[off + ElementStart(j, Width(k)) .. off + ElementStart(j, Width(k)) + Width(k)])
  {
    UnpackRepeatAt(k, n, bs[off..], j);
    SliceOfSuffix(bs, off, ElementStart(j, Width(k)), Width(k));
  }

  /** The bytes of a sequence of values laid end to end: the inverse of UnpackAll. */
  function EncodeAll(layout: seq<ElementKind>, vs: seq<Value>): (bs: seq<byte>)
    requires AllFit(layout, vs)
    ensures LayoutSize(layout) == |bs| && UnpackAll(layout, bs) == vs
  {
    if layout == [] then []
    else
      var head := EncodeElement(layout[0], vs[0]);
      var rest := EncodeAll(layout[1..], vs[1..]);
      assert (head + rest)[..Width(layout[0])] == head;
      assert (head + rest)[Width(layout[0])..] == rest;
      assert vs == [vs[0]] + vs[1..];
      head + rest
  }

  lemma {:induction false} EncodeUnpackAll(layout: seq<ElementKind>, bs: seq<byte>)
    requires LayoutSize(layout) == |bs|
    ensures Unpack(layout, bs).Ok? && EncodeAll(layout, Unpack(layout, bs).value) == bs
  {
    if layout != [] {
      var w := Width(layout[0]);
      var vs := UnpackAll(layout, bs);
      assert vs[0] == DecodeElement(layout[0], bs[..w]);
      assert vs[1..] == UnpackAll(layout[1..], bs[w..]);
      EncodeDecodeElement(layout[0], bs[..w]);
      EncodeUnpackAll(layout[1..], bs[w..]);
      assert bs == bs[..w] + bs[w..];
    }
  }
}
