/**
  Little-endian integers, as Python's `struct` module reads them under the
  `<` prefix: unsigned, and two's-complement signed, of any byte width.
 */
module LittleEndian {

  /** One byte of the input stream, as Python's `bytes` indexing yields it. */
  type byte = x: int | 0 <= x < 256

  /** 256 to the power `n`: the number of values `n` bytes can hold. */
  function Pow256(n: nat): (r: nat)
    ensures r >= 1
  {
    if n == 0 then 1 else 256 * Pow256(n - 1)
  }

  /** Half the range of `n` bytes: the bound of the signed interpretation. */
  function Half(n: nat): (h: int)
    requires n > 0
    ensures h > 0 && 2 * h == Pow256(n)
  {
    128 * Pow256(n - 1)
  }

  /** The unsigned value of `bs`, least significant byte first. */
  function Unsigned(bs: seq<byte>): (r: nat)
    ensures r < Pow256(|bs|)
  {
    if |bs| == 0 then 0 else bs[0] + 256 * Unsigned(bs[1..])
  }

  /** The two's-complement value of `bs`, least significant byte first. */
  function Signed(bs: seq<byte>): (r: int)
    requires |bs| > 0
    ensures -Half(|bs|) <= r < Half(|bs|)
    ensures r >= 0 <==> Unsigned(bs) < Half(|bs|)
    ensures r == Unsigned(bs) || r == Unsigned(bs) - Pow256(|bs|)
  {
    var u := Unsigned(bs);
    if u < Half(|bs|) then u else u - Pow256(|bs|)
  }

  /** The `width` bytes that encode `n`, least significant first. */
  function UnsignedBytes(n: nat, width: nat): (bs: seq<byte>)
    requires n < Pow256(width)
    ensures |bs| == width && Unsigned(bs) == n
  {
    if width == 0 then []
    else
      var low: byte := n % 256;
      var rest := UnsignedBytes(n / 256, width - 1);
      assert ([low] + rest)[1..] == rest;
      [low] + rest
  }

  /** The `width` bytes that encode `v` in two's complement. */
  function SignedBytes(v: int, width: nat): (bs: seq<byte>)
    requires width > 0 && -Half(width) <= v < Half(width)
    ensures |bs| == width && Signed(bs) == v
  {
    UnsignedBytes(if v < 0 then v + Pow256(width) else v, width)
  }

  /** Splitting `low + 256 * high` back into its low byte and the rest. */
  lemma {:induction false} DivMod256(low: int, high: int)
    requires 0 <= low < 256
    ensures (low + 256 * high) % 256 == low && (low + 256 * high) / 256 == high
  {
  }

  /** Reading bytes and writing them back gives the same bytes. */
  lemma {:induction false} UnsignedBytesOfUnsigned(bs: seq<byte>)
    ensures UnsignedBytes(Unsigned(bs), |bs|) == bs
  {
    if |bs| > 0 {
      DivMod256(bs[0], Unsigned(bs[1..]));
      UnsignedBytesOfUnsigned(bs[1..]);
      assert bs == [bs[0]] + bs[1..];
    }
  }

  /** The same for the signed interpretation. */
  lemma {:induction false} SignedBytesOfSigned(bs: seq<byte>)
    requires |bs| > 0
    ensures SignedBytes(Signed(bs), |bs|) == bs
  {
    UnsignedBytesOfUnsigned(bs);
  }
}
