/** Little-endian field access on a descriptor file held as a byte sequence. */
module Bytes {

  type byte = x: int | 0 <= x < 256

  /** 256 to the power `width`: one more than the largest value a field of
      `width` bytes can hold. */
  function Radix(width: nat): (r: nat)
    ensures r >= 1
  {
    if width == 0 then 1 else 256 * Radix(width - 1)
  }

  /** The unsigned little-endian value of the `width` bytes at `pos`, as
      `fread (&field, width, 1, file)` leaves it in a zeroed field. */
  function ReadLe(f: seq<byte>, pos: nat, width: nat): (r: nat)
    requires pos + width <= |f|
    ensures r < Radix(width)
    decreases width
  {
    if width == 0 then 0 else f[pos] + 256 * ReadLe(f, pos + 1, width - 1)
  }

  /** The `width` little-endian bytes of `v` (higher bytes dropped). */
  function EncodeLe(v: nat, width: nat): (r: seq<byte>)
    ensures |r| == width
    decreases width
  {
    if width == 0 then [] else [v % 256] + EncodeLe(v / 256, width - 1)
  }

  /** A read sees only the bytes it covers. */
  lemma {:induction false} ReadLeSlice(f: seq<byte>, g: seq<byte>, pos: nat, q: nat, width: nat)
    requires pos + width <= |f| && q + width <= |g|
    requires f[pos..pos + width] == g[q..q + width]
    ensures ReadLe(f, pos, width) == ReadLe(g, q, width)
    decreases width
  {
    if width > 0 {
      assert f[pos] == f[pos..pos + width][0] == g[q..q + width][0] == g[q];
      assert f[pos + 1..pos + width] == f[pos..pos + width][1..];
      assert g[q + 1..q + width] == g[q..q + width][1..];
      ReadLeSlice(f, g, pos + 1, q + 1, width - 1);
    }
  }

  /** Decoding an encoded value gives the value back when it fits. */
  lemma {:induction false} DecodeEncode(v: nat, width: nat)
    requires v < Radix(width)
    ensures ReadLe(EncodeLe(v, width), 0, width) == v
    decreases width
  {
    if width > 0 {
      var e := EncodeLe(v, width);
      assert e[1..] == EncodeLe(v / 256, width - 1);
      DecodeEncode(v / 256, width - 1);
      ReadLeSlice(e, e[1..], 1, 0, width - 1);
    }
  }

  /** Encoding a decoded field gives its bytes back. */
  lemma {:induction false} EncodeDecode(f: seq<byte>, pos: nat, width: nat)
    requires pos + width <= |f|
    ensures EncodeLe(ReadLe(f, pos, width), width) == f[pos..pos + width]
    decreases width
  {
    if width > 0 {
      var v := ReadLe(f, pos, width);
      var rest := ReadLe(f, pos + 1, width - 1);
      assert v % 256 == f[pos] && v / 256 == rest;
      EncodeDecode(f, pos + 1, width - 1);
      assert f[pos..pos + width] == [f[pos]] + f[pos + 1..pos + width];
    }
  }

  /** A field whose bytes are the encoding of `v` reads as `v`. */
  lemma FieldReads(f: seq<byte>, pos: nat, width: nat, v: nat)
    requires pos + width <= |f| && v < Radix(width)
    requires f[pos..pos + width] == EncodeLe(v, width)
    ensures ReadLe(f, pos, width) == v
  {
    var e := EncodeLe(v, width);
    assert e[0..width] == e;
    ReadLeSlice(f, e, pos, 0, width);
    DecodeEncode(v, width);
  }
}
