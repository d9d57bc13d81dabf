/** 32-bit floats as opaque 4-byte values. Only their bytes are modelled: the
    driver never inspects a float except to write it out, read it back, or hand
    it to the index engine. */
module Floats {
  import opened Config

  newtype byte = x: int | 0 <= x < 256

  /** One `f32`, held as its bytes in native memory order. */
  datatype F32 = F32(b0: byte, b1: byte, b2: byte, b3: byte)

  type Vector = seq<F32>

  /** `f32::to_ne_bytes`. */
  function ToNeBytes(f: F32): (r: seq<byte>)
    ensures |r| == 4
  {
    [f.b0, f.b1, f.b2, f.b3]
  }

  /** `f32::from_ne_bytes`. */
  function FromNeBytes(bs: seq<byte>): (f: F32)
    requires |bs| == 4
    ensures ToNeBytes(f) == bs
  {
    assert bs == [bs[0], bs[1], bs[2], bs[3]];
    F32(bs[0], bs[1], bs[2], bs[3])
  }

  lemma BytesRoundTrip(f: F32)
    ensures FromNeBytes(ToNeBytes(f)) == f
  {
  }

  /** `0.0f32`, whose bit pattern is all zero in either byte order. */
  const Zero: F32 := F32(0, 0, 0, 0)

  /** `vec![0.0f32; DIMS]`. */
  function ZeroVector(): (v: Vector)
    ensures |v| == DIMS
  {
    seq(DIMS, _ => Zero)
  }
}
