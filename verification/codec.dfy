/** The test-vector file: a header-less run of `f32` values, `DIMS` per vector,
    each float written as its 4 native-order bytes. */
module Codec {
  import opened Config
  import opened Seqs
  import opened Floats

  /** The bytes of a run of floats, 4 per float, in order. */
  function FloatBytes(fs: seq<F32>): (r: seq<byte>)
    ensures |r| == 4 * |fs|
    ensures forall i :: 0 <= i < |fs| ==> r[4 * i..4 * i + 4] == ToNeBytes(fs[i])
  {
    if |fs| == 0 then []
    else
      var r := ToNeBytes(fs[0]) + FloatBytes(fs[1..]);
      assert forall i :: 1 <= i < |fs| ==> r[4 * i..4 * i + 4] == FloatBytes(fs[1..])[4 * (i - 1)..4 * (i - 1) + 4];
      r
  }

  /** Writing the test vectors: every float of every vector, in order, no header. */
  function Encode(vs: seq<Vector>): (r: seq<byte>)
    ensures |r| == 4 * TotalLength(vs)
    ensures forall i :: 0 <= i < TotalLength(vs) ==> r[4 * i..4 * i + 4] == ToNeBytes(Flatten(vs)[i])
  {
    FloatBytes(Flatten(vs))
  }

  /** The floats of a byte buffer: one per complete 4-byte chunk, a trailing
      partial float dropped. */
  function BytesToFloats(bs: seq<byte>): (r: seq<F32>)
    ensures |r| == |bs| / 4
    ensures forall i :: 0 <= i < |r| ==> 4 * i + 4 <= |bs| && ToNeBytes(r[i]) == bs[4 * i..4 * i + 4]
  {
    var chunks := ChunksExact(bs, 4);
    var r := seq(|chunks|, i requires 0 <= i < |chunks| => FromNeBytes(chunks[i]));
    assert forall i :: 0 <= i < |r| ==> 4 * i + 4 <= |bs| && ToNeBytes(r[i]) == bs[4 * i..4 * i + 4] by {
      forall i | 0 <= i < |r|
        ensures 4 * i + 4 <= |bs| && ToNeBytes(r[i]) == bs[4 * i..4 * i + 4]
      {
        ChunkAt(bs, 4, i);
      }
    }
    r
  }

  /** Reading the test vectors: floats grouped `DIMS` at a time, a trailing partial
      vector dropped. */
  function Decode(bs: seq<byte>): (r: seq<Vector>)
    ensures |r| == (|bs| / 4) / DIMS
    ensures forall i :: 0 <= i < |r| ==> |r[i]| == DIMS
  {
    ChunksExact(BytesToFloats(bs), DIMS)
  }

  /** The 4-byte chunks of an encoded float run are the floats' byte groups. */
  lemma {:induction false} FloatBytesChunks(fs: seq<F32>)
    ensures FloatBytes(fs) == Flatten(seq(|fs|, i requires 0 <= i < |fs| => ToNeBytes(fs[i])))
    decreases |fs|
  {
    if |fs| > 0 {
      FloatBytesChunks(fs[1..]);
      var g := seq(|fs|, i requires 0 <= i < |fs| => ToNeBytes(fs[i]));
      assert g[1..] == seq(|fs[1..]|, i requires 0 <= i < |fs[1..]| => ToNeBytes(fs[1..][i]));
    }
  }

  /** Decoding the floats of an encoded run, followed by fewer than 4 stray bytes,
      gives back the run. */
  lemma FloatsRoundTrip(fs: seq<F32>, tail: seq<byte>)
    requires |tail| < 4
    ensures BytesToFloats(FloatBytes(fs) + tail) == fs
  {
    var g := seq(|fs|, i requires 0 <= i < |fs| => ToNeBytes(fs[i]));
    FloatBytesChunks(fs);
    ChunksOfFlatten(g, tail, 4);
  }

  /** The file round-trip, including the reader's tolerance of a truncated end:
      decoding the encoding of `DIMS`-wide vectors, followed by a partial vector
      and a partial float, yields exactly the complete vectors. */
  lemma DecodeEncodeWithTail(vs: seq<Vector>, partial: Vector, tail: seq<byte>)
    requires forall i :: 0 <= i < |vs| ==> |vs[i]| == DIMS
    requires |partial| < DIMS
    requires |tail| < 4
    ensures Decode(FloatBytes(Flatten(vs) + partial) + tail) == vs
  {
    FloatsRoundTrip(Flatten(vs) + partial, tail);
    ChunksOfFlatten(vs, partial, DIMS);
  }

  /** The file round-trip: `Decode(Encode(vs)) == vs` for `DIMS`-wide vectors. */
  lemma DecodeEncode(vs: seq<Vector>)
    requires forall i :: 0 <= i < |vs| ==> |vs[i]| == DIMS
    ensures Decode(Encode(vs)) == vs
    ensures |Encode(vs)| == 4 * DIMS * |vs|
  {
    DecodeEncodeWithTail(vs, [], []);
    assert Flatten(vs) + [] == Flatten(vs);
    assert FloatBytes(Flatten(vs)) + [] == FloatBytes(Flatten(vs));
    TotalLengthUniform(vs, DIMS);
  }

  /** The first `n` floats of a buffer, re-encoded, are its first `4 * n` bytes. */
  lemma FloatsPrefixBytes(bs: seq<byte>, n: nat)
    requires n <= |bs| / 4
    ensures FloatBytes(BytesToFloats(bs)[..n]) == bs[..4 * n]
  {
    var chunks := ChunksExact(bs, 4);
    var pre := BytesToFloats(bs)[..n];
    FloatBytesChunks(pre);
    forall i | 0 <= i < n ensures ToNeBytes(pre[i]) == chunks[..n][i] {
      assert ToNeBytes(FromNeBytes(chunks[i])) == chunks[i];
    }
    assert seq(|pre|, i requires 0 <= i < |pre| => ToNeBytes(pre[i])) == chunks[..n];
    FlattenChunksPrefix(bs, 4, n);
  }

  /** What the reader keeps: the decoded vectors, concatenated and re-encoded, are
      the longest prefix of the file that holds only complete vectors. */
  lemma DecodeIsPrefix(bs: seq<byte>)
    ensures Encode(Decode(bs)) == bs[..4 * DIMS * |Decode(bs)|]
  {
    var fs := BytesToFloats(bs);
    var vs := Decode(bs);
    FlattenOfChunks(fs, DIMS);
    assert Flatten(vs) == fs[..|vs| * DIMS];
    FloatsPrefixBytes(bs, |vs| * DIMS);
    assert 4 * (|vs| * DIMS) == 4 * DIMS * |vs|;
  }

  /** `load_test_vectors`: the buffer is cut into floats with `chunks_exact(4)`,
      then the floats into vectors with `chunks_exact(DIMS)`. */
  method LoadTestVectors(buffer: seq<byte>) returns (vectors: seq<Vector>)
    ensures vectors == Decode(buffer)
    ensures |vectors| == (|buffer| / 4) / DIMS
  {
    var floatCount := |buffer| / 4;
    var floats: seq<F32> := [];
    var i := 0;
    while i < floatCount
      invariant 0 <= i <= floatCount
      invariant floats == BytesToFloats(buffer)[..i]
    {
      ChunkAt(buffer, 4, i);
      floats := floats + [FromNeBytes(buffer[4 * i..4 * i + 4])];
      i := i + 1;
    }
    assert floats == BytesToFloats(buffer);
    vectors := [];
    var j := 0;
    var vectorCount := |floats| / DIMS;
    while j < vectorCount
      invariant 0 <= j <= vectorCount
      invariant vectors == Decode(buffer)[..j]
    {
      ChunkAt(floats, DIMS, j);
      vectors := vectors + [floats[DIMS * j..DIMS * j + DIMS]];
      j := j + 1;
    }
  }
}
