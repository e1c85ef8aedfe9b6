/** The entry points of src/fst/fastlz.c and what they promise together. */
module FastLz {
  import opened Bytes
  import opened Lz
  import opened FastLzFormat
  import opened FastLzCompress
  import FastLzParse
  import FastLzDecompress

  /** Decoding with `tail` after the stream gives the text, in a buffer of
      exactly its size or, without a tail, in any buffer that is large enough. */
  ghost predicate Restores(stream: seq<byte>, text: seq<byte>) {
    && stream != []
    && (forall tail :: Decode(stream + tail, |text|).out == text)
    && (forall limit :: limit >= |text| ==> Decode(stream, limit) == Outcome(text, Done))
  }

  lemma DecodesTo(level: Level, text: seq<byte>, stream: seq<byte>, ts: seq<Token>, tail: seq<byte>, limit: nat)
    requires Encoded(level, text, stream, ts) && |text| <= limit
    ensures stream != []
    ensures |text| == limit ==> Decode(stream + tail, limit).out == text
    ensures Decode(stream, limit) == Outcome(text, Done)
  {
    hide DecodeFrom, Spells, WireAll;
    assert (stream + tail)[0] == stream[0];
    Replay(level, ts, stream + tail, text, limit);
    Replay(level, ts, stream, text, limit);
    AtEnd(level, stream, text, limit);
    if |text| == limit {
      FullBuffer(level, stream + tail, |stream|, text);
    }
  }

  lemma AtEnd(level: Level, src: seq<byte>, out: seq<byte>, limit: nat)
    ensures DecodeFrom(level, src, |src|, out, limit) == Outcome(out, Done)
  {
  }

  lemma EncodedRestores(level: Level, text: seq<byte>, stream: seq<byte>, ts: seq<Token>)
    requires Encoded(level, text, stream, ts)
    ensures Restores(stream, text)
  {
    hide Encoded, Decode;
    DecodesTo(level, text, stream, ts, [], |text|);
    forall tail ensures Decode(stream + tail, |text|).out == text {
      DecodesTo(level, text, stream, ts, tail, |text|);
    }
    forall limit: nat | limit >= |text| ensures Decode(stream, limit) == Outcome(text, Done) {
      DecodesTo(level, text, stream, ts, [], limit);
    }
  }

  /** fastlz_compress_level, for the two levels there are. */
  method CompressLevel(level: Level, input: seq<byte>, hash: nat -> Slot, dst: array<byte>) returns (n: nat)
    requires |input| < TWO_32 / 2 && Room(|input|, dst.Length)
    modifies dst
    ensures n <= dst.Length && n <= |input| + (|input| + 31) / 32
    ensures input == [] ==> n == 0
    ensures input != [] ==> Restores(dst[..n], input) && dst[..n] == FastLzParse.Compressed(level, input, hash)
  {
    hide Restores, Encoded, FastLzParse.Tokens, FastLzParse.Stream;
    ghost var ts;
    n, ts := FastLzCompress.CompressLevel(level, input, hash, dst);
    if input != [] {
      EncodedRestores(if |input| < 4 then One else level, input, dst[..n], ts);
      OneStream(if |input| < 4 then One else level, input, dst[..n], ts);
    }
  }

  function LevelFor(n: nat): Level {
    if n < 65536 then One else Two
  }

  /** fastlz_compress: level 1 for short blocks. */
  method Compress(input: seq<byte>, hash: nat -> Slot, dst: array<byte>) returns (n: nat)
    requires |input| < TWO_32 / 2 && Room(|input|, dst.Length)
    modifies dst
    ensures n <= dst.Length && n <= |input| + (|input| + 31) / 32
    ensures input == [] ==> n == 0
    ensures input != [] ==>
      Restores(dst[..n], input) && dst[..n] == FastLzParse.Compressed(if |input| < 65536 then One else Two, input, hash)
  {
    hide Restores, FastLzParse.Compressed;
    n := CompressLevel(if |input| < 65536 then One else Two, input, hash, dst);
  }

  /** Round trip through both in-place algorithms: whatever bytes follow the
      compressed block, the output buffer ends up holding the input. */
  method RoundTrip(level: Level, input: seq<byte>, hash: nat -> Slot, tail: seq<byte>) returns (out: seq<byte>)
    requires 1 <= |input| < TWO_32 / 2
    ensures out == input
  {
    var packed := new byte[2 * |input| + 2];
    var n := CompressLevel(level, input, hash, packed);
    var unpacked := new byte[|input|];
    var status, op := FastLzDecompress.Decompress(packed[..n] + tail, unpacked);
    out := unpacked[..op];
  }

  /** The documented bound on the compressed size: 66 bytes, or 5% more. */
  lemma SizeBound(n: nat, size: nat)
    requires size <= n + (n + 31) / 32
    ensures size <= 66 || 20 * size <= 21 * n
  {
  }

  /** The chain writer's scratch area of 2 * wrlen + 2 bytes is always enough. */
  lemma WriterRoom(wrlen: nat)
    ensures Room(wrlen, 2 * wrlen + 2)
  {
  }

  /** So is a buffer of the documented minimum size, although one byte more
      than the size returned may be written for a while. */
  lemma DocumentedRoom(n: nat, capacity: nat)
    requires capacity >= 66 && 20 * capacity >= 21 * n
    ensures Room(n, capacity)
  {
  }
}
