/** What compressor and decompressor of src/fst/lz4.c promise together. */
module Lz4 {
  import opened Bytes
  import opened Lz
  import opened Lz4Format
  import opened Lz4Compress
  import Lz4Decompress

  /** Partial safe decoding, with `tail` after the block, gives the text in a
      buffer of exactly its size or, without a tail, in any that is large
      enough. */
  ghost predicate Restores(block: seq<byte>, text: seq<byte>) {
    && (text != [] ==> forall tail :: Decode(block + tail, |text|) == Outcome(text, Done))
    && (forall cap :: cap >= |text| ==> Decode(block, cap) == Outcome(text, Done))
  }

  lemma EncodedRestores(text: seq<byte>, block: seq<byte>, ss: seq<Sequence>, last: seq<byte>)
    requires Encoded(text, block, ss, last)
    ensures Restores(block, text)
  {
    hide Encoded, DecodeFrom;
    forall tail | text != [] ensures Decode(block + tail, |text|) == Outcome(text, Done) {
      DecodesTo(text, block, ss, last, tail, |text|);
    }
    forall cap: nat | cap >= |text| ensures Decode(block, cap) == Outcome(text, Done) {
      if cap == 0 {
        EmptyBlock(text, block, ss, last);
      } else {
        assert block + [] == block;
        DecodesTo(text, block, ss, last, [], cap);
      }
    }
  }

  lemma EmptyBlock(text: seq<byte>, block: seq<byte>, ss: seq<Sequence>, last: seq<byte>)
    requires Encoded(text, block, ss, last) && text == []
    ensures block == [0]
  {
  }

  /** LZ4_compress. */
  method Compress(input: seq<byte>, hash: nat -> Slot, dst: array<byte>) returns (n: nat)
    requires dst.Length >= CompressBound(|input|)
    modifies dst
    ensures |input| > 0x7e00_0000 ==> n == 0
    ensures |input| <= 0x7e00_0000 ==> n <= |input| + |input| / 255 + 16 && Restores(dst[..n], input)
    ensures n <= dst.Length
  {
    ghost var ss, last;
    n, ss, last := CompressBlock(input, hash, dst);
    if |input| <= MAX_INPUT_SIZE {
      EncodedRestores(input, dst[..n], ss, last);
    }
  }

  /** Round trip with slack through both in-place algorithms, the way the chain
      reader calls the decompressor. */
  method RoundTrip(input: seq<byte>, hash: nat -> Slot, tail: seq<byte>) returns (out: seq<byte>)
    requires 1 <= |input| <= MAX_INPUT_SIZE
    ensures out == input
  {
    var packed := new byte[CompressBound(|input|)];
    var n := Compress(input, hash, packed);
    var unpacked := new byte[|input|];
    var status, op := Lz4Decompress.Decompress(packed[..n] + tail, unpacked);
    out := unpacked[..op];
  }

  /** The chain writer's scratch area of 2 * wrlen + 2 bytes is enough for the
      chains it compresses, which are longer than 32 bytes. */
  lemma WriterRoom(wrlen: nat)
    requires wrlen > 32
    ensures CompressBound(wrlen) <= 2 * wrlen + 2
  {
  }
}
