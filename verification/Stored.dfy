/** How src/fst/fstapi.c stores one chain: a number and then bytes. The number
    is the size of the chain when the bytes are compressed, and 0 when they are
    the chain itself. */
module Stored {
  import opened Bytes
  import Varint
  import Lz
  import FastLz
  import FastLzFormat
  import FastLzParse
  import FastLzDecompress
  import Lz4
  import Lz4Format
  import Lz4Decompress

  /** fourpack or fastpack. */
  datatype Mode = FastPack | FourPack

  function PackType(mode: Mode): byte {
    if mode.FourPack? then 52 else 70  // '4' 'F'
  }

  datatype Form = Raw(bytes: seq<byte>) | Packed(len: nat, bytes: seq<byte>)

  function Wire(f: Form): (w: seq<byte>)
    ensures |w| > 0
  {
    Varint.Encode(if f.Raw? then 0 else f.len) + f.bytes
  }

  /** A zero and the chain, or the size of the chain and the compressed bytes. */
  lemma WireIs(f: Form)
    ensures f.Raw? ==> Wire(f) == [0] + f.bytes
    ensures f.Packed? && f.len < 128 ==> Wire(f) == [f.len] + f.bytes
    ensures f.Packed? && 128 <= f.len < 16384 ==> Wire(f) == [128 + f.len % 128, f.len / 128] + f.bytes
  {
    assert Varint.Encode(0) == [0];
    if f.Packed? && 128 <= f.len < 16384 { assert Varint.Encode(f.len / 128) == [f.len / 128]; }
  }

  /** `block` is a compressed form of `chain`. */
  ghost predicate Restores(mode: Mode, block: seq<byte>, chain: seq<byte>) {
    if mode.FastPack? then FastLz.Restores(block, chain) else Lz4.Restores(block, chain)
  }

  /** `f` is a form of `chain` the writer may choose: compressed only if the
      chain is longer than 32 bytes and the compressed form shorter. */
  ghost predicate Holds(mode: Mode, f: Form, chain: seq<byte>) {
    if f.Raw? then f.bytes == chain
    else f.len == |chain| > 32 && |f.bytes| < |chain| && Restores(mode, f.bytes, chain)
  }

  // ----- writing -----

  method Compress(mode: Mode, hash: nat -> Lz.Slot, chain: seq<byte>, dmem: array<byte>) returns (rc: nat)
    requires 32 < |chain| < 0x4000_0000 && dmem.Length >= 2 * |chain| + 2
    modifies dmem
    ensures rc <= dmem.Length && Restores(mode, dmem[..rc], chain)
    ensures mode.FastPack? ==> dmem[..rc] == FastLzParse.Compressed(FastLz.LevelFor(|chain|), chain, hash)
  {
    hide FastLz.Restores, Lz4.Restores, FastLzParse.Compressed;
    if mode.FourPack? {
      Lz4.WriterRoom(|chain|);
      rc := Lz4.Compress(chain, hash, dmem);
    } else {
      FastLz.WriterRoom(|chain|);
      LargerRoom(|chain|, 2 * |chain| + 2, dmem.Length);
      rc := FastLz.Compress(chain, hash, dmem);
    }
  }

  lemma LargerRoom(n: nat, size: nat, larger: nat)
    requires size <= larger
    ensures FastLz.FastLzCompress.Room(n, size) ==> FastLz.FastLzCompress.Room(n, larger)
  {
  }

  /** The form FastLZ gives a chain. */
  ghost function FastForm(hash: nat -> Lz.Slot, chain: seq<byte>): Form {
    var block := FastLzParse.Compressed(FastLz.LevelFor(|chain|), chain, hash);
    if |chain| > 32 && |block| < |chain| then Packed(|chain|, block) else Raw(chain)
  }

  /** Choose how to store a chain. */
  method Pack(mode: Mode, hash: nat -> Lz.Slot, chain: seq<byte>) returns (f: Form)
    requires |chain| < 0x4000_0000
    ensures Holds(mode, f, chain) && (mode.FastPack? ==> f == FastForm(hash, chain))
    ensures f.Packed? ==> |chain| >= 33 && |f.bytes| < |chain|
    ensures mode.FastPack? && |chain| >= 33 ==>
      var block := FastLzParse.Compressed(if |chain| < 65536 then FastLzFormat.One else FastLzFormat.Two, chain, hash);
      |block| < |chain| ==> f == Packed(|chain|, block)
  {
    hide Restores, FastLzParse.Compressed;
    if |chain| > 32 {
      var dmem := new byte[2 * |chain| + 2];
      var rc := Compress(mode, hash, chain, dmem);
      if rc < |chain| {
        return Packed(|chain|, dmem[..rc]);
      }
    }
    f := Raw(chain);
  }

  /** A stored chain takes at most a few bytes more than the chain. */
  lemma WireSize(mode: Mode, f: Form, chain: seq<byte>)
    requires Holds(mode, f, chain) && |chain| < 0x4000_0000
    ensures |Wire(f)| <= 2 * |chain| + 1
  {
    hide Restores;
    if f.Packed? { Varint.WordLengths(f.len); }
  }

  // ----- reading -----

  /** Decompress a block with slack after it into a buffer of the chain's size. */
  method Decompress(mode: Mode, mc: seq<byte>, mu: array<byte>, ghost block: seq<byte>, ghost chain: seq<byte>, ghost tail: seq<byte>)
    requires mc == block + tail && Restores(mode, block, chain) && mu.Length == |chain| > 0
    modifies mu
    ensures mu[..] == chain
  {
    hide FastLzFormat.Decode, Lz4Format.Decode;
    if mode.FourPack? {
      var status, op := Lz4Decompress.Decompress(mc, mu);
      SlackFour(block, chain, tail);
      assert mu[..op] == chain;
    } else {
      SlackFast(block, chain, tail);
      var status, op := FastLzDecompress.Decompress(mc, mu);
      assert mu[..op] == chain;
    }
  }

  lemma SlackFour(block: seq<byte>, chain: seq<byte>, tail: seq<byte>)
    requires Lz4.Restores(block, chain) && chain != []
    ensures Lz4Format.Decode(block + tail, |chain|).out == chain
  {
    hide Lz4Format.Decode;
  }

  lemma SlackFast(block: seq<byte>, chain: seq<byte>, tail: seq<byte>)
    requires FastLz.Restores(block, chain)
    ensures block != [] && FastLzFormat.Decode(block + tail, |chain|).out == chain
  {
    hide FastLzFormat.Decode;
  }

  /** Load the chain stored at `pos`, `length` being the distance to the next
      one. When it is compressed, so many bytes are read that a little of what
      comes next is read as well. */
  method Load(mode: Mode, file: seq<byte>, pos: nat, length: nat, ghost f: Form, ghost chain: seq<byte>)
    returns (mem: seq<byte>)
    requires Holds(mode, f, chain) && |chain| < 0x4000_0000
    requires At(file, pos, Wire(f)) && length == |Wire(f)| && pos + length + 5 <= |file|
    ensures mem == chain
  {
    hide Restores, At;
    Varint.WordLengths(if f.Raw? then 0 else f.len);
    AtConcat(file, pos, Varint.Encode(if f.Raw? then 0 else f.len), f.bytes);
    Varint.ReadBackFits(file, pos, if f.Raw? then 0 else f.len, Varint.W32);
    var val, skiplen := Varint.GetVarint(file, pos, Varint.W32);
    AtSlice(file, pos + skiplen, f.bytes);
    if val != 0 {
      var mu := new byte[val];
      var mc := file[pos + skiplen..pos + skiplen + length];
      ghost var tail := file[pos + length..pos + skiplen + length];
      assert mc == f.bytes + tail;
      Decompress(mode, mc, mu, f.bytes, chain, tail);
      mem := mu[..];
    } else {
      mem := file[pos + skiplen..pos + length];
    }
  }

  // ----- what the same bytes mean -----

  lemma {:induction false} SameText(mode: Mode, block: seq<byte>, a: seq<byte>, b: seq<byte>)
    requires Restores(mode, block, a) && Restores(mode, block, b)
    ensures a == b
  {
    hide FastLzFormat.Decode, Lz4Format.Decode;
    var limit := if |a| < |b| then |b| else |a|;
    if mode.FourPack? {
      assert Lz4Format.Decode(block, limit) == Lz4Format.Outcome(a, Lz4Format.Done);
      assert Lz4Format.Decode(block, limit) == Lz4Format.Outcome(b, Lz4Format.Done);
    } else {
      assert FastLzFormat.Decode(block, limit) == FastLzFormat.Outcome(a, FastLzFormat.Done);
      assert FastLzFormat.Decode(block, limit) == FastLzFormat.Outcome(b, FastLzFormat.Done);
    }
  }

  /** Duplicates are found by the stored bytes alone, without the number before
      them. Two forms with the same bytes are forms of the same chain exactly
      when both are compressed or both are not. */
  lemma SameBytes(mode: Mode, f: Form, a: seq<byte>, g: Form, b: seq<byte>)
    requires Holds(mode, f, a) && Holds(mode, g, b) && f.bytes == g.bytes
    ensures a == b <==> f.Raw? == g.Raw?
  {
    hide Restores;
    if f.Packed? && g.Packed? { SameText(mode, f.bytes, a, b); }
  }
}
