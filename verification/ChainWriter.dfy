/** The writer's side of a chain in src/fst/fstapi.c: value changes appended to
    one buffer, each with the offset of the signal's record before it, and the
    walk back along those offsets that builds the chain from right to left. */
module ChainWriter {
  import opened Bytes
  import opened Chain
  import Varint

  // ----- records in the change buffer -----

  /** memcpy of a uint32_t, little end first. */
  function Le32(x: nat): (s: seq<byte>)
    ensures |s| == 4
  {
    [x % 256, x / 256 % 256, x / 65536 % 256, x / 16777216 % 256]
  }

  /** fstGetUint32. */
  function GetUint32(s: seq<byte>, p: nat): nat
    requires p + 4 <= |s|
  {
    s[p] as int + 256 * (s[p + 1] as int) + 65536 * (s[p + 2] as int) + 16777216 * (s[p + 3] as int)
  }

  lemma Le32Back(s: seq<byte>, p: nat, x: nat)
    requires At(s, p, Le32(x)) && x < 0x1_0000_0000
    ensures GetUint32(s, p) == x
  {
    var w := Le32(x);
    assert s[p] == w[0] && s[p + 1] == w[1] && s[p + 2] == w[2] && s[p + 3] == w[3];
    FourDigits(x);
  }

  lemma FourDigits(x: nat)
    requires x < 0x1_0000_0000
    ensures x % 256 + 256 * (x / 256 % 256) + 65536 * (x / 65536 % 256) + 16777216 * (x / 16777216 % 256) == x
  {
    assert x / 65536 == x / 256 / 256;
    assert x / 16777216 == x / 65536 / 256;
  }

  /** fstWriterUint32WithVarint32: previous offset, time delta, value. */
  function RawRecord(prevOffs: nat, delta: nat, val: seq<byte>): seq<byte> {
    Le32(prevOffs) + Varint.Encode(delta) + val
  }

  function RawSize(delta: nat, val: seq<byte>): (n: nat)
    ensures n >= 5
  {
    4 + |Varint.Encode(delta)| + |val|
  }

  /** The time index the signal was last seen at. */
  function LastTime(cs: seq<Change>): nat {
    if cs == [] then 0 else cs[|cs| - 1].tidx
  }

  /** Following the offsets back from `head` meets the changes `cs`, the last
      one first; records do not overlap. */
  ghost predicate Linked(vchg: seq<byte>, head: nat, len: nat, cs: seq<Change>)
    decreases |cs|
  {
    if cs == [] then head == 0
    else
      var front, c := cs[..|cs| - 1], cs[|cs| - 1];
      && LastTime(front) <= c.tidx && |c.val| == len
      && var delta := c.tidx - LastTime(front);
      && 0 < head && head + RawSize(delta, c.val) <= |vchg|
      && At(vchg, head + 4, Varint.Encode(delta) + c.val)
      && var prev := GetUint32(vchg, head);
      && Linked(vchg, prev, len, front)
      && (front != [] ==> prev + RawSizeOfLast(front) <= head)
  }

  ghost function RawSizeOfLast(cs: seq<Change>): nat {
    if cs == [] then 0
    else
      var front, c := cs[..|cs| - 1], cs[|cs| - 1];
      if LastTime(front) <= c.tidx then RawSize(c.tidx - LastTime(front), c.val) else 0
  }

  /** Appending to the buffer disturbs no list in it. */
  lemma {:induction false} LinkedStays(vchg: seq<byte>, more: seq<byte>, head: nat, len: nat, cs: seq<Change>)
    requires Linked(vchg, head, len, cs)
    ensures Linked(vchg + more, head, len, cs)
    decreases |cs|
  {
    if cs != [] {
      LinkedStays(vchg, more, GetUint32(vchg, head), len, cs[..|cs| - 1]);
    }
  }

  /** A record appended at the end, pointing back to the signal's list, becomes
      the list's new head. */
  lemma LinkRecord(vchg: seq<byte>, head: nat, len: nat, cs: seq<Change>, c: Change)
    requires Linked(vchg, head, len, cs) && LastTime(cs) <= c.tidx && |c.val| == len
    requires 0 < |vchg| && head < TWO_32
    ensures Linked(vchg + RawRecord(head, c.tidx - LastTime(cs), c.val), |vchg|, len, cs + [c])
  {
    hide RawRecord, RawSize, RawSizeOfLast, At, GetUint32, Linked;
    var delta := c.tidx - LastTime(cs);
    var raw := RawRecord(head, delta, c.val);
    RawBack(vchg, head, delta, c.val);
    LinkedStays(vchg, raw, head, len, cs);
    LinkedBounds(vchg, head, len, cs);
    LinkedCons(vchg + raw, |vchg|, head, len, cs, c);
  }

  /** A list is its last record and the list that record points back to. */
  lemma LinkedCons(vchg: seq<byte>, head: nat, prev: nat, len: nat, cs: seq<Change>, c: Change)
    requires LastTime(cs) <= c.tidx && |c.val| == len && 0 < head
    requires head + RawSize(c.tidx - LastTime(cs), c.val) <= |vchg|
    requires At(vchg, head + 4, Varint.Encode(c.tidx - LastTime(cs)) + c.val) && GetUint32(vchg, head) == prev
    requires Linked(vchg, prev, len, cs) && (cs != [] ==> prev + RawSizeOfLast(cs) <= head)
    ensures Linked(vchg, head, len, cs + [c])
  {
    hide RawSize, RawSizeOfLast, At, GetUint32;
    assert (cs + [c])[..|cs|] == cs;
  }

  lemma RawBack(vchg: seq<byte>, prevOffs: nat, delta: nat, val: seq<byte>)
    requires prevOffs < TWO_32
    ensures var after := vchg + RawRecord(prevOffs, delta, val);
      && |after| == |vchg| + RawSize(delta, val)
      && GetUint32(after, |vchg|) == prevOffs
      && At(after, |vchg| + 4, Varint.Encode(delta) + val)
  {
    hide Le32, GetUint32;
    var rest := Varint.Encode(delta) + val;
    var after := vchg + RawRecord(prevOffs, delta, val);
    assert RawRecord(prevOffs, delta, val) == Le32(prevOffs) + rest;
    AtConcat(after, |vchg|, Le32(prevOffs), rest);
    Le32Back(after, |vchg|, prevOffs);
  }

  lemma LinkedBounds(vchg: seq<byte>, head: nat, len: nat, cs: seq<Change>)
    requires Linked(vchg, head, len, cs)
    ensures cs != [] ==> head + RawSizeOfLast(cs) <= |vchg| && 0 < head
    ensures cs == [] ==> head == 0
  {
  }

  lemma {:induction false} LinkedOrdered(vchg: seq<byte>, head: nat, len: nat, cs: seq<Change>)
    requires Linked(vchg, head, len, cs)
    ensures Ordered(len, 0, cs)
    ensures forall i :: 0 <= i < |cs| ==> cs[i].tidx <= LastTime(cs)
    decreases |cs|
  {
    if cs != [] {
      var front := cs[..|cs| - 1];
      LinkedOrdered(vchg, GetUint32(vchg, head), len, front);
      assert forall i :: 0 <= i < |front| ==> cs[i] == front[i];
    }
  }

  // ----- how much the buffer holds -----

  /** Bytes a signal's changes take up in the buffer. */
  ghost function RawBytes(prev: nat, cs: seq<Change>): nat
    decreases |cs|
  {
    if cs == [] || cs[0].tidx < prev then 0
    else RawSize(cs[0].tidx - prev, cs[0].val) + RawBytes(cs[0].tidx, cs[1..])
  }

  lemma {:induction false} RawBytesSnoc(prev: nat, cs: seq<Change>, c: Change)
    requires forall i :: 0 <= i < |cs| ==> prev <= cs[i].tidx <= c.tidx
    requires forall i, j :: 0 <= i < j < |cs| ==> cs[i].tidx <= cs[j].tidx
    requires prev <= c.tidx
    ensures RawBytes(prev, cs + [c])
         == RawBytes(prev, cs) + RawSize(c.tidx - (if cs == [] then prev else LastTime(cs)), c.val)
    decreases |cs|
  {
    hide RawSize, RawBytes;
    RawBytesCons(prev, cs);
    RawBytesCons(prev, cs + [c]);
    RawBytesCons(c.tidx, []);
    if cs == [] {
      assert ([] + [c])[1..] == [];
    } else {
      assert (cs + [c])[1..] == cs[1..] + [c];
      assert (cs + [c])[0] == cs[0];
      RawBytesSnoc(cs[0].tidx, cs[1..], c);
    }
  }

  lemma RawBytesCons(prev: nat, cs: seq<Change>)
    ensures cs == [] ==> RawBytes(prev, cs) == 0
    ensures cs != [] && prev <= cs[0].tidx ==>
      RawBytes(prev, cs) == RawSize(cs[0].tidx - prev, cs[0].val) + RawBytes(cs[0].tidx, cs[1..])
  {
    hide RawSize;
  }

  /** A packed record is smaller than the raw one by at least one byte. */
  lemma RecordShrinks(delta: nat, val: seq<byte>)
    requires val != []
    ensures |Record(delta, val)| + 1 <= RawSize(delta, val)
  {
    hide PackBits, CodeOf;
    var v := Packed(delta, val);
    ScalarBack(val[0], delta);
    VectorBack(IsBinary(val), delta);
    Varint.WordLengths(v);
    if |val| > 1 && delta < 128 {
      SmallVector(IsBinary(val), delta);
    }
    if delta >= 128 { TwoBytes(delta); }
  }

  lemma TwoBytes(v: nat)
    requires v >= 128
    ensures |Varint.Encode(v)| >= 2
  {
  }

  lemma SmallVector(binary: bool, delta: nat)
    requires delta < 128
    ensures |Varint.Encode(PackVector(binary, delta))| <= 2
  {
    var v := PackVector(binary, delta);
    assert v < 256;
    if v >= 128 {
      assert Varint.Encode(v / 128) == [v / 128];
    }
  }

  /** Conservation: a chain and one more byte for each change fit in what the
      changes take up in the buffer. */
  lemma {:induction false} ChainFits(len: nat, prev: nat, cs: seq<Change>)
    requires 1 <= len && Ordered(len, prev, cs)
    ensures |Encode(len, prev, cs)| + |cs| <= RawBytes(prev, cs)
    decreases |cs|
  {
    hide Record, RawSize;
    if cs != [] {
      OrderedTail(len, prev, cs);
      RecordShrinks(cs[0].tidx - prev, cs[0].val);
      ChainFits(len, cs[0].tidx, cs[1..]);
    }
  }

  // ----- the walk -----

  method ReadRaw(vchg: seq<byte>, offs: nat, len: nat, ghost delta: nat, ghost val: seq<byte>)
    returns (next: nat, timeDelta: nat, buf: seq<byte>)
    requires offs + 4 <= |vchg| && |val| == len && delta < TWO_32
    requires At(vchg, offs + 4, Varint.Encode(delta) + val)
    ensures next == GetUint32(vchg, offs) && timeDelta == delta && buf == val
  {
    next := GetUint32(vchg, offs);
    AtConcat(vchg, offs + 4, Varint.Encode(delta), val);
    Varint.ReadBackFits(vchg, offs + 4, delta, Varint.W32);
    var wrlen;
    timeDelta, wrlen := Varint.GetVarint(vchg, offs + 4, Varint.W32);
    AtSlice(vchg, offs + 4 + wrlen, val);
    buf := vchg[offs + 4 + wrlen..offs + 4 + wrlen + len];
  }

  /** The is_binary loop. */
  method TestBinary(pnt: seq<byte>) returns (isBinary: bool)
    ensures isBinary == IsBinary(pnt)
  {
    isBinary := true;
    var idx := 0;
    while idx < |pnt|
      invariant 0 <= idx <= |pnt| && isBinary
      invariant forall i :: 0 <= i < idx ==> IsBit(pnt[i])
    {
      if !IsBit(pnt[idx]) { return false; }
      idx := idx + 1;
    }
  }

  /** Eight bits, the rightmost first, those past the end being zero. */
  method Accumulate(pnt: seq<byte>, i: nat) returns (acc: byte)
    ensures acc == PackByte(pnt, i)
  {
    var sum := BitAt(pnt, i + 7);
    sum := sum + BitAt(pnt, i + 6) * 2;
    sum := sum + BitAt(pnt, i + 5) * 4;
    sum := sum + BitAt(pnt, i + 4) * 8;
    sum := sum + BitAt(pnt, i + 3) * 16;
    sum := sum + BitAt(pnt, i + 2) * 32;
    sum := sum + BitAt(pnt, i + 1) * 64;
    acc := sum + BitAt(pnt, i) * 128;
  }

  /** The bytes of a binary value, the last one first. */
  method PutBits(scratch: array<byte>, pnt: nat, val: seq<byte>) returns (start: nat)
    requires |PackBits(val)| <= pnt <= scratch.Length
    modifies scratch
    ensures start == pnt - |PackBits(val)|
    ensures scratch[start..] == PackBits(val) + old(scratch[pnt..])
  {
    hide PackBits, PackByte;
    ghost var bits := PackBits(val);
    var k := (|val| + 7) / 8;
    start := pnt;
    while k > 0
      invariant 0 <= k <= |bits| && start + |bits| == pnt + k
      invariant scratch[start..] == bits[k..] + old(scratch[pnt..])
    {
      k, start := k - 1, start - 1;
      var acc := Accumulate(val, 8 * k);
      PackBitsAt(val, k);
      PutByte(scratch, start, acc);
      OneMore(bits, k, old(scratch[pnt..]));
    }
  }

  lemma OneMore(bits: seq<byte>, k: nat, rest: seq<byte>)
    requires k < |bits|
    ensures [bits[k]] + (bits[k + 1..] + rest) == bits[k..] + rest
  {
  }

  /** One byte, to the left of those already there. */
  method PutByte(scratch: array<byte>, start: nat, acc: byte)
    requires start < scratch.Length
    modifies scratch
    ensures scratch[start..] == [acc] + old(scratch[start + 1..])
  {
    scratch[start] := acc;
  }

  lemma PackBitsAt(val: seq<byte>, k: nat)
    requires k < |PackBits(val)|
    ensures PackBits(val)[k] == PackByte(val, 8 * k)
  {
  }

  method PutChars(scratch: array<byte>, pnt: nat, val: seq<byte>) returns (start: nat)
    requires |val| <= pnt <= scratch.Length
    modifies scratch
    ensures start == pnt - |val|
    ensures scratch[start..] == val + old(scratch[pnt..])
  {
    start := pnt - |val|;
    forall i | 0 <= i < |val| {
      scratch[start + i] := val[i];
    }
  }

  method PutVarint(scratch: array<byte>, pnt: nat, v: nat) returns (start: nat)
    requires |Varint.Encode(v)| <= pnt <= scratch.Length
    modifies scratch
    ensures start == pnt - |Varint.Encode(v)|
    ensures scratch[start..] == Varint.Encode(v) + old(scratch[pnt..])
  {
    ghost var after := scratch[pnt..];
    start := Varint.CopyVarintToLeft(scratch, pnt, v);
    assert scratch[start..] == scratch[start..pnt] + scratch[pnt..];
  }

  /** One record, to the left of those already there. */
  method PutRecord(scratch: array<byte>, pnt: nat, delta: nat, val: seq<byte>) returns (start: nat)
    requires val != [] && |Record(delta, val)| <= pnt <= scratch.Length
    modifies scratch
    ensures start == pnt - |Record(delta, val)|
    ensures scratch[start..] == Record(delta, val) + old(scratch[pnt..])
  {
    hide PackBits, IsBinary, PackScalar, PackVector;
    ghost var after := scratch[pnt..];
    if |val| == 1 {
      start := PutVarint(scratch, pnt, PackScalar(val[0], delta));
    } else {
      var isBinary := TestBinary(val);
      if isBinary {
        start := PutBits(scratch, pnt, val);
      } else {
        start := PutChars(scratch, pnt, val);
      }
      start := PutVarint(scratch, start, PackVector(isBinary, delta));
    }
    assert scratch[start..] == Record(delta, val) + after;
  }

  /** Build the chain of the list at `head` backwards from the end of the
      scratch area, which is as large as the change buffer. */
  method BuildChain(vchg: seq<byte>, head: nat, len: nat, scratch: array<byte>, ghost cs: seq<Change>)
    returns (pnt: nat)
    requires 1 <= len && Linked(vchg, head, len, cs) && Ordered(len, 0, cs)
    requires scratch.Length == |vchg| && LastTime(cs) < TWO_32
    modifies scratch
    ensures pnt <= scratch.Length
    ensures scratch[pnt..] == Encode(len, 0, cs)
  {
    hide Ordered, Linked, RawSizeOfLast, RawSize, Record, GetUint32;
    pnt := scratch.Length;
    var offs: nat := head;
    ghost var k: nat := |cs|;
    assert cs[..k] == cs && cs[k..] == [];
    SuffixOrdered(len, cs, k);
    LinkedBounds(vchg, head, len, cs);
    while offs != 0
      invariant 0 <= offs && 0 <= k <= |cs| && pnt <= scratch.Length
      invariant Linked(vchg, offs, len, cs[..k])
      invariant Ordered(len, LastTime(cs[..k]), cs[k..])
      invariant scratch[pnt..] == Encode(len, LastTime(cs[..k]), cs[k..])
      invariant k > 0 ==> offs + RawSizeOfLast(cs[..k]) <= pnt
      decreases k
    {
      ghost var c, prev := StepBack(vchg, offs, len, cs, k);
      var next, delta, val := ReadRaw(vchg, offs, len, c.tidx - prev, c.val);
      RecordShrinks(delta, val);
      pnt := PutRecord(scratch, pnt, delta, val);
      EncodeStep(len, cs, k);
      offs, k := next, k - 1;
    }
    LinkedBounds(vchg, 0, len, cs[..k]);
    assert cs[k..] == cs;
  }

  lemma SuffixOrdered(len: nat, cs: seq<Change>, k: nat)
    requires Ordered(len, 0, cs) && k <= |cs|
    ensures Ordered(len, LastTime(cs[..k]), cs[k..])
    ensures LastTime(cs[..k]) <= LastTime(cs)
  {
  }

  lemma StepBack(vchg: seq<byte>, offs: nat, len: nat, cs: seq<Change>, k: nat) returns (c: Change, prev: nat)
    requires k <= |cs| && offs != 0 && Linked(vchg, offs, len, cs[..k]) && Ordered(len, 0, cs)
    requires LastTime(cs) < TWO_32
    ensures 0 < k && c == cs[k - 1] && prev == LastTime(cs[..k - 1]) <= c.tidx < TWO_32 && |c.val| == len
    ensures offs + 4 <= |vchg| && At(vchg, offs + 4, Varint.Encode(c.tidx - prev) + c.val)
    ensures RawSizeOfLast(cs[..k]) == RawSize(c.tidx - prev, c.val)
    ensures Linked(vchg, GetUint32(vchg, offs), len, cs[..k - 1])
    ensures k > 1 ==> GetUint32(vchg, offs) + RawSizeOfLast(cs[..k - 1]) <= offs
  {
    hide At, RawSize;
    assert k > 0;
    c, prev := cs[k - 1], LastTime(cs[..k - 1]);
    assert cs[..k][..k - 1] == cs[..k - 1];
  }

  lemma EncodeStep(len: nat, cs: seq<Change>, k: nat)
    requires 1 <= len && Ordered(len, 0, cs) && 0 < k <= |cs|
    ensures Ordered(len, LastTime(cs[..k]), cs[k..]) && Ordered(len, LastTime(cs[..k - 1]), cs[k - 1..])
    ensures LastTime(cs[..k - 1]) <= cs[k - 1].tidx && cs[k - 1].val != []
    ensures Encode(len, LastTime(cs[..k - 1]), cs[k - 1..])
         == Record(cs[k - 1].tidx - LastTime(cs[..k - 1]), cs[k - 1].val) + Encode(len, LastTime(cs[..k]), cs[k..])
  {
    hide Record;
    SuffixOrdered(len, cs, k);
    SuffixOrdered(len, cs, k - 1);
    assert cs[k - 1..][1..] == cs[k..];
  }
}
