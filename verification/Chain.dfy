/** One signal's value changes as a chain of bytes: what src/fst/fstapi.c stores
    for it in a block, and what a reader sees there.

    A time is an index into the block's time table; a record holds its distance
    from the record before it, packed with the value into one 32-bit integer. */
module Chain {
  import opened Bytes
  import Varint

  /** A value is the characters of its bits, as the caller gave them. */
  datatype Change = Change(tidx: nat, val: seq<byte>)

  const ZERO: byte := 48  // '0'
  const ONE: byte := 49   // '1'

  /** FST_RCV_STR, "xzhuwl-?". */
  const RCV_STR: seq<byte> := [120, 122, 104, 117, 119, 108, 45, 63]

  predicate IsBit(b: byte) {
    b == ZERO || b == ONE
  }

  /** The index in FST_RCV_STR of a one-bit value other than 0 and 1; all but
      six letters, in either case, share the code of '-'. */
  function CodeOf(b: byte): (c: nat)
    ensures c < 7
  {
    if b == 120 || b == 88 then 0        // x X
    else if b == 122 || b == 90 then 1   // z Z
    else if b == 104 || b == 72 then 2   // h H
    else if b == 117 || b == 85 then 3   // u U
    else if b == 119 || b == 87 then 4   // w W
    else if b == 108 || b == 76 then 5   // l L
    else 6
  }

  // ----- packing -----

  /** The 32-bit integer of a one-bit record. */
  function PackScalar(val: byte, delta: nat): nat {
    if IsBit(val) then val % 2 * 2 + delta * 4 % TWO_32
    else 1 + CodeOf(val) * 2 + delta * 16 % TWO_32
  }

  predicate IsBinary(val: seq<byte>) {
    forall i :: 0 <= i < |val| ==> IsBit(val[i])
  }

  /** The 32-bit integer of a wider record; its low bit says whether the value
      follows as characters. */
  function PackVector(binary: bool, delta: nat): nat {
    delta * 2 % TWO_32 + if binary then 0 else 1
  }

  function BitAt(val: seq<byte>, i: nat): (b: nat)
    ensures b < 2
  {
    if i < |val| then val[i] % 2 else 0
  }

  /** Eight characters from `i` on as one byte, the first in its top bit. */
  function PackByte(val: seq<byte>, i: nat): byte {
    BitAt(val, i) * 128 + BitAt(val, i + 1) * 64 + BitAt(val, i + 2) * 32 + BitAt(val, i + 3) * 16
    + BitAt(val, i + 4) * 8 + BitAt(val, i + 5) * 4 + BitAt(val, i + 6) * 2 + BitAt(val, i + 7)
  }

  function PackBits(val: seq<byte>): (s: seq<byte>)
    ensures |s| == (|val| + 7) / 8
  {
    seq((|val| + 7) / 8, k requires 0 <= k => PackByte(val, 8 * k))
  }

  function Payload(val: seq<byte>): seq<byte> {
    if IsBinary(val) then PackBits(val) else val
  }

  function Packed(delta: nat, val: seq<byte>): nat
    requires val != []
  {
    if |val| == 1 then PackScalar(val[0], delta) else PackVector(IsBinary(val), delta)
  }

  function Record(delta: nat, val: seq<byte>): (s: seq<byte>)
    requires val != []
    ensures s != []
  {
    Varint.Encode(Packed(delta, val)) + if |val| == 1 then [] else Payload(val)
  }

  /** Times do not run backwards, and every value has the signal's width. */
  ghost predicate Ordered(len: nat, prev: nat, cs: seq<Change>) {
    && (forall i :: 0 <= i < |cs| ==> |cs[i].val| == len)
    && (forall i :: 0 <= i < |cs| ==> prev <= cs[i].tidx)
    && (forall i, j :: 0 <= i < j < |cs| ==> cs[i].tidx <= cs[j].tidx)
  }

  lemma OrderedTail(len: nat, prev: nat, cs: seq<Change>)
    requires Ordered(len, prev, cs) && cs != []
    ensures Ordered(len, cs[0].tidx, cs[1..])
  {
  }

  /** The chain of the changes `cs`, the record before them being at `prev`. */
  function Encode(len: nat, prev: nat, cs: seq<Change>): seq<byte>
    requires 1 <= len && Ordered(len, prev, cs)
    decreases |cs|
  {
    if cs == [] then []
    else
      OrderedTail(len, prev, cs);
      Record(cs[0].tidx - prev, cs[0].val) + Encode(len, cs[0].tidx, cs[1..])
  }

  // ----- reading -----

  function Bit(b: byte, i: nat): nat
    requires i < 8
  {
    b / [128, 64, 32, 16, 8, 4, 2, 1][i] % 2
  }

  function UnpackBits(len: nat, bytes: seq<byte>, p: nat): (val: seq<byte>)
    requires p + (len + 7) / 8 <= |bytes|
    ensures |val| == len
  {
    seq(len, j requires 0 <= j < len => ZERO + Bit(bytes[p + j / 8], j % 8))
  }

  datatype Entry = Entry(delta: nat, val: seq<byte>, next: nat) | Broken

  /** The record at `p`. */
  function ReadRecord(len: nat, bytes: seq<byte>, p: nat): (e: Entry)
    requires 1 <= len && p <= |bytes|
    ensures e.Entry? ==> p < e.next <= |bytes| && |e.val| == len
  {
    var n := Varint.Skip(bytes, p);
    var vli := Varint.Get(bytes, p, Varint.W32);
    if n == 0 then Broken
    else if len == 1 then
      if vli % 2 == 0 then Entry(vli / 4, [ZERO + vli / 2 % 2], p + n)
      else Entry(vli / 16, [RCV_STR[vli / 2 % 8]], p + n)
    else if vli % 2 == 0 then
      if p + n + (len + 7) / 8 > |bytes| then Broken
      else Entry(vli / 2, UnpackBits(len, bytes, p + n), p + n + (len + 7) / 8)
    else
      if p + n + len > |bytes| then Broken
      else Entry(vli / 2, bytes[p + n..p + n + len], p + n + len)
  }

  datatype Reading = Changes(cs: seq<Change>) | Corrupt

  /** The changes a reader sees in bytes[p..end], the record before them being
      at time index `prev`. */
  function Decode(len: nat, prev: nat, bytes: seq<byte>, p: nat, end: nat): Reading
    requires 1 <= len && p <= end <= |bytes|
    decreases end - p
  {
    if p == end then Changes([])
    else
      var e := ReadRecord(len, bytes, p);
      if e.Broken? || e.next > end then Corrupt
      else
        var rest := Decode(len, prev + e.delta, bytes, e.next, end);
        if rest.Corrupt? then Corrupt else Changes([Change(prev + e.delta, e.val)] + rest.cs)
  }

  // ----- what a reader sees of what was written -----

  function Canonical(val: seq<byte>): seq<byte> {
    if |val| == 1 && !IsBit(val[0]) then [RCV_STR[CodeOf(val[0])]] else val
  }

  /** Beyond this the packed time delta loses its top bits. */
  function Span(val: seq<byte>): (n: nat)
    ensures n > 0
  {
    if |val| != 1 then 0x8000_0000
    else if IsBit(val[0]) then 0x4000_0000
    else 0x1000_0000
  }

  /** One reader after `rprev`, the writer having been at `prev`. */
  function Seen(prev: nat, rprev: nat, cs: seq<Change>): seq<Change>
    requires forall i :: 0 <= i < |cs| ==> prev <= cs[i].tidx
    requires forall i, j :: 0 <= i < j < |cs| ==> cs[i].tidx <= cs[j].tidx
    decreases |cs|
  {
    if cs == [] then []
    else
      var t := rprev + (cs[0].tidx - prev) % Span(cs[0].val);
      [Change(t, Canonical(cs[0].val))] + Seen(cs[0].tidx, t, cs[1..])
  }

  /** Lost bits of a time delta never move a change to a later time. */
  lemma {:induction false} SeenNotLater(prev: nat, rprev: nat, cs: seq<Change>)
    requires forall i :: 0 <= i < |cs| ==> prev <= cs[i].tidx
    requires forall i, j :: 0 <= i < j < |cs| ==> cs[i].tidx <= cs[j].tidx
    requires rprev <= prev
    ensures |Seen(prev, rprev, cs)| == |cs|
    ensures forall i :: 0 <= i < |cs| ==> Seen(prev, rprev, cs)[i].tidx <= cs[i].tidx
    decreases |cs|
  {
    hide Span;
    if cs != [] {
      var delta := cs[0].tidx - prev;
      LessOrEqual(delta, Span(cs[0].val));
      SeenNotLater(cs[0].tidx, rprev + delta % Span(cs[0].val), cs[1..]);
    }
  }

  lemma LessOrEqual(x: nat, m: nat)
    requires m > 0
    ensures x % m <= x
  {
    assert x == m * (x / m) + x % m;
  }

  /** The changes with one-bit values in their canonical spelling. */
  function Normal(cs: seq<Change>): (r: seq<Change>)
    ensures |r| == |cs|
  {
    seq(|cs|, i requires 0 <= i < |cs| => Change(cs[i].tidx, Canonical(cs[i].val)))
  }

  /** Every time delta survives its packing. */
  predicate AllFit(prev: nat, cs: seq<Change>)
    requires forall i :: 0 <= i < |cs| ==> prev <= cs[i].tidx
    requires forall i, j :: 0 <= i < j < |cs| ==> cs[i].tidx <= cs[j].tidx
    decreases |cs|
  {
    cs == [] || (cs[0].tidx - prev < Span(cs[0].val) && AllFit(cs[0].tidx, cs[1..]))
  }

  // ----- one record read back -----

  lemma ScalarBack(val: byte, delta: nat)
    ensures var v := PackScalar(val, delta);
      && v < TWO_32
      && (IsBit(val) ==> v % 2 == 0 && v / 4 == delta % 0x4000_0000 && v / 2 % 2 == val % 2)
      && (!IsBit(val) ==> v % 2 == 1 && v / 16 == delta % 0x1000_0000 && v / 2 % 8 == CodeOf(val))
  {
    hide CodeOf;
    if IsBit(val) {
      ShiftUp2(delta, val % 2);
    } else {
      ShiftUp4(delta, CodeOf(val));
    }
  }

  lemma ShiftUp2(delta: nat, bit: nat)
    requires bit < 2
    ensures var v := bit * 2 + delta * 4 % 0x1_0000_0000;
      v < 0x1_0000_0000 && v % 2 == 0 && v / 4 == delta % 0x4000_0000 && v / 2 % 2 == bit
  {
    var d := delta % 0x4000_0000;
    assert delta * 4 % 0x1_0000_0000 == 4 * d;
    Digits4(d, bit);
  }

  lemma Digits4(d: nat, bit: nat)
    requires bit < 2
    ensures (bit * 2 + 4 * d) % 2 == 0 && (bit * 2 + 4 * d) / 4 == d && (bit * 2 + 4 * d) / 2 % 2 == bit
  {
  }

  lemma ShiftUp4(delta: nat, code: nat)
    requires code < 8
    ensures var v := 1 + code * 2 + delta * 16 % 0x1_0000_0000;
      v < 0x1_0000_0000 && v % 2 == 1 && v / 16 == delta % 0x1000_0000 && v / 2 % 8 == code
  {
    var d := delta % 0x1000_0000;
    assert delta * 16 % 0x1_0000_0000 == 16 * d;
    Digits16(d, code);
  }

  lemma Digits16(d: nat, code: nat)
    requires code < 8
    ensures var v := 1 + code * 2 + 16 * d; v % 2 == 1 && v / 16 == d && v / 2 % 8 == code
  {
    assert (1 + code * 2 + 16 * d) / 2 == code + 8 * d;
  }

  lemma VectorBack(binary: bool, delta: nat)
    ensures var v := PackVector(binary, delta);
      v < TWO_32 && (v % 2 == 0 <==> binary) && v / 2 == delta % 0x8000_0000
  {
    assert delta * 2 % 0x1_0000_0000 == 2 * (delta % 0x8000_0000);
  }

  lemma BitOfByte(val: seq<byte>, i: nat, k: nat)
    requires k < 8
    ensures Bit(PackByte(val, i), k) == BitAt(val, i + k)
  {
    hide BitAt;
    EightBits(BitAt(val, i), BitAt(val, i + 1), BitAt(val, i + 2), BitAt(val, i + 3),
              BitAt(val, i + 4), BitAt(val, i + 5), BitAt(val, i + 6), BitAt(val, i + 7), k);
  }

  lemma EightBits(b0: nat, b1: nat, b2: nat, b3: nat, b4: nat, b5: nat, b6: nat, b7: nat, k: nat)
    requires b0 < 2 && b1 < 2 && b2 < 2 && b3 < 2 && b4 < 2 && b5 < 2 && b6 < 2 && b7 < 2 && k < 8
    ensures Bit(b0 * 128 + b1 * 64 + b2 * 32 + b3 * 16 + b4 * 8 + b5 * 4 + b6 * 2 + b7, k)
         == [b0, b1, b2, b3, b4, b5, b6, b7][k]
  {
    var high, low := b0 * 8 + b1 * 4 + b2 * 2 + b3, b4 * 8 + b5 * 4 + b6 * 2 + b7;
    if k < 4 {
      HighBit(high, low, k);
      FourBits(b0, b1, b2, b3, k);
    } else {
      LowBit(high, low, k - 4);
      FourBits(b4, b5, b6, b7, k - 4);
    }
  }

  lemma HighBit(high: nat, low: nat, k: nat)
    requires high < 16 && low < 16 && k < 4
    ensures Bit(16 * high + low, k) == high / [8, 4, 2, 1][k] % 2
  {
    var b := 16 * high + low;
    match k
    case 0 => assert b / 128 == high / 8;
    case 1 => assert b / 64 == high / 4;
    case 2 => assert b / 32 == high / 2;
    case _ => assert b / 16 == high;
  }

  lemma LowBit(high: nat, low: nat, k: nat)
    requires high < 16 && low < 16 && k < 4
    ensures Bit(16 * high + low, k + 4) == low / [8, 4, 2, 1][k] % 2
  {
    var b := 16 * high + low;
    match k
    case 0 => SameParity(b / 8, high, low / 8);
    case 1 => SameParity(b / 4, 2 * high, low / 4);
    case 2 => SameParity(b / 2, 4 * high, low / 2);
    case _ => SameParity(b, 8 * high, low);
  }

  lemma SameParity(x: nat, q: nat, y: nat)
    requires x == 2 * q + y
    ensures x % 2 == y % 2
  {
  }

  lemma FourBits(b0: nat, b1: nat, b2: nat, b3: nat, k: nat)
    requires b0 < 2 && b1 < 2 && b2 < 2 && b3 < 2 && k < 4
    ensures (b0 * 8 + b1 * 4 + b2 * 2 + b3) / [8, 4, 2, 1][k] % 2 == [b0, b1, b2, b3][k]
  {
  }

  /** Unpacking packed bits gives the characters back. */
  lemma BitsBack(val: seq<byte>, bytes: seq<byte>, p: nat)
    requires IsBinary(val) && At(bytes, p, PackBits(val))
    ensures UnpackBits(|val|, bytes, p) == val
  {
    forall j | 0 <= j < |val| ensures ZERO + Bit(bytes[p + j / 8], j % 8) == val[j] {
      assert bytes[p + j / 8] == PackBits(val)[j / 8] == PackByte(val, 8 * (j / 8));
      BitOfByte(val, 8 * (j / 8), j % 8);
      assert 8 * (j / 8) + j % 8 == j;
      assert IsBit(val[j]);
    }
  }

  /** A record reads back as its canonical value, its time delta cut to the
      bits there is room for, and its own length. */
  lemma RecordBack(bytes: seq<byte>, p: nat, delta: nat, val: seq<byte>)
    requires val != [] && At(bytes, p, Record(delta, val))
    ensures ReadRecord(|val|, bytes, p) == Entry(delta % Span(val), Canonical(val), p + |Record(delta, val)|)
  {
    hide PackScalar, PackVector, Record, ReadRecord, IsBinary, CodeOf, IsBit;
    if |val| == 1 {
      ScalarRecordBack(bytes, p, delta, val);
    } else {
      VectorRecordBack(bytes, p, delta, val);
    }
  }

  lemma ScalarRecordBack(bytes: seq<byte>, p: nat, delta: nat, val: seq<byte>)
    requires |val| == 1 && At(bytes, p, Record(delta, val))
    ensures ReadRecord(1, bytes, p) == Entry(delta % Span(val), Canonical(val), p + |Record(delta, val)|)
  {
    hide PackScalar, CodeOf;
    ScalarBack(val[0], delta);
    AtConcat(bytes, p, Varint.Encode(PackScalar(val[0], delta)), []);
    Varint.ReadBackFits(bytes, p, PackScalar(val[0], delta), Varint.W32);
  }

  lemma VectorRecordBack(bytes: seq<byte>, p: nat, delta: nat, val: seq<byte>)
    requires |val| > 1 && At(bytes, p, Record(delta, val))
    ensures ReadRecord(|val|, bytes, p) == Entry(delta % Span(val), val, p + |Record(delta, val)|)
  {
    hide PackVector, IsBinary, PackBits, UnpackBits;
    var v := PackVector(IsBinary(val), delta);
    var q := p + |Varint.Encode(v)|;
    AtConcat(bytes, p, Varint.Encode(v), Payload(val));
    VectorBack(IsBinary(val), delta);
    Varint.ReadBackFits(bytes, p, v, Varint.W32);
    if IsBinary(val) {
      BitsBack(val, bytes, q);
    } else {
      AtSlice(bytes, q, val);
    }
  }

  // ----- a whole chain read back -----

  lemma {:induction false} DecodeEncode(len: nat, prev: nat, rprev: nat, cs: seq<Change>, bytes: seq<byte>, p: nat)
    requires 1 <= len && Ordered(len, prev, cs) && At(bytes, p, Encode(len, prev, cs))
    ensures Decode(len, rprev, bytes, p, p + |Encode(len, prev, cs)|) == Changes(Seen(prev, rprev, cs))
    decreases |cs|
  {
    hide Record, ReadRecord, Ordered, Canonical, Span;
    OrderedMeans(len, prev, cs);
    if cs != [] {
      var c := cs[0];
      OrderedTail(len, prev, cs);
      var first, rest := Record(c.tidx - prev, c.val), Encode(len, c.tidx, cs[1..]);
      AtConcat(bytes, p, first, rest);
      RecordBack(bytes, p, c.tidx - prev, c.val);
      DecodeEncode(len, c.tidx, rprev + (c.tidx - prev) % Span(c.val), cs[1..], bytes, p + |first|);
    }
  }

  lemma OrderedMeans(len: nat, prev: nat, cs: seq<Change>)
    requires Ordered(len, prev, cs)
    ensures forall i :: 0 <= i < |cs| ==> |cs[i].val| == len
    ensures forall i :: 0 <= i < |cs| ==> prev <= cs[i].tidx
    ensures forall i, j :: 0 <= i < j < |cs| ==> cs[i].tidx <= cs[j].tidx
  {
  }

  /** What is seen is what was written, up to spelling, exactly when every
      time delta fits its record. */
  lemma {:induction false} SeenExactly(len: nat, prev: nat, cs: seq<Change>)
    requires Ordered(len, prev, cs)
    ensures Seen(prev, prev, cs) == Normal(cs) <==> AllFit(prev, cs)
    decreases |cs|
  {
    hide Canonical, Span;
    if cs != [] {
      OrderedTail(len, prev, cs);
      SpanPositive(cs[0].val);
      var delta := cs[0].tidx - prev;
      var head := Change(prev + delta % Span(cs[0].val), Canonical(cs[0].val));
      assert Normal(cs) == [Change(cs[0].tidx, Canonical(cs[0].val))] + Normal(cs[1..]);
      if delta < Span(cs[0].val) {
        SeenExactly(len, cs[0].tidx, cs[1..]);
        assert Seen(prev, prev, cs)[1..] == Seen(cs[0].tidx, cs[0].tidx, cs[1..]);
        assert Normal(cs)[1..] == Normal(cs[1..]);
        assert Seen(prev, prev, cs)[0] == Normal(cs)[0];
      } else {
        assert Seen(prev, prev, cs)[0] != Normal(cs)[0];
      }
    }
  }

  lemma SpanPositive(val: seq<byte>)
    ensures forall d: nat {:trigger d % Span(val)} :: d < Span(val) ==> d % Span(val) == d
    ensures forall d: nat {:trigger d % Span(val)} :: d % Span(val) < Span(val)
  {
  }

  /** The round trip of a chain, with the exact condition for it: packing a
      time delta shifts it left in a 32-bit word. */
  lemma RoundTrip(len: nat, cs: seq<Change>, bytes: seq<byte>, p: nat)
    requires 1 <= len && Ordered(len, 0, cs) && At(bytes, p, Encode(len, 0, cs))
    ensures Decode(len, 0, bytes, p, p + |Encode(len, 0, cs)|) == Changes(Normal(cs)) <==> AllFit(0, cs)
  {
    hide Encode, Decode, Normal, AllFit;
    DecodeEncode(len, 0, 0, cs, bytes, p);
    SeenExactly(len, 0, cs);
  }

  /** A one-bit signal that becomes unknown at time index 2^28, as its first
      change, is read back as unknown at index 0. */
  lemma LostDistance()
    ensures var cs := [Change(0x1000_0000, [120])];
      && Ordered(1, 0, cs) && !AllFit(0, cs)
      && var bytes := Encode(1, 0, cs);
         Decode(1, 0, bytes, 0, |bytes|) == Changes([Change(0, [120])])
  {
    hide Encode, Decode;
    var cs := [Change(0x1000_0000, [120])];
    var bytes := Encode(1, 0, cs);
    assert At(bytes, 0, bytes);
    DecodeEncode(1, 0, 0, cs, bytes, 0);
    assert cs[1..] == [];
    assert Seen(0, 0, cs) == [Change(0, [120])];
  }

  // ----- in plain bytes -----

  /** What a one-bit value comes back as: 0 and 1 as themselves, x z h u w l in
      either case as that letter in lower case, and anything else as '-'. Wider
      values come back as they are. */
  lemma Letters(b: byte, val: seq<byte>)
    ensures b == 48 || b == 49 ==> Canonical([b]) == [b]
    ensures b == 120 || b == 88 ==> Canonical([b]) == [120]   // x X
    ensures b == 122 || b == 90 ==> Canonical([b]) == [122]   // z Z
    ensures b == 104 || b == 72 ==> Canonical([b]) == [104]   // h H
    ensures b == 117 || b == 85 ==> Canonical([b]) == [117]   // u U
    ensures b == 119 || b == 87 ==> Canonical([b]) == [119]   // w W
    ensures b == 108 || b == 76 ==> Canonical([b]) == [108]   // l L
    ensures b !in [48, 49, 120, 88, 122, 90, 104, 72, 117, 85, 119, 87, 108, 76] ==> Canonical([b]) == [45]
    ensures |val| != 1 ==> Canonical(val) == val
  {
  }

  /** The number a one-bit value is stored as: from its low bit on, four times the
      distance and the bit, or sixteen times the distance, the place of the letter
      in "xzhuwl-", and a one. */
  lemma ScalarRecord(delta: nat, b: byte)
    ensures b == 48 || b == 49 ==> delta < 0x4000_0000 ==> Record(delta, [b]) == Varint.Encode(4 * delta + 2 * (b - 48))
    ensures delta < 0x1000_0000 ==>
      && (b == 120 || b == 88 ==> Record(delta, [b]) == Varint.Encode(16 * delta + 1))
      && (b == 122 || b == 90 ==> Record(delta, [b]) == Varint.Encode(16 * delta + 3))
      && (b == 104 || b == 72 ==> Record(delta, [b]) == Varint.Encode(16 * delta + 5))
      && (b == 117 || b == 85 ==> Record(delta, [b]) == Varint.Encode(16 * delta + 7))
      && (b == 119 || b == 87 ==> Record(delta, [b]) == Varint.Encode(16 * delta + 9))
      && (b == 108 || b == 76 ==> Record(delta, [b]) == Varint.Encode(16 * delta + 11))
      && (b !in [48, 49, 120, 88, 122, 90, 104, 72, 117, 85, 119, 87, 108, 76] ==>
            Record(delta, [b]) == Varint.Encode(16 * delta + 13))
  {
    hide Varint.Encode;
    var n := Packed(delta, [b]);
    assert Record(delta, [b]) == Varint.Encode(n);
  }

  /** Wider values are stored by twice the distance and the bits, or twice the
      distance and one and the characters. */
  lemma VectorRecord(delta: nat, val: seq<byte>)
    requires |val| > 1 && delta < 0x8000_0000
    ensures (forall i :: 0 <= i < |val| ==> val[i] == 48 || val[i] == 49) ==>
      Record(delta, val) == Varint.Encode(2 * delta) + PackBits(val)
    ensures (exists i :: 0 <= i < |val| && val[i] != 48 && val[i] != 49) ==>
      Record(delta, val) == Varint.Encode(2 * delta + 1) + val
  {
    hide Varint.Encode, PackBits;
  }

  /** The bits are eight to a byte, the first in the place of 128, with zeros after
      the last. */
  lemma PackedByte(val: seq<byte>, k: nat)
    requires IsBinary(val) && k < (|val| + 7) / 8
    ensures |PackBits(val)| == (|val| + 7) / 8
    ensures var p := val + [48, 48, 48, 48, 48, 48, 48];
      && 8 * k + 7 < |p|
      && PackBits(val)[k] == 128 * (p[8 * k] - 48) + 64 * (p[8 * k + 1] - 48) + 32 * (p[8 * k + 2] - 48) + 16 * (p[8 * k + 3] - 48)
           + 8 * (p[8 * k + 4] - 48) + 4 * (p[8 * k + 5] - 48) + 2 * (p[8 * k + 6] - 48) + (p[8 * k + 7] - 48)
  {
    hide BitAt;
    var p := val + [48, 48, 48, 48, 48, 48, 48];
    forall i | 0 <= i < |p| ensures BitAt(val, i) == p[i] - 48 { PaddedBit(val, i); }
  }

  lemma PaddedBit(val: seq<byte>, i: nat)
    requires IsBinary(val) && i < |val| + 7
    ensures BitAt(val, i) == (val + [48, 48, 48, 48, 48, 48, 48])[i] - 48
  {
  }
}
