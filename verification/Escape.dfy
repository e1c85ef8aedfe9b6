/** Escaped strings of src/fst/fstapi.c (fstUtilityBinToEsc, fstUtilityEscToBin):
    bytes that are not printable, or that C escapes, as a backslash and a letter
    or three octal digits. */
module Escape {
  import opened Bytes

  const BACKSLASH: byte := 92
  const ZERO: byte := 48
  const LETTER_X: byte := 120

  /** The character that names a byte after a backslash, or 0. */
  function Named(b: byte): byte {
    if b == 7 then 97 else if b == 8 then 98 else if b == 12 then 102 else if b == 10 then 110     // a b f n
    else if b == 13 then 114 else if b == 9 then 116 else if b == 11 then 118                      // r t v
    else if b == 39 || b == 34 || b == BACKSLASH || b == 63 then b                                 // ' " \ ?
    else 0
  }

  function Octal(b: byte): seq<byte> {
    [BACKSLASH, b / 64 + ZERO, b / 8 % 8 + ZERO, b % 8 + ZERO]
  }

  function EscapeOne(b: byte): (s: seq<byte>)
    ensures 1 <= |s| <= 4
  {
    if Named(b) != 0 then [BACKSLASH, Named(b)]
    else if 32 < b <= 126 then [b]
    else Octal(b)
  }

  function EscapeAll(s: seq<byte>): seq<byte>
    decreases |s|
  {
    if s == [] then [] else EscapeOne(s[0]) + EscapeAll(s[1..])
  }

  method BinToEsc(src: seq<byte>) returns (dst: seq<byte>)
    ensures dst == EscapeAll(src)
  {
    hide EscapeOne;
    dst := [];
    var i := 0;
    assert src[0..] == src;
    while i < |src|
      invariant i <= |src| && dst + EscapeAll(src[i..]) == EscapeAll(src)
    {
      dst := dst + EscapeOne(src[i]);
      assert src[i..][1..] == src[i + 1..];
      i := i + 1;
    }
  }

  /** fstUtilityBinToEscConvertedLen. */
  method ConvertedLen(src: seq<byte>) returns (dlen: nat)
    ensures dlen == |EscapeAll(src)|
  {
    dlen := 0;
    var i := 0;
    assert src[0..] == src;
    while i < |src|
      invariant i <= |src| && dlen + |EscapeAll(src[i..])| == |EscapeAll(src)|
    {
      dlen := dlen + if Named(src[i]) != 0 then 2 else if 32 < src[i] <= 126 then 1 else 4;
      assert src[i..][1..] == src[i + 1..];
      i := i + 1;
    }
  }

  // ----- and back -----

  /** The byte a character names after a backslash; any other stands for itself. */
  function Meant(ch: byte): byte {
    if ch == 97 then 7 else if ch == 98 then 8 else if ch == 102 then 12 else if ch == 110 then 10
    else if ch == 114 then 13 else if ch == 116 then 9 else if ch == 118 then 11
    else ch
  }

  predicate IsOctal(ch: byte) {
    ZERO <= ch <= ZERO + 7
  }

  /** toupper, and then the value of a hexadecimal digit, as an unsigned char. */
  function HexDigit(ch: byte): nat {
    var up := if 97 <= ch <= 122 then ch - 32 else ch;
    if 65 <= up <= 70 then up - 55 else (up - 48) % 256
  }

  function OctDigit(ch: byte): nat {
    (ch - 48) % 256
  }

  /** One character or escape at `i`: the byte, and how many were read. */
  datatype Item = Item(b: byte, size: nat) | Incomplete

  function ReadItem(src: seq<byte>, i: nat): (r: Item)
    requires i < |src|
    ensures r.Item? ==> 1 <= r.size && i + r.size <= |src|
  {
    if src[i] != BACKSLASH then Item(src[i], 1)
    else if i + 1 >= |src| then Incomplete
    else if src[i + 1] == LETTER_X then
      if i + 3 >= |src| then Incomplete
      else Item((HexDigit(src[i + 2]) * 16 + HexDigit(src[i + 3])) % 256, 4)
    else if IsOctal(src[i + 1]) then
      if i + 3 >= |src| then Incomplete
      else Item((OctDigit(src[i + 1]) * 64 + OctDigit(src[i + 2]) * 8 + OctDigit(src[i + 3])) % 256, 4)
    else Item(Meant(src[i + 1]), 2)
  }

  datatype Text = Text(bytes: seq<byte>) | CutOff

  function UnescapeFrom(src: seq<byte>, i: nat): Text
    requires i <= |src|
    decreases |src| - i
  {
    if i == |src| then Text([])
    else
      var item := ReadItem(src, i);
      if item.Incomplete? then CutOff
      else
        var rest := UnescapeFrom(src, i + item.size);
        if rest.CutOff? then CutOff else Text([item.b] + rest.bytes)
  }

  /** fstUtilityEscToBin with a null destination: the string is overwritten, the
      bytes written never overtaking those still to be read. A string that ends
      within an escape would be read past its end. */
  method EscToBin(s: array<byte>, len: nat) returns (n: nat)
    requires len <= s.Length && UnescapeFrom(s[..len], 0).Text?
    modifies s
    ensures n <= len && s[..n] == UnescapeFrom(old(s[..len]), 0).bytes && s[len..] == old(s[len..])
  {
    hide ReadItem, UnescapeFrom;
    ghost var src := s[..len];
    ghost var out: seq<byte> := [];
    UnescapeStep(src, 0);
    var i, dst := 0, 0;
    while i < len
      invariant dst <= i <= len && s[i..] == old(s[i..]) && s[..dst] == out
      invariant UnescapeFrom(src, i).Text? && out + UnescapeFrom(src, i).bytes == UnescapeFrom(src, 0).bytes
      decreases len - i
    {
      UnescapeStep(src, i);
      AheadOf(s[i..], src, i, old(s[..]), len);
      var val, size := ReadOne(s, i, len, src);
      Later(s[i..], old(s[i..]), size);
      PutAt(s, dst, i + size, val);
      out := out + [val];
      dst, i := dst + 1, i + size;
    }
    UnescapeStep(src, i);
    n := dst;
  }

  method PutAt(s: array<byte>, dst: nat, i: nat, val: byte)
    requires dst < i <= s.Length
    modifies s
    ensures s[..dst + 1] == old(s[..dst]) + [val] && s[i..] == old(s[i..])
  {
    s[dst] := val;
  }

  lemma AheadOf(ahead: seq<byte>, src: seq<byte>, i: nat, was: seq<byte>, len: nat)
    requires i <= len == |src| <= |was| && src == was[..len] && ahead == was[i..]
    ensures ahead[..len - i] == src[i..]
  {
  }

  lemma Later(a: seq<byte>, b: seq<byte>, n: nat)
    requires a == b && n <= |a|
    ensures a[n..] == b[n..]
  {
  }

  lemma UnescapeStep(src: seq<byte>, i: nat)
    requires i <= |src| && UnescapeFrom(src, i).Text?
    ensures i == |src| ==> UnescapeFrom(src, i).bytes == []
    ensures i < |src| ==>
      var item := ReadItem(src, i);
      && item.Item? && UnescapeFrom(src, i + item.size).Text?
      && UnescapeFrom(src, i).bytes == [item.b] + UnescapeFrom(src, i + item.size).bytes
  {
    hide ReadItem;
  }

  method ReadOne(s: array<byte>, i: nat, len: nat, ghost src: seq<byte>) returns (val: byte, size: nat)
    requires i < len == |src| && len <= s.Length && s[i..len] == src[i..] && ReadItem(src, i).Item?
    ensures Item(val, size) == ReadItem(src, i)
  {
    assert forall k :: i <= k < len ==> s[k] == s[i..len][k - i] == src[i..][k - i] == src[k];
    if s[i] != BACKSLASH { return s[i], 1; }
    if s[i + 1] == LETTER_X {
      val, size := (HexDigit(s[i + 2]) * 16 + HexDigit(s[i + 3])) % 256, 4;
    } else if IsOctal(s[i + 1]) {
      val, size := (OctDigit(s[i + 1]) * 64 + OctDigit(s[i + 2]) * 8 + OctDigit(s[i + 3])) % 256, 4;
    } else {
      val, size := Meant(s[i + 1]), 2;
    }
  }

  // ----- the round trip -----

  lemma ItemBack(src: seq<byte>, p: nat, b: byte)
    requires At(src, p, EscapeOne(b))
    ensures p < |src| && ReadItem(src, p) == Item(b, |EscapeOne(b)|)
  {
    hide Named, Meant, OctDigit, HexDigit;
    var w := EscapeOne(b);
    assert src[p] == w[0];
    NamedBack(b);
    ThreeDigits(b);
    if |w| > 1 { assert src[p + 1] == w[1]; }
    if |w| == 4 { assert src[p + 2] == w[2] && src[p + 3] == w[3]; }
  }

  lemma NamedBack(b: byte)
    ensures Named(b) != 0 ==> Meant(Named(b)) == b && Named(b) != LETTER_X && !IsOctal(Named(b))
    ensures Named(BACKSLASH) != 0
  {
  }

  lemma ThreeDigits(b: byte)
    ensures b == b / 64 * 64 + b / 8 % 8 * 8 + b % 8
    ensures OctDigit(b / 64 + ZERO) == b / 64 && OctDigit(b / 8 % 8 + ZERO) == b / 8 % 8 && OctDigit(b % 8 + ZERO) == b % 8
  {
    assert b / 64 == b / 8 / 8;
  }

  lemma {:induction false} UnescapeEscaped(src: seq<byte>, p: nat, s: seq<byte>)
    requires At(src, p, EscapeAll(s)) && p + |EscapeAll(s)| == |src|
    ensures UnescapeFrom(src, p) == Text(s)
    decreases |s|
  {
    hide EscapeOne, ReadItem, At;
    if s != [] {
      AtConcat(src, p, EscapeOne(s[0]), EscapeAll(s[1..]));
      UnescapeEscaped(src, p + |EscapeOne(s[0])|, s[1..]);
      OneBack(src, p, s[0], s[1..]);
      assert s == [s[0]] + s[1..];
    }
  }

  lemma OneBack(src: seq<byte>, p: nat, b: byte, rest: seq<byte>)
    requires At(src, p, EscapeOne(b)) && p + |EscapeOne(b)| <= |src| && UnescapeFrom(src, p + |EscapeOne(b)|) == Text(rest)
    ensures UnescapeFrom(src, p) == Text([b] + rest)
  {
    hide EscapeOne, ReadItem, At;
    ItemBack(src, p, b);
  }

  /** Every byte string comes back, and its escaped form is all printable. */
  lemma RoundTrip(s: seq<byte>)
    ensures UnescapeFrom(EscapeAll(s), 0) == Text(s)
    ensures forall i :: 0 <= i < |EscapeAll(s)| ==> 32 < EscapeAll(s)[i] <= 126
  {
    UnescapeEscaped(EscapeAll(s), 0, s);
    Printable(s);
  }

  lemma {:induction false} Printable(s: seq<byte>)
    ensures forall i :: 0 <= i < |EscapeAll(s)| ==> 32 < EscapeAll(s)[i] <= 126
    decreases |s|
  {
    if s != [] {
      Printable(s[1..]);
      PrintableOne(s[0]);
    }
  }

  lemma PrintableOne(b: byte)
    ensures forall i :: 0 <= i < |EscapeOne(b)| ==> 32 < EscapeOne(b)[i] <= 126
  {
  }

  // ----- in plain characters -----

  /** The escaped form of a byte: a backslash and a letter for the seven control
      characters that have one, a backslash and itself for both quotes, the question
      mark and the backslash; other printable characters as they are; and anything
      else in three octal digits. */
  lemma EscapedIs(b: byte)
    ensures b == 7 ==> EscapeOne(b) == [92, 97]      // a
    ensures b == 8 ==> EscapeOne(b) == [92, 98]      // b
    ensures b == 9 ==> EscapeOne(b) == [92, 116]     // t
    ensures b == 10 ==> EscapeOne(b) == [92, 110]    // n
    ensures b == 11 ==> EscapeOne(b) == [92, 118]    // v
    ensures b == 12 ==> EscapeOne(b) == [92, 102]    // f
    ensures b == 13 ==> EscapeOne(b) == [92, 114]    // r
    ensures b == 34 || b == 39 || b == 63 || b == 92 ==> EscapeOne(b) == [92, b]
    ensures 33 <= b <= 126 && b != 34 && b != 39 && b != 63 && b != 92 ==> EscapeOne(b) == [b]
    ensures (b < 33 && !(7 <= b <= 13)) || b > 126 ==> EscapeOne(b) == [92, 48 + b / 64, 48 + b / 8 % 8, 48 + b % 8]
  {
  }

  /** The value of a hexadecimal digit in either case, or -1. */
  function Hex(ch: byte): int {
    if 48 <= ch <= 57 then ch - 48 else if 65 <= ch <= 70 then ch - 55 else if 97 <= ch <= 102 then ch as int - 87 else -1
  }

  /** What is read back: `\x` and two hexadecimal digits, an octal digit and two
      characters taken for such, the letters above, and any other character for itself. */
  lemma ReadIs(src: seq<byte>, i: nat)
    requires i < |src|
    ensures src[i] != 92 ==> ReadItem(src, i) == Item(src[i], 1)
    ensures i + 3 < |src| && src[i] == 92 && src[i + 1] == 120 && Hex(src[i + 2]) >= 0 && Hex(src[i + 3]) >= 0 ==>
      ReadItem(src, i) == Item(16 * Hex(src[i + 2]) + Hex(src[i + 3]), 4)
    ensures i + 3 < |src| && src[i] == 92 && 48 <= src[i + 1] <= 55 ==>
      ReadItem(src, i) ==
        Item((64 * (src[i + 1] - 48) + 8 * (src[i + 2] as int - 48) + (src[i + 3] as int - 48)) % 256, 4)
    ensures i + 1 < |src| && src[i] == 92 && src[i + 1] != 120 && !(48 <= src[i + 1] <= 55) ==>
      var c := src[i + 1];
      ReadItem(src, i) == Item(if c == 97 then 7 else if c == 98 then 8 else if c == 116 then 9 else if c == 110 then 10
                               else if c == 118 then 11 else if c == 102 then 12 else if c == 114 then 13 else c, 2)
    ensures src[i] == 92 && (i + 1 == |src| || (i + 3 >= |src| && (src[i + 1] == 120 || 48 <= src[i + 1] <= 55))) ==>
      ReadItem(src, i) == Incomplete
  {
    hide HexDigit, Hex, OctDigit, Meant;
    if src[i] == 92 && i + 1 < |src| {
      MeantIs(src[i + 1]);
      if i + 3 < |src| {
        HexIs(src[i + 2]);
        HexIs(src[i + 3]);
        OctIs(src[i + 1], src[i + 2], src[i + 3]);
      }
    }
  }

  lemma HexIs(ch: byte)
    ensures Hex(ch) >= 0 ==> HexDigit(ch) == Hex(ch) < 16
  {
  }

  /** Characters that are no digits count as if they were, modulo 256. */
  lemma OctIs(a: byte, b: byte, c: byte)
    ensures (OctDigit(a) * 64 + OctDigit(b) * 8 + OctDigit(c)) % 256
         == (64 * (a as int - 48) + 8 * (b as int - 48) + (c as int - 48)) % 256
  {
    hide OctDigit;
    OneDigit(a);
    OneDigit(b);
    OneDigit(c);
    Modulo(64 * (a as int - 48) + 8 * (b as int - 48) + (c as int - 48),
           -(64 * Below(a) + 8 * Below(b) + Below(c)), OctDigit(a) * 64 + OctDigit(b) * 8 + OctDigit(c));
  }

  function Below(ch: byte): nat {
    if ch < 48 then 1 else 0
  }

  lemma OneDigit(ch: byte)
    ensures OctDigit(ch) == ch as int - 48 + 256 * Below(ch)
  {
  }

  lemma Modulo(x: int, k: int, y: int)
    requires x == 256 * k + y
    ensures x % 256 == y % 256
  {
  }

  lemma MeantIs(c: byte)
    ensures Meant(c) == if c == 97 then 7 else if c == 98 then 8 else if c == 116 then 9 else if c == 110 then 10
                        else if c == 118 then 11 else if c == 102 then 12 else if c == 114 then 13 else c
  {
  }
}
