/** The base-128 integers of src/fst/fstapi.c: unsigned ones written to the
    right or to the left, and signed ones. Seven payload bits a byte, least
    significant group first, the top bit set on every byte but the last.

    C shifts and masks by seven bits are written as division, remainder and
    multiplication by 128; the width at which C drops bits is explicit. */
module Varint {
  import opened Bytes

  datatype Width = W32 | W64

  function Modulus(w: Width): nat {
    if w == W32 then TWO_32 else TWO_64
  }

  // ----- unsigned: what the bytes mean -----

  function Encode(v: nat): (s: seq<byte>)
    ensures |s| >= 1
    decreases v
  {
    if v < 128 then [v] else [v % 128 + 128] + Encode(v / 128)
  }

  /** Number of bytes of the integer at `p`, or 0 if the bytes run out first. */
  function Skip(s: seq<byte>, p: nat): (n: nat)
    requires p <= |s|
    ensures n > 0 ==> p + n <= |s| && s[p + n - 1] < 128
    ensures forall k :: p <= k < p + n - 1 ==> s[k] >= 128
    decreases |s| - p
  {
    if p == |s| then 0
    else if s[p] < 128 then 1
    else var n := Skip(s, p + 1); if n == 0 then 0 else n + 1
  }

  /** The number spelled by the `n` seven-bit groups at `p`. */
  function Value(s: seq<byte>, p: nat, n: nat): nat
    requires p + n <= |s|
    decreases n
  {
    if n == 0 then 0 else s[p] % 128 + 128 * Value(s, p + 1, n - 1)
  }

  function Get(s: seq<byte>, p: nat, w: Width): nat
    requires p <= |s|
  {
    Value(s, p, Skip(s, p)) % Modulus(w)
  }

  /** Reading where a number was written gives the number and its length. */
  lemma {:induction false} ReadBack(s: seq<byte>, p: nat, v: nat)
    requires At(s, p, Encode(v))
    ensures Skip(s, p) == |Encode(v)|
    ensures Value(s, p, |Encode(v)|) == v
    decreases v
  {
    assert s[p] == Encode(v)[0];
    if v >= 128 {
      assert Encode(v) == [v % 128 + 128] + Encode(v / 128);
      AtConcat(s, p, [v % 128 + 128], Encode(v / 128));
      ReadBack(s, p + 1, v / 128);
    }
  }

  lemma ReadBackFits(s: seq<byte>, p: nat, v: nat, w: Width)
    requires At(s, p, Encode(v)) && v < Modulus(w)
    ensures Skip(s, p) == |Encode(v)| && Get(s, p, w) == v
  {
    ReadBack(s, p, v);
  }

  /** The length and the groups of a number depend on its own bytes only. */
  lemma {:induction false} Local(s: seq<byte>, p: nat, t: seq<byte>, q: nat, n: nat)
    requires p + n <= |s| && q + n <= |t| && s[p..p + n] == t[q..q + n]
    requires Skip(s, p) == n > 0
    ensures Skip(t, q) == n && Value(t, q, n) == Value(s, p, n)
    decreases n
  {
    assert s[p] == s[p..p + n][0] == t[q];
    if n > 1 {
      assert s[p + 1..p + n] == s[p..p + n][1..];
      assert t[q + 1..q + n] == t[q..q + n][1..];
      Local(s, p + 1, t, q + 1, n - 1);
    }
  }

  lemma {:induction false} LengthBound(v: nat, k: nat)
    requires 1 <= k && v < Pow128(k)
    ensures |Encode(v)| <= k
    decreases k
  {
    if v >= 128 {
      LengthBound(v / 128, k - 1);
    }
  }

  /** ceil(32/7) and ceil(64/7): the sizes of the C buffers. */
  lemma WordLengths(v: nat)
    ensures v < TWO_32 ==> |Encode(v)| <= 5
    ensures v < TWO_64 ==> |Encode(v)| <= 10
  {
    assert Pow128(5) == 128 * 128 * 128 * 128 * 128;
    assert Pow128(10) == 128 * 128 * 128 * 128 * 128 * Pow128(5);
    if v < TWO_32 { LengthBound(v, 5); }
    if v < TWO_64 { LengthBound(v, 10); }
  }

  function Pow128(k: nat): (r: nat)
    ensures r >= 1
  {
    if k == 0 then 1 else 128 * Pow128(k - 1)
  }

  /** One backward step of the decoding loop, at the word's width. */
  lemma ShiftStep(x: nat, d: nat, w: Width)
    requires d < 128
    ensures (x % Modulus(w)) * 128 % Modulus(w) + d == (128 * x + d) % Modulus(w)
  {
    if w == W32 { ShiftStep32(x, d); } else { ShiftStep64(x, d); }
  }

  lemma Rem32(k: int, r: nat)
    requires r < 0x1_0000_0000
    ensures (0x1_0000_0000 * k + r) % 0x1_0000_0000 == r
  {
  }

  lemma Rem64(k: int, r: nat)
    requires r < 0x1_0000_0000_0000_0000
    ensures (0x1_0000_0000_0000_0000 * k + r) % 0x1_0000_0000_0000_0000 == r
  {
  }

  lemma ShiftStep32(x: nat, d: nat)
    requires d < 128
    ensures x % 0x1_0000_0000 * 128 % 0x1_0000_0000 + d == (128 * x + d) % 0x1_0000_0000
  {
    var q, r := x / 0x1_0000_0000, x % 0x1_0000_0000;
    var a, b := r / 0x200_0000, r % 0x200_0000;
    Rem32(a, 128 * b);
    Rem32(128 * q + a, 128 * b + d);
    assert r * 128 == 0x1_0000_0000 * a + 128 * b;
    assert 128 * x + d == 0x1_0000_0000 * (128 * q + a) + (128 * b + d);
  }

  lemma ShiftStep64(x: nat, d: nat)
    requires d < 128
    ensures x % 0x1_0000_0000_0000_0000 * 128 % 0x1_0000_0000_0000_0000 + d == (128 * x + d) % 0x1_0000_0000_0000_0000
  {
    var q, r := x / 0x1_0000_0000_0000_0000, x % 0x1_0000_0000_0000_0000;
    var a, b := r / 0x200_0000_0000_0000, r % 0x200_0000_0000_0000;
    Rem64(a, 128 * b);
    Rem64(128 * q + a, 128 * b + d);
    assert r * 128 == 0x1_0000_0000_0000_0000 * a + 128 * b;
    assert 128 * x + d == 0x1_0000_0000_0000_0000 * (128 * q + a) + (128 * b + d);
  }

  // ----- unsigned: the loops -----

  /** fstGetVarint32 and fstGetVarint64: scan forward to the last byte, then
      gather the groups backward, dropping what overflows the word. */
  method GetVarint(mem: seq<byte>, p: nat, w: Width) returns (rc: nat, skiplen: nat)
    requires p <= |mem| && Skip(mem, p) > 0
    ensures skiplen == Skip(mem, p)
    ensures rc == Get(mem, p, w)
  {
    var i := p;
    while mem[i] >= 128
      invariant p <= i < p + Skip(mem, p)
      decreases p + Skip(mem, p) - i
    {
      i := i + 1;
    }
    skiplen := i - p + 1;
    ghost var n := skiplen;
    rc := 0;
    i := i + 1;
    while i > p
      invariant p <= i <= p + n
      invariant rc == Value(mem, i, p + n - i) % Modulus(w)
    {
      i := i - 1;
      ShiftStep(Value(mem, i + 1, p + n - i - 1), mem[i] % 128, w);
      rc := rc * 128 % Modulus(w) + mem[i] % 128;
    }
  }

  /** fstWriterVarint and fstCopyVarint64ToRight: emit groups, low ones first. */
  method WriteVarint(v: nat) returns (buf: seq<byte>)
    ensures buf == Encode(v)
  {
    buf := [];
    var rest := v;
    while rest / 128 != 0
      invariant buf + Encode(rest) == Encode(v)
    {
      buf := buf + [rest % 128 + 128];
      rest := rest / 128;
    }
    buf := buf + [rest];
  }

  /** How many bytes the number takes. */
  method CountBytes(v: nat) returns (cnt: nat)
    ensures cnt == |Encode(v)|
  {
    cnt := 1;
    var nxt := v / 128;
    while nxt != 0
      invariant 1 <= cnt && 0 <= nxt
      invariant cnt + (if nxt == 0 then 0 else |Encode(nxt)|) == |Encode(v)|
      decreases nxt
    {
      cnt := cnt + 1;
      nxt := nxt / 128;
    }
  }

  /** fstCopyVarint32ToLeft: count the bytes, step back, then write forward. */
  method CopyVarintToLeft(mem: array<byte>, pnt: nat, v: nat) returns (start: nat)
    requires |Encode(v)| <= pnt <= mem.Length
    modifies mem
    ensures start == pnt - |Encode(v)|
    ensures mem[start..pnt] == Encode(v)
    ensures mem[pnt..] == old(mem[pnt..])
  {
    hide Encode;
    var cnt := CountBytes(v);
    start := pnt - cnt;
    var spnt := start;
    var rest := v;
    LastGroup(rest);
    while rest / 128 != 0
      invariant start <= spnt && spnt + |Encode(rest)| == pnt
      invariant mem[start..spnt] + Encode(rest) == Encode(v)
      invariant mem[pnt..] == old(mem[pnt..])
    {
      LastGroup(rest);
      Regroup(mem[start..spnt], rest % 128 + 128, Encode(rest / 128));
      PutGroup(mem, start, spnt, rest % 128 + 128, pnt);
      spnt := spnt + 1;
      rest := rest / 128;
    }
    LastGroup(rest);
    PutGroup(mem, start, spnt, rest, pnt);
  }

  /** A number is one byte, or a byte and then the rest of it. */
  lemma LastGroup(v: nat)
    ensures Encode(v) == if v / 128 == 0 then [v] else [v % 128 + 128] + Encode(v / 128)
  {
  }

  lemma Regroup(done: seq<byte>, b: int, rest: seq<byte>)
    requires 0 <= b < 256
    ensures done + ([b] + rest) == done + [b] + rest
  {
  }

  /** One byte after those written from `start` on. */
  method PutGroup(mem: array<byte>, start: nat, spnt: nat, b: byte, ghost pnt: nat)
    requires start <= spnt < pnt <= mem.Length
    modifies mem
    ensures mem[start..spnt + 1] == old(mem[start..spnt]) + [b]
    ensures mem[pnt..] == old(mem[pnt..])
  {
    mem[spnt] := b;
  }

  // ----- signed -----

  function EncodeSigned(v: int): (s: seq<byte>)
    ensures |s| >= 1
    ensures s[0] % 2 == v % 2
    decreases if v < 0 then -v else v
  {
    var low, rest := v % 128, v / 128;
    SignedGroup(v);
    if (rest == 0 && low < 64) || (rest == -1 && low >= 64) then [low]
    else [low + 128] + EncodeSigned(rest)
  }

  lemma SignedGroup(v: int)
    ensures v % 128 % 2 == v % 2 && (v % 128 + 128) % 2 == v % 2
    ensures v > 0 ==> 0 <= v / 128 < v
    ensures v < -1 ==> v < v / 128 < 0
    ensures v == 0 || v == -1 ==> v / 128 == v && (v == 0 ==> v % 128 == 0) && (v == -1 ==> v % 128 == 127)
  {
    assert v == 128 * (v / 128) + v % 128;
    assert v % 128 == 2 * (v % 128 / 2) + v % 128 % 2;
  }

  function ToSigned64(x: int): int {
    var r := x % TWO_64;
    if r < TWO_64 / 2 then r else r - TWO_64
  }

  /** The 64-bit result of reading the signed integer at `p`: the groups as an
      unsigned number, sign-extended from bit 6 of the last byte when the
      groups do not fill the word. */
  function GetSigned(s: seq<byte>, p: nat): int
    requires p <= |s|
  {
    var n := Skip(s, p);
    Extended(Value(s, p, n), n, 0 < n && s[p + n - 1] >= 64)
  }

  function Extended(raw: nat, n: nat, negative: bool): int {
    ToSigned64(raw - if negative && 7 * n < 64 then Pow128(n) else 0)
  }

  lemma ExtendedExact(raw: nat, n: nat, negative: bool, v: int)
    requires n <= 10 && -(TWO_64 / 2) <= v < TWO_64 / 2
    requires v == raw - if negative then Pow128(n) else 0
    ensures Extended(raw, n, negative) == v
  {
    if n == 10 && negative {
      FullWord();
      InRange(v, 64);
    } else {
      InRange(v, 0);
    }
  }

  /** One group is the number itself, the sign in its bit 6. */
  lemma LastGroupBack(s: seq<byte>, p: nat, v: int)
    requires p < |s| && |EncodeSigned(v)| == 1 && s[p] == EncodeSigned(v)[0]
    ensures Skip(s, p) == 1 && v == Value(s, p, 1) - if s[p] >= 64 then Pow128(1) else 0
  {
    assert Value(s, p, 1) == s[p] % 128 && Pow128(1) == 128;
  }

  /** A longer number is its first group and the rest. */
  lemma FirstGroup(v: int)
    requires |EncodeSigned(v)| > 1
    ensures EncodeSigned(v) == [v % 128 + 128] + EncodeSigned(v / 128)
  {
  }

  lemma {:induction false} ReadBackSignedExact(s: seq<byte>, p: nat, v: int)
    requires At(s, p, EncodeSigned(v))
    ensures var n := |EncodeSigned(v)|;
      Skip(s, p) == n && v == Value(s, p, n) - if s[p + n - 1] >= 64 then Pow128(n) else 0
    decreases |EncodeSigned(v)|
  {
    hide EncodeSigned, Skip, Value, Pow128;
    assert s[p] == EncodeSigned(v)[0];
    if |EncodeSigned(v)| == 1 {
      LastGroupBack(s, p, v);
    } else {
      var tail := EncodeSigned(v / 128);
      FirstGroup(v);
      AtConcat(s, p, [v % 128 + 128], tail);
      ReadBackSignedExact(s, p + 1, v / 128);
      SignedCons(s, p, |tail|);
    }
  }

  lemma SignedCons(s: seq<byte>, p: nat, n: nat)
    requires p + 1 + n <= |s| && s[p] >= 128 && Skip(s, p + 1) == n > 0
    ensures Skip(s, p) == n + 1
    ensures Value(s, p, n + 1) == s[p] % 128 + 128 * Value(s, p + 1, n)
    ensures Pow128(n + 1) == 128 * Pow128(n)
  {
  }

  lemma {:induction false} SignedLengthBound(v: int, k: nat)
    requires 1 <= k && 0 <= 2 * v + Pow128(k) < 2 * Pow128(k)
    ensures |EncodeSigned(v)| <= k
    decreases k
  {
    hide EncodeSigned, Pow128;
    SignedStep(v);
    PowStep(k);
    PowStep(k - 1);
    if k == 1 {
      SmallSigned(v);
    } else {
      HalfRange(v, 64 * Pow128(k - 2));
      if |EncodeSigned(v)| > 1 { SignedLengthBound(v / 128, k - 1); }
    }
  }

  lemma SmallSigned(v: int)
    requires -64 <= v < 64
    ensures (v / 128 == 0 && v % 128 < 64) || (v / 128 == -1 && v % 128 >= 64)
  {
    if v < 0 { assert v == 128 * -1 + (v + 128); }
  }

  lemma HalfRange(v: int, half: nat)
    requires 0 <= v + 128 * half < 256 * half
    ensures 0 <= v / 128 + half < 2 * half
  {
    assert v == 128 * (v / 128) + v % 128;
  }

  /** Signed round trip, for every 64-bit value and wherever it was written. */
  lemma ReadBackSigned(s: seq<byte>, p: nat, v: int)
    requires At(s, p, EncodeSigned(v))
    requires -(TWO_64 / 2) <= v < TWO_64 / 2
    ensures Skip(s, p) == |EncodeSigned(v)| <= 10
    ensures GetSigned(s, p) == v
  {
    hide EncodeSigned, Skip, Value, Extended, Pow128;
    ReadBackSignedExact(s, p, v);
    FullWord();
    SignedLengthBound(v, 10);
    var n := |EncodeSigned(v)|;
    ExtendedExact(Value(s, p, n), n, s[p + n - 1] >= 64, v);
  }

  lemma FullWord()
    ensures Pow128(10) == 64 * TWO_64
  {
    assert Pow128(5) == 128 * 128 * 128 * 128 * 128;
    assert Pow128(10) == 128 * 128 * 128 * 128 * 128 * Pow128(5);
  }

  lemma InRange(v: int, q: nat)
    requires -(TWO_64 / 2) <= v < TWO_64 / 2
    ensures ToSigned64(v + q * TWO_64) == v
  {
    if v < 0 {
      assert v + q * TWO_64 == TWO_64 * (q - 1) + (v + TWO_64);
    }
  }

  lemma SignedStep(v: int)
    ensures EncodeSigned(v) ==
      if (v / 128 == 0 && v % 128 < 64) || (v / 128 == -1 && v % 128 >= 64) then [v % 128]
      else [v % 128 + 128] + EncodeSigned(v / 128)
  {
  }

  /** fstWriterSVarint. */
  method WriteSVarint(v: int) returns (buf: seq<byte>)
    ensures buf == EncodeSigned(v)
  {
    hide EncodeSigned;
    buf := [];
    var rest := v;
    var more := true;
    while more
      invariant EncodeSigned(v) == if more then buf + EncodeSigned(rest) else buf
      decreases more, if rest < 0 then -rest else rest
    {
      SignedStep(rest);
      SignedGroup(rest);
      ghost var done := buf;
      Regroup(done, rest % 128 + 128, EncodeSigned(rest / 128));
      var byt := rest % 128;
      rest := rest / 128;
      if (rest == 0 && byt < 64) || (rest == -1 && byt >= 64) {
        more := false;
        buf := buf + [byt];
      } else {
        buf := buf + [byt + 128];
      }
    }
  }

  lemma {:induction false} ValueSnoc(s: seq<byte>, p: nat, n: nat)
    requires p + n < |s|
    ensures Value(s, p, n + 1) == Value(s, p, n) + s[p + n] % 128 * Pow128(n)
    decreases n
  {
    hide Value, Pow128;
    var d := s[p + n] % 128;
    FirstOfValue(s, p, n + 1);
    FirstOfValue(s, p, n);
    PowStep(n);
    if n > 0 {
      ValueSnoc(s, p + 1, n - 1);
      Shifted(Value(s, p + 1, n - 1), d, Pow128(n - 1));
    } else {
      FirstOfValue(s, p + 1, 0);
      assert d * 1 == d;
    }
  }

  lemma FirstOfValue(s: seq<byte>, p: nat, n: nat)
    requires p + n <= |s|
    ensures Value(s, p, n) == if n == 0 then 0 else s[p] % 128 + 128 * Value(s, p + 1, n - 1)
  {
  }

  lemma PowStep(n: nat)
    ensures Pow128(n) == if n == 0 then 1 else 128 * Pow128(n - 1)
  {
  }

  lemma Shifted(a: nat, d: nat, w: nat)
    ensures 128 * (a + d * w) == 128 * a + d * (128 * w)
  {
    var x := d * w;
    assert d * (128 * w) == 128 * x;
  }

  lemma AddMod64(x: nat, y: nat)
    ensures (x % TWO_64 + y) % TWO_64 == (x + y) % TWO_64
  {
    assert x == TWO_64 * (x / TWO_64) + x % TWO_64;
  }

  /** fstGetSVarint64. More than ten bytes would shift by more than the word
      holds, which C leaves undefined. */
  method GetSVarint64(mem: seq<byte>, p: nat) returns (rc: int, skiplen: nat)
    requires p <= |mem| && 0 < Skip(mem, p) <= 10
    ensures skiplen == Skip(mem, p)
    ensures rc == GetSigned(mem, p)
  {
    ghost var n := Skip(mem, p);
    var acc, weight, k, more := 0, 1, 0, true;
    while more
      invariant k <= n && more == (k < n) && weight == Pow128(k)
      invariant acc == Value(mem, p, k) % TWO_64
      decreases n - k
    {
      more := mem[p + k] >= 128;
      acc := AddGroup(mem, p, k, acc, weight);
      weight, k := 128 * weight, k + 1;
    }
    skiplen := k;
    rc := SignExtend(Value(mem, p, k), acc, k, weight, mem[p + k - 1] >= 64);
  }

  /** The sign, bit 6 of the last byte, fills the bits the groups did not reach. */
  method SignExtend(ghost raw: nat, acc: nat, k: nat, weight: nat, negative: bool) returns (rc: int)
    requires acc == raw % TWO_64 && weight == Pow128(k)
    ensures rc == Extended(raw, k, negative)
  {
    if 7 * k < 64 && negative {
      SignedMod(raw, weight);
      rc := ToSigned64(acc as int - weight);
    } else {
      SignedMod(raw, 0);
      rc := ToSigned64(acc);
    }
  }

  /** One more group, at the place that `weight` stands for. */
  method AddGroup(mem: seq<byte>, p: nat, k: nat, acc: nat, weight: nat) returns (r: nat)
    requires p + k < |mem| && weight == Pow128(k)
    requires acc == Value(mem, p, k) % TWO_64
    ensures r == Value(mem, p, k + 1) % TWO_64
  {
    ValueSnoc(mem, p, k);
    AddMod64(Value(mem, p, k), mem[p + k] % 128 * weight);
    r := (acc + mem[p + k] % 128 * weight) % TWO_64;
  }

  lemma SignedMod(x: nat, y: nat)
    ensures ToSigned64(x % TWO_64 - y) == ToSigned64(x - y)
  {
    var q := x / TWO_64;
    assert x - y == x % TWO_64 - y + TWO_64 * q;
  }

  // ----- in plain numbers -----

  /** The seven low bits of each of `n` bytes, the first seven worth ones, the next
      times 2^7, and so on. */
  function Groups(s: seq<byte>, n: nat): nat
    requires n <= |s|
  {
    if n == 0 then 0 else Groups(s, n - 1) + s[n - 1] % 128 * PowerOfTwo(7 * (n - 1))
  }

  lemma {:induction false} Pow128Is(n: nat)
    ensures Pow128(n) == PowerOfTwo(7 * n)
    decreases n
  {
    if n > 0 {
      Pow128Is(n - 1);
      SevenMore(7 * (n - 1));
    }
  }

  lemma SevenMore(k: nat)
    ensures PowerOfTwo(k + 7) == 128 * PowerOfTwo(k)
  {
    hide PowerOfTwo;
    Doubles(k);
    Doubles(k + 1);
    Doubles(k + 2);
    Doubles(k + 3);
    Doubles(k + 4);
    Doubles(k + 5);
    Doubles(k + 6);
  }

  lemma Doubles(k: nat)
    ensures PowerOfTwo(k + 1) == 2 * PowerOfTwo(k)
  {
  }

  lemma {:induction false} GroupsAre(s: seq<byte>, n: nat)
    requires n <= |s|
    ensures Value(s, 0, n) == Groups(s, n)
    decreases n
  {
    hide Value, PowerOfTwo, Pow128;
    FirstOfValue(s, 0, 0);
    if n > 0 {
      GroupsAre(s, n - 1);
      ValueSnoc(s, 0, n - 1);
      Pow128Is(n - 1);
    }
  }

  lemma {:induction false} NoExtraGroup(v: nat)
    ensures var s := Encode(v); |s| > 1 ==> s[|s| - 1] != 0
    decreases v
  {
    if v >= 128 {
      NoExtraGroup(v / 128);
      if v / 128 < 128 { assert Encode(v / 128) == [v / 128]; }
    }
  }

  /** An unsigned number is written in LEB128: groups of seven bits, low ones first,
      the top bit set on all but the last byte, and no group more than needed. */
  lemma Leb128(v: nat)
    ensures var s := Encode(v); var n := |s|;
      && n >= 1 && v == Groups(s, n)
      && s[n - 1] < 128 && (forall i :: 0 <= i < n - 1 ==> s[i] >= 128) && (n > 1 ==> s[n - 1] != 0)
  {
    hide Encode, Groups;
    var s := Encode(v);
    assert At(s, 0, s);
    ReadBack(s, 0, v);
    GroupsAre(s, |s|);
    NoExtraGroup(v);
  }

  lemma {:induction false} NoExtraSigned(v: int)
    ensures var s := EncodeSigned(v);
      |s| > 1 ==> !(s[|s| - 1] == 0 && s[|s| - 2] % 128 < 64) && !(s[|s| - 1] == 127 && s[|s| - 2] % 128 >= 64)
    decreases |EncodeSigned(v)|
  {
    hide EncodeSigned;
    SignedStep(v);
    if |EncodeSigned(v)| > 1 {
      FirstGroup(v);
      NoExtraSigned(v / 128);
      SignedStep(v / 128);
      LastSigned(v / 128);
    }
  }

  /** A signed number of one byte is that byte, less 128 from 64 on. */
  lemma LastSigned(v: int)
    ensures |EncodeSigned(v)| == 1 ==> EncodeSigned(v)[0] == v % 128 && v / 128 == (if v % 128 < 64 then 0 else -1)
    ensures |EncodeSigned(v)| == 1 && v % 128 == 0 ==> v == 0
    ensures |EncodeSigned(v)| == 1 && v % 128 == 127 ==> v == -1
  {
  }

  /** A signed number likewise, bit 6 of the last byte being its sign. */
  lemma SignedLeb128(v: int)
    ensures var s := EncodeSigned(v); var n := |s|;
      && n >= 1 && v == Groups(s, n) - (if s[n - 1] >= 64 then PowerOfTwo(7 * n) else 0)
      && s[n - 1] < 128 && (forall i :: 0 <= i < n - 1 ==> s[i] >= 128)
      && (n > 1 ==> !(s[n - 1] == 0 && s[n - 2] % 128 < 64) && !(s[n - 1] == 127 && s[n - 2] % 128 >= 64))
  {
    hide EncodeSigned, Groups, PowerOfTwo, Pow128, Value;
    var s := EncodeSigned(v);
    assert At(s, 0, s);
    ReadBackSignedExact(s, 0, v);
    GroupsAre(s, |s|);
    Pow128Is(|s|);
    NoExtraSigned(v);
  }
}
