/** The LZ4 block format as src/fst/lz4.c writes and reads it (LZ4 Block Format
    Description, "Compressed block format" and "End of block conditions"). */
module Lz4Format {
  import opened Bytes
  import opened Lz

  const MINMATCH: nat := 4
  const LASTLITERALS: nat := 5
  const MFLIMIT: nat := 12
  const RUN_MASK: nat := 15
  const ML_MASK: nat := 15

  /** Literals, then a repeat of `len` bytes found `offset` back. */
  datatype Sequence = Sequence(lits: seq<byte>, offset: nat, len: nat)

  predicate Valid(s: Sequence) {
    1 <= s.offset < 65536 && s.len >= MINMATCH
  }

  // ----- what the decoder makes of bytes -----

  datatype Status = Done | Error(at: nat) | Overrun | Undefined
  datatype Outcome = Outcome(out: seq<byte>, status: Status)
  datatype Length = Length(len: nat, next: nat) | Cut
  datatype Repeat = Repeat(offset: nat, len: nat, next: nat) | Bad(at: nat)

  /** The length of a literal run continued over bytes of 255, up to a smaller one
      or to fifteen bytes before the end of the input. */
  function ReadRunBytes(src: seq<byte>, ip: nat, len: nat): (r: Length)
    requires ip <= |src|
    ensures r.Length? ==> ip < r.next <= |src|
    decreases |src| - ip
  {
    if ip == |src| then Cut
    else if src[ip] == 255 && ip + 1 + RUN_MASK < |src| then ReadRunBytes(src, ip + 1, len + 255)
    else Length(len + src[ip], ip + 1)
  }

  function ReadRun(src: seq<byte>, ip: nat): (r: Length)
    requires ip < |src|
    ensures r.Length? ==> ip < r.next <= |src|
  {
    if src[ip] / 16 == RUN_MASK then ReadRunBytes(src, ip + 1, RUN_MASK)
    else Length(src[ip] / 16, ip + 1)
  }

  /** The length of a match continued over bytes of 255, up to a smaller one; an
      error within the last literals. */
  function ReadMatchBytes(src: seq<byte>, ip: nat, offset: nat, len: nat): (r: Repeat)
    ensures r.Repeat? ==> ip < r.next <= |src| && r.offset == offset
    decreases |src| - ip
  {
    if ip + LASTLITERALS > |src| then Bad(ip)
    else if src[ip] == 255 then ReadMatchBytes(src, ip + 1, offset, len + 255)
    else Repeat(offset, len + src[ip], ip + 1)
  }

  /** The offset at `ip` and the match length, `produced` bytes being available
      to refer back to. */
  function ReadRepeat(src: seq<byte>, ip: nat, token: byte, produced: nat): (r: Repeat)
    requires ip + 2 <= |src|
    ensures r.Repeat? ==> ip < r.next <= |src| && r.offset <= produced
  {
    var offset := src[ip] as int + 256 * (src[ip + 1] as int);
    if offset > produced then Bad(ip + 2)
    else if token % 16 == ML_MASK then ReadMatchBytes(src, ip + 2, offset, ML_MASK + MINMATCH)
    else Repeat(offset, token % 16 + MINMATCH, ip + 2)
  }

  /** A literal run that reaches this close to either end has to be the last:
      cpy > oexit || ip+length > iend-(2+1+LASTLITERALS), with oexit cut down
      to oend-MFLIMIT. */
  predicate IsLastRun(src: seq<byte>, ip: nat, len: nat, produced: nat, cap: nat) {
    produced + len + MFLIMIT > cap || ip + len + 2 + 1 + LASTLITERALS > |src|
  }

  /** LZ4_decompress_generic as the chain reader instantiates it (safe,
      partial, target equal to the capacity `cap`, no dictionary): the bytes
      produced from `ip` on, and how it stops. Reading past the input, which C
      does not check for on a malformed first token, is Overrun; an offset of
      zero, which repeats bytes never written, is Undefined. */
  function DecodeFrom(src: seq<byte>, ip: nat, out: seq<byte>, cap: nat): Outcome
    requires ip <= |src|
    decreases |src| - ip
  {
    if ip == |src| then Outcome(out, Overrun)
    else
      var run := ReadRun(src, ip);
      if run.Cut? then Outcome(out, Overrun)
      else if IsLastRun(src, run.next, run.len, |out|, cap) then
        if |out| + run.len > cap || run.next + run.len > |src| then Outcome(out, Error(run.next))
        else Outcome(out + src[run.next..run.next + run.len], Done)
      else
        AfterRun(src, run.next + run.len, src[ip], out + src[run.next..run.next + run.len], cap)
  }

  function AfterRun(src: seq<byte>, ip: nat, token: byte, out: seq<byte>, cap: nat): Outcome
    requires ip + 2 <= |src|
    decreases |src| - ip
  {
    var m := ReadRepeat(src, ip, token, |out|);
    if m.Bad? then Outcome(out, Error(m.at))
    else if |out| + m.len + LASTLITERALS > cap then Outcome(out, Error(m.next))
    else if m.offset == 0 then Outcome(out, Undefined)
    else DecodeFrom(src, m.next, Copied(out, m.offset, m.len), cap)
  }

  /** LZ4_decompress_safe_partial with target and capacity `cap`. */
  function Decode(src: seq<byte>, cap: nat): Outcome {
    if cap == 0 then Outcome([], if src == [0] then Done else Error(0))
    else DecodeFrom(src, 0, [], cap)
  }

  // ----- the bytes of a block -----

  function Nibble(n: nat): nat {
    if n < 15 then n else 15
  }

  function MoreBytes(n: nat): seq<byte> {
    if n < 15 then [] else Ext(n - 15)
  }

  function WireRun(lits: seq<byte>, low: nat): (w: seq<byte>)
    requires low < 16
    ensures |w| >= 1 + |lits|
  {
    [Nibble(|lits|) * 16 + low] + MoreBytes(|lits|) + lits
  }

  function WireMatch(s: Sequence): (w: seq<byte>)
    requires Valid(s)
    ensures |w| >= 2
  {
    [s.offset % 256, s.offset / 256] + MoreBytes(s.len - MINMATCH)
  }

  function Wire(s: Sequence): (w: seq<byte>)
    requires Valid(s)
    ensures |w| >= 3
  {
    WireRun(s.lits, Nibble(s.len - MINMATCH)) + WireMatch(s)
  }

  ghost predicate AllValid(ss: seq<Sequence>) {
    forall i :: 0 <= i < |ss| ==> Valid(ss[i])
  }

  ghost function WireAll(ss: seq<Sequence>): seq<byte>
    requires AllValid(ss)
  {
    if ss == [] then [] else WireAll(ss[..|ss| - 1]) + Wire(ss[|ss| - 1])
  }

  /** The sequences in order spell `out`, the beginning of a text of `n` bytes,
      and keep the end-of-block conditions: every match starts at least 12
      bytes before the end of the text and ends at least 5 before it. */
  ghost predicate Spells(ss: seq<Sequence>, out: seq<byte>, n: nat)
    decreases |ss|
  {
    if ss == [] then out == []
    else
      var s := ss[|ss| - 1];
      && |s.lits| + s.len <= |out|
      && var before := out[..|out| - s.len - |s.lits|];
      && Spells(ss[..|ss| - 1], before, n)
      && 1 <= s.offset <= |before| + |s.lits|
      && out == Copied(before + s.lits, s.offset, s.len)
      && |before| + |s.lits| + MFLIMIT <= n
      && |out| + LASTLITERALS <= n
  }

  lemma Append(ss: seq<Sequence>, s: Sequence, before: seq<byte>, out: seq<byte>, n: nat)
    requires AllValid(ss) && Valid(s) && Spells(ss, before, n)
    requires s.offset <= |before| + |s.lits| && out == Copied(before + s.lits, s.offset, s.len)
    requires |before| + |s.lits| + MFLIMIT <= n && |out| + LASTLITERALS <= n
    ensures AllValid(ss + [s]) && Spells(ss + [s], out, n)
    ensures WireAll(ss + [s]) == WireAll(ss) + Wire(s)
  {
    hide Wire, WireAll, AllValid, Spells;
    AppendWire(ss, s);
    AppendSpells(ss, s, before, out, n);
  }

  lemma AppendSpells(ss: seq<Sequence>, s: Sequence, before: seq<byte>, out: seq<byte>, n: nat)
    requires Spells(ss, before, n)
    requires 1 <= s.offset <= |before| + |s.lits| && out == Copied(before + s.lits, s.offset, s.len)
    requires |before| + |s.lits| + MFLIMIT <= n && |out| + LASTLITERALS <= n
    ensures Spells(ss + [s], out, n)
  {
    hide Copied;
    assert (ss + [s])[..|ss|] == ss;
    CopiedKeeps(before + s.lits, s.offset, s.len);
    assert out[..|before|] == (before + s.lits)[..|before|] == before;
  }

  lemma AppendWire(ss: seq<Sequence>, s: Sequence)
    requires AllValid(ss) && Valid(s)
    ensures AllValid(ss + [s])
    ensures WireAll(ss + [s]) == WireAll(ss) + Wire(s)
  {
    hide Wire;
    assert (ss + [s])[..|ss|] == ss;
  }

  // ----- reading sequences back -----

  lemma {:induction false} ReadRunExt(src: seq<byte>, ip: nat, n: nat, len: nat)
    requires At(src, ip, Ext(n)) && ip + |Ext(n)| + n <= |src|
    ensures ReadRunBytes(src, ip, len) == Length(len + n, ip + |Ext(n)|)
    decreases n
  {
    assert src[ip] == Ext(n)[0];
    if n >= 255 {
      AtConcat(src, ip, [255], Ext(n - 255));
      ReadRunExt(src, ip + 1, n - 255, len + 255);
    }
  }

  /** Reading the header of a literal run whose literals are all there. */
  lemma ReadWireRun(src: seq<byte>, ip: nat, lits: seq<byte>, low: nat)
    requires low < 16 && At(src, ip, WireRun(lits, low))
    ensures var w := |WireRun(lits, low)|;
      && src[ip] % 16 == low
      && ReadRun(src, ip) == Length(|lits|, ip + w - |lits|)
      && src[ip + w - |lits|..ip + w] == lits
  {
    hide ReadRunBytes, Ext, At, MoreBytes;
    RunParts(src, ip, lits, low);
    MoreIs(|lits|);
    if |lits| >= 15 {
      ReadRunExt(src, ip + 1, |lits| - 15, RUN_MASK);
    }
    NibbleOf(src[ip], Nibble(|lits|), low);
  }

  lemma MoreIs(n: nat)
    ensures MoreBytes(n) == if n < 15 then [] else Ext(n - 15)
  {
  }

  lemma RunParts(src: seq<byte>, ip: nat, lits: seq<byte>, low: nat)
    requires low < 16 && At(src, ip, WireRun(lits, low))
    ensures var n := |MoreBytes(|lits|)|;
      && |WireRun(lits, low)| == 1 + n + |lits| && ip + 1 + n + |lits| <= |src|
      && src[ip] == Nibble(|lits|) * 16 + low && At(src, ip + 1, MoreBytes(|lits|))
      && src[ip + 1 + n..ip + 1 + n + |lits|] == lits
  {
    hide At, MoreBytes;
    var head: seq<byte> := [Nibble(|lits|) * 16 + low];
    var more := MoreBytes(|lits|);
    AtConcat(src, ip, head + more, lits);
    AtConcat(src, ip, head, more);
    InBounds(src, ip + |head + more|, lits);
    AtSlice(src, ip + |head + more|, lits);
    OneAt(src, ip, Nibble(|lits|) * 16 + low);
  }

  lemma NibbleOf(b: byte, high: nat, low: nat)
    requires low < 16 && b as int == high * 16 + low
    ensures b / 16 == high && b % 16 == low
  {
  }

  lemma {:induction false} ReadMatchExt(src: seq<byte>, ip: nat, n: nat, offset: nat, len: nat)
    requires At(src, ip, Ext(n)) && ip + |Ext(n)| + LASTLITERALS <= |src| + 1
    ensures ReadMatchBytes(src, ip, offset, len) == Repeat(offset, len + n, ip + |Ext(n)|)
    decreases n
  {
    assert src[ip] == Ext(n)[0];
    if n >= 255 {
      AtConcat(src, ip, [255], Ext(n - 255));
      ReadMatchExt(src, ip + 1, n - 255, offset, len + 255);
    }
  }

  lemma ReadWireMatch(src: seq<byte>, ip: nat, s: Sequence, token: byte, produced: nat)
    requires Valid(s) && At(src, ip, WireMatch(s)) && token % 16 == Nibble(s.len - MINMATCH)
    requires s.offset <= produced && ip + |WireMatch(s)| + LASTLITERALS <= |src| + 1
    ensures ip + 2 <= |src|
    ensures ReadRepeat(src, ip, token, produced) == Repeat(s.offset, s.len, ip + |WireMatch(s)|)
  {
    hide ReadMatchBytes, Ext, At;
    var offset: seq<byte> := [s.offset % 256, s.offset / 256];
    var more := MoreBytes(s.len - MINMATCH);
    AtConcat(src, ip, offset, more);
    TwoAt(src, ip, s.offset % 256, s.offset / 256);
    LittleEndian16(s.offset);
    if s.len - MINMATCH >= 15 {
      ReadMatchExt(src, ip + 2, s.len - MINMATCH - 15, s.offset, ML_MASK + MINMATCH);
    }
  }

  lemma OneAt(src: seq<byte>, ip: nat, a: byte)
    requires At(src, ip, [a])
    ensures ip < |src| && src[ip] == a
  {
    assert src[ip + 0] == [a][0];
  }

  lemma InBounds(src: seq<byte>, ip: nat, part: seq<byte>)
    requires At(src, ip, part)
    ensures ip + |part| <= |src|
  {
  }

  lemma TwoAt(src: seq<byte>, ip: nat, a: byte, b: byte)
    requires At(src, ip, [a, b])
    ensures ip + 2 <= |src| && src[ip] == a && src[ip + 1] == b
  {
    assert src[ip + 0] == [a, b][0] && src[ip + 1] == [a, b][1];
  }

  lemma LittleEndian16(x: nat)
    ensures x % 256 + 256 * (x / 256) == x
  {
  }

  /** One sequence, with at least one more token and five literals behind it. */
  lemma Step(src: seq<byte>, ip: nat, s: Sequence, out: seq<byte>, cap: nat)
    requires Valid(s) && At(src, ip, Wire(s)) && ip + |Wire(s)| + 1 + LASTLITERALS <= |src|
    requires s.offset <= |out| + |s.lits| && |out| + |s.lits| + MFLIMIT <= cap
    requires |out| + |s.lits| + s.len + LASTLITERALS <= cap
    ensures DecodeFrom(src, ip, out, cap)
         == DecodeFrom(src, ip + |Wire(s)|, Copied(out + s.lits, s.offset, s.len), cap)
  {
    hide DecodeFrom, WireRun, WireMatch, ReadRepeat;
    var low := Nibble(s.len - MINMATCH);
    var w := |WireRun(s.lits, low)|;
    AtConcat(src, ip, WireRun(s.lits, low), WireMatch(s));
    ReadWireRun(src, ip, s.lits, low);
    ReadWireMatch(src, ip + w, s, src[ip], |out| + |s.lits|);
    StepRun(src, ip, |s.lits|, ip + w - |s.lits|, out, cap);
  }

  lemma StepRun(src: seq<byte>, ip: nat, len: nat, next: nat, out: seq<byte>, cap: nat)
    requires ip < |src| && ReadRun(src, ip) == Length(len, next)
    requires !IsLastRun(src, next, len, |out|, cap)
    ensures DecodeFrom(src, ip, out, cap) == AfterRun(src, next + len, src[ip], out + src[next..next + len], cap)
  {
  }

  /** Decoding a block that begins with a spelling of `out` reaches `out`. */
  lemma {:induction false} Replay(ss: seq<Sequence>, src: seq<byte>, out: seq<byte>, n: nat, cap: nat)
    requires AllValid(ss) && Spells(ss, out, n) && n <= cap
    requires At(src, 0, WireAll(ss)) && |WireAll(ss)| + 1 + LASTLITERALS <= |src|
    ensures DecodeFrom(src, 0, [], cap) == DecodeFrom(src, |WireAll(ss)|, out, cap)
    decreases |ss|
  {
    hide DecodeFrom, Wire, At;
    if ss != [] {
      var s, front := ss[|ss| - 1], ss[..|ss| - 1];
      AtConcat(src, 0, WireAll(front), Wire(s));
      var before := out[..|out| - s.len - |s.lits|];
      Replay(front, src, before, n, cap);
      Step(src, |WireAll(front)|, s, before, cap);
    }
  }

  /** The last run ends the text exactly: because it fills the buffer, or
      because the input stops there. */
  lemma LastRun(src: seq<byte>, ip: nat, lits: seq<byte>, out: seq<byte>, cap: nat)
    requires At(src, ip, WireRun(lits, 0)) && |out| + |lits| <= cap
    requires |out| + |lits| == cap || ip + |WireRun(lits, 0)| == |src|
    ensures DecodeFrom(src, ip, out, cap) == Outcome(out + lits, Done)
  {
    hide WireRun, ReadRun;
    ReadWireRun(src, ip, lits, 0);
  }

  /** What `stream` has to be for a decoder to get `text` back. */
  ghost predicate Encoded(text: seq<byte>, stream: seq<byte>, ss: seq<Sequence>, last: seq<byte>) {
    && AllValid(ss) && |last| <= |text|
    && Spells(ss, text[..|text| - |last|], |text|) && text[|text| - |last|..] == last
    && (ss != [] ==> |last| >= LASTLITERALS)
    && stream == WireAll(ss) + WireRun(last, 0)
  }

  lemma DecodesTo(text: seq<byte>, stream: seq<byte>, ss: seq<Sequence>, last: seq<byte>, tail: seq<byte>, cap: nat)
    requires Encoded(text, stream, ss, last) && |text| <= cap
    requires |text| == cap || tail == []
    ensures DecodeFrom(stream + tail, 0, [], cap) == Outcome(text, Done)
  {
    hide DecodeFrom, WireRun, Spells;
    var src := stream + tail;
    var out := text[..|text| - |last|];
    assert At(src, 0, WireAll(ss) + WireRun(last, 0));
    AtConcat(src, 0, WireAll(ss), WireRun(last, 0));
    if ss == [] {
      SpellsNothing(out, |text|);
    } else {
      Replay(ss, src, out, |text|, cap);
    }
    LastRun(src, |WireAll(ss)|, last, out, cap);
    assert out + last == text;
  }

  lemma SpellsNothing(out: seq<byte>, n: nat)
    requires Spells([], out, n)
    ensures out == []
  {
  }

  // ----- in plain numbers -----

  /** The bytes of a sequence: a token of two halves, the number of literals and the
      match length less 4, each 15 if larger; what is over 15, literals, the offset
      low byte first, and what is over 19. */
  lemma WireIs(s: Sequence)
    requires 1 <= s.offset < 65536 && s.len >= 4
    ensures Valid(s)
    ensures Wire(s) ==
      [(if |s.lits| < 15 then |s.lits| else 15) * 16 + (if s.len < 19 then s.len - 4 else 15)]
      + (if |s.lits| < 15 then [] else Ext(|s.lits| - 15)) + s.lits
      + [s.offset % 256, s.offset / 256] + (if s.len < 19 then [] else Ext(s.len - 19))
  {
    hide Ext;
    var a := WireRun(s.lits, Nibble(s.len - 4));
    assert a + ([s.offset % 256, s.offset / 256] + MoreBytes(s.len - 4))
        == a + [s.offset % 256, s.offset / 256] + MoreBytes(s.len - 4);
  }

  /** The bytes of the literals that end a block. */
  lemma LastIs(lits: seq<byte>)
    ensures WireRun(lits, 0) ==
      [(if |lits| < 15 then |lits| else 15) * 16] + (if |lits| < 15 then [] else Ext(|lits| - 15)) + lits
  {
    hide Ext;
  }

  /** Every match refers to bytes that are there. */
  ghost predicate Grounded(ss: seq<Sequence>)
    decreases |ss|, 0
  {
    ss == [] ||
      var n := |ss| - 1;
      Grounded(ss[..n]) && 1 <= ss[n].offset < 65536 && ss[n].len >= 4 && ss[n].offset <= |TextOf(ss[..n])| + |ss[n].lits|
  }

  /** What the sequences spell: literals, and then bytes each of which is the one
      `offset` before it. */
  ghost function TextOf(ss: seq<Sequence>): seq<byte>
    requires Grounded(ss)
    decreases |ss|, 1
  {
    if ss == [] then []
    else
      var n := |ss| - 1;
      Copied(TextOf(ss[..n]) + ss[n].lits, ss[n].offset, ss[n].len)
  }

  /** Every match starts at least 12 bytes, and ends at least 5, before the end of a
      text of `n` bytes. */
  ghost predicate EndsEarly(ss: seq<Sequence>, n: nat)
    requires Grounded(ss)
    decreases |ss|
  {
    ss == [] ||
      var k := |ss| - 1;
      EndsEarly(ss[..k], n) && |TextOf(ss[..k])| + |ss[k].lits| + 12 <= n && |TextOf(ss)| + 5 <= n
  }

  lemma {:induction false} TextSpelt(ss: seq<Sequence>, n: nat)
    requires Grounded(ss) && EndsEarly(ss, n)
    ensures AllValid(ss) && Spells(ss, TextOf(ss), n)
    decreases |ss|
  {
    hide Copied, Spells;
    if ss == [] {
      SpellsStart(n);
    } else {
      var k := |ss| - 1;
      TextSpelt(ss[..k], n);
      AppendSpells(ss[..k], ss[k], TextOf(ss[..k]), TextOf(ss), n);
      assert ss[..k] + [ss[k]] == ss;
    }
  }

  lemma SpellsStart(n: nat)
    ensures Spells([], [], n)
  {
  }

  /** A block that keeps the end-of-block conditions decodes to its text, in a buffer
      of exactly that size whatever follows the block, and without anything after it
      in any large enough. */
  lemma BlockDecodes(ss: seq<Sequence>, last: seq<byte>, tail: seq<byte>, cap: nat)
    requires Grounded(ss) && (ss != [] ==> |last| >= 5) && EndsEarly(ss, |TextOf(ss)| + |last|)
    requires |TextOf(ss)| + |last| <= cap && (cap == |TextOf(ss)| + |last| || tail == []) && cap > 0
    ensures AllValid(ss)
    ensures Decode(WireAll(ss) + WireRun(last, 0) + tail, cap) == Outcome(TextOf(ss) + last, Done)
  {
    hide TextOf, DecodeFrom, WireAll, WireRun, Spells;
    var text := TextOf(ss) + last;
    TextSpelt(ss, |text|);
    assert text[..|text| - |last|] == TextOf(ss) && text[|text| - |last|..] == last;
    DecodesTo(text, WireAll(ss) + WireRun(last, 0), ss, last, tail, cap);
  }

  /** Eighteen times the same byte: one literal, a repeat of twelve at distance 1, and
      five literals. */
  lemma Eighteen(b: byte)
    ensures Decode([0x18, b, 1, 0, 0x50, b, b, b, b, b], 18) == Outcome(seq(18, _ => b), Done)
  {
    hide Decode;
    var s := Sequence([b], 1, 12);
    var last := [b, b, b, b, b];
    assert [s][..0] == [];
    OneSequence(s);
    TwelveMore(b);
    WireIs(s);
    LastIs(last);
    assert WireAll([s]) == [] + Wire(s);
    assert WireAll([s]) + WireRun(last, 0) + [] == [0x18, b, 1, 0, 0x50, b, b, b, b, b];
    BlockDecodes([s], last, [], 18);
    assert TextOf([s]) + last == seq(18, _ => b);
  }

  lemma OneSequence(s: Sequence)
    requires 1 <= s.offset <= |s.lits| && s.len >= 4 && s.offset < 65536
    ensures Grounded([s]) && TextOf([s]) == Copied(s.lits, s.offset, s.len)
    ensures |s.lits| + 12 <= |s.lits| + s.len + 5 ==> EndsEarly([s], |s.lits| + s.len + 5)
  {
    assert [s][..0] == [] && [] + s.lits == s.lits;
  }

  lemma TwelveMore(b: byte)
    ensures Copied([b], 1, 12) == seq(13, _ => b)
  {
    CopiedUnique(seq(13, _ => b), 1, 1, 13);
    assert seq(13, _ => b)[..13] == seq(13, _ => b) && seq(13, _ => b)[..1] == [b];
  }

  /** What stops the decoder, and where: bytes beyond the output or the input, an offset
      to before the beginning, a repeat into the last five bytes of the output. */
  lemma Refusals(b: byte)
    ensures Decode([0], 0) == Outcome([], Done) && Decode([1], 0) == Outcome([], Error(0))
    ensures Decode([0x30, b, b, b], 2) == Outcome([], Error(1)) && Decode([0x30, b, b, b], 3) == Outcome([b, b, b], Done)
    ensures Decode([0x50, b], 100) == Outcome([], Error(1)) && Decode([0xf0], 100) == Outcome([], Overrun)
    ensures Decode([0x10, b, 2, 0, 0, 0, 0, 0, 0, 0], 100) == Outcome([b], Error(4))
    ensures Decode([0x18, b, 1, 0, 0x50, b, b, b, b, b], 17) == Outcome([b], Error(4))
  {
    assert [] + [0x30, b, b, b][1..4] == [b, b, b];
    var far, near := [0x10, b, 2, 0, 0, 0, 0, 0, 0, 0], [0x18, b, 1, 0, 0x50, b, b, b, b, b];
    assert [] + far[1..2] == [b] && [] + near[1..2] == [b];
    assert AfterRun(far, 2, 0x10, [b], 100) == Outcome([b], Error(4));
    assert AfterRun(near, 2, 0x18, [b], 17) == Outcome([b], Error(4));
  }
}
