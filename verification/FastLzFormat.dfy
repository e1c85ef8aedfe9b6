/** The FastLZ stream format of src/fst/fastlz.c, levels 1 and 2: its tokens,
    their bytes, and what a decoder makes of arbitrary bytes. */
module FastLzFormat {
  import opened Bytes
  import opened Lz

  const MAX_COPY: nat := 32
  const MAX_LEN: nat := 264
  const MAX_DISTANCE_2: nat := 8191
  const MAX_FARDISTANCE: nat := 65535 + MAX_DISTANCE_2 - 1

  datatype Level = One | Two

  /** Literal bytes, or a repeat of `len` bytes found `dist` back. */
  datatype Token = Run(bytes: seq<byte>) | Match(dist: nat, len: nat)

  function Size(t: Token): nat {
    if t.Run? then |t.bytes| else t.len
  }

  predicate IsFar(level: Level, dist: nat) {
    level == Two && dist > MAX_DISTANCE_2
  }

  predicate Valid(level: Level, t: Token) {
    match t
    case Run(bytes) => 1 <= |bytes| <= MAX_COPY
    case Match(dist, len) =>
      && 1 <= dist && 3 <= len < TWO_32 / 2
      && (level == One ==> dist < 8192 && len <= MAX_LEN)
      && (level == Two ==> dist < MAX_FARDISTANCE)
      && (IsFar(level, dist) ==> len >= 5)
  }

  // ----- what a decoder makes of bytes -----

  datatype Length = Length(len: nat, next: nat) | Cut
  datatype Read = Got(tok: Token, next: nat) | Refused | PastEnd
  datatype Status = Done | Rejected | Overrun
  datatype Outcome = Outcome(out: seq<byte>, status: Status)

  /** The control byte at `ip`; the first one also carries the level. */
  function Ctrl(src: seq<byte>, ip: nat): nat
    requires ip < |src|
  {
    if ip == 0 then src[0] % 32 else src[ip]
  }

  /** The length bytes: one at level 1, and 255s up to a smaller one at level 2. */
  function ReadLength(level: Level, src: seq<byte>, ip: nat, len: nat): (r: Length)
    requires ip <= |src|
    ensures r.Length? ==> ip < r.next <= |src|
    decreases |src| - ip
  {
    if ip == |src| then Cut
    else
      var total := (len + src[ip]) % TWO_32;
      if level == Two && src[ip] == 255 then ReadLength(level, src, ip + 1, total)
      else Length(total, ip + 1)
  }

  function ReadDistance(level: Level, src: seq<byte>, ip: nat, len: nat, ofs: nat): (r: Read)
    requires ip <= |src|
    ensures r.Got? ==> ip < r.next <= |src| && r.tok.Match? && r.tok.dist >= 1 && r.tok.len >= 3
  {
    if ip == |src| then PastEnd
    else if level == Two && src[ip] == 255 && ofs == 31 * 256 then
      if ip + 2 < |src| then Got(Match(src[ip + 1] * 256 + src[ip + 2] + MAX_DISTANCE_2 + 1, len + 3), ip + 3)
      else PastEnd
    else Got(Match(ofs + src[ip] + 1, len + 3), ip + 1)
  }

  function ReadToken(level: Level, src: seq<byte>, ip: nat): (r: Read)
    requires ip < |src|
    ensures r.Got? ==> ip < r.next <= |src| && Size(r.tok) >= 1
    ensures r.Got? && r.tok.Match? ==> r.tok.dist >= 1 && r.tok.len >= 3
  {
    var ctrl := Ctrl(src, ip);
    if ctrl < 32 then
      if ip + 2 + ctrl <= |src| then Got(Run(src[ip + 1..ip + 2 + ctrl]), ip + 2 + ctrl) else Refused
    else ReadMatch(level, src, ip + 1, ctrl)
  }

  function ReadMatch(level: Level, src: seq<byte>, ip: nat, ctrl: nat): (r: Read)
    requires ip <= |src| && ctrl >= 32
    ensures r.Got? ==> ip < r.next <= |src| && r.tok.Match? && r.tok.dist >= 1 && r.tok.len >= 3
  {
    var l := if ctrl / 32 == 7 then ReadLength(level, src, ip, 6) else Length(ctrl / 32 - 1, ip);
    if l.Cut? then PastEnd else ReadDistance(level, src, l.next, l.len, ctrl % 32 * 256)
  }

  predicate Fits(t: Token, out: seq<byte>, limit: nat) {
    |out| + Size(t) <= limit && (t.Match? ==> 1 <= t.dist <= |out|)
  }

  function Apply(t: Token, out: seq<byte>): seq<byte>
    requires t.Match? ==> 1 <= t.dist <= |out|
  {
    match t
    case Run(bytes) => out + bytes
    case Match(dist, len) => Copied(out, dist, len)
  }

  /** The output once the tokens from `ip` on are applied to `out`, in a buffer
      of `limit` bytes: all of them, or those before the first refused one. */
  function DecodeFrom(level: Level, src: seq<byte>, ip: nat, out: seq<byte>, limit: nat): Outcome
    requires ip <= |src|
    decreases |src| - ip
  {
    if ip == |src| then Outcome(out, Done)
    else
      match ReadToken(level, src, ip)
      case Refused => Outcome(out, Rejected)
      case PastEnd => Outcome(out, Overrun)
      case Got(t, next) =>
        if Fits(t, out, limit) then DecodeFrom(level, src, next, Apply(t, out), limit)
        else Outcome(out, Rejected)
  }

  /** fastlz_decompress: the top three bits of the first byte name the level. */
  function Decode(src: seq<byte>, limit: nat): Outcome
    requires |src| >= 1
  {
    if src[0] / 32 == 0 then DecodeFrom(One, src, 0, [], limit)
    else if src[0] / 32 == 1 then DecodeFrom(Two, src, 0, [], limit)
    else Outcome([], Rejected)
  }

  // ----- the bytes of a token -----

  /** Length and distance are biased: 1 stands for a match of three bytes, and
      0 for the byte just before. */
  function MatchHead(level: Level, len: nat, top: nat): (s: seq<byte>)
    requires 3 <= len && top < 32 && (level == One ==> len <= MAX_LEN)
  {
    var n := len - 2;
    if n < 7 then [n * 32 + top]
    else [7 * 32 + top] + if level == One then [n - 7] else Ext(n - 7)
  }

  function Wire(level: Level, t: Token): (s: seq<byte>)
    requires Valid(level, t)
    ensures |s| >= 2
  {
    match t
    case Run(bytes) => [|bytes| - 1] + bytes
    case Match(dist, len) =>
      if IsFar(level, dist) then
        var d := dist - 1 - MAX_DISTANCE_2;
        MatchHead(level, len, 31) + [255, d / 256, d % 256]
      else
        MatchHead(level, len, (dist - 1) / 256) + [(dist - 1) % 256]
  }

  ghost predicate AllValid(level: Level, ts: seq<Token>) {
    forall i :: 0 <= i < |ts| ==> Valid(level, ts[i])
  }

  ghost function WireAll(level: Level, ts: seq<Token>): seq<byte>
    requires AllValid(level, ts)
  {
    if ts == [] then [] else WireAll(level, ts[..|ts| - 1]) + Wire(level, ts[|ts| - 1])
  }

  /** Applying the tokens in order to nothing gives exactly `out`. */
  ghost predicate Spells(ts: seq<Token>, out: seq<byte>)
    decreases |ts|
  {
    if ts == [] then out == []
    else
      var t := ts[|ts| - 1];
      && Size(t) <= |out|
      && var before := out[..|out| - Size(t)];
      && Spells(ts[..|ts| - 1], before)
      && (t.Match? ==> 1 <= t.dist <= |before|)
      && out == Apply(t, before)
  }

  lemma ApplySize(t: Token, out: seq<byte>)
    requires t.Match? ==> 1 <= t.dist <= |out|
    ensures |Apply(t, out)| == |out| + Size(t)
  {
  }

  lemma Append(level: Level, ts: seq<Token>, t: Token, before: seq<byte>, out: seq<byte>)
    requires AllValid(level, ts) && Valid(level, t) && Spells(ts, before)
    requires t.Match? ==> 1 <= t.dist <= |before|
    requires out == Apply(t, before)
    requires before <= out
    ensures AllValid(level, ts + [t]) && Spells(ts + [t], out)
    ensures WireAll(level, ts + [t]) == WireAll(level, ts) + Wire(level, t)
  {
    hide Wire, Apply;
    ApplySize(t, before);
    assert (ts + [t])[..|ts|] == ts;
    assert out[..|out| - Size(t)] == before;
  }

  /** A match pays for itself and for the literal header that follows it. */
  lemma WireShort(level: Level, t: Token)
    requires Valid(level, t) && t.Match?
    ensures |Wire(level, t)| + 1 <= t.len
  {
  }

  // ----- reading tokens back -----

  lemma {:induction false} ReadExt(src: seq<byte>, ip: nat, n: nat, len: nat)
    requires At(src, ip, Ext(n)) && len + n < TWO_32
    ensures ReadLength(Two, src, ip, len) == Length(len + n, ip + |Ext(n)|)
    decreases n
  {
    assert src[ip + 0] == Ext(n)[0];
    if n >= 255 {
      hide At;
      AtConcat(src, ip, [255], Ext(n - 255));
      ReadExt(src, ip + 1, n - 255, len + 255);
    }
  }

  lemma ReadHead(level: Level, src: seq<byte>, ip: nat, len: nat, top: nat)
    requires 3 <= len < TWO_32 / 2 && top < 32 && (level == One ==> len <= MAX_LEN)
    requires ip > 0 && At(src, ip, MatchHead(level, len, top)) && ip + |MatchHead(level, len, top)| < |src|
    ensures ReadToken(level, src, ip)
         == ReadDistance(level, src, ip + |MatchHead(level, len, top)|, len - 3, top * 256)
  {
    hide ReadToken, ReadDistance, ReadLength, Ext;
    var n := len - 2;
    assert src[ip] == MatchHead(level, len, top)[0];
    if n < 7 {
      ReadCtrl(level, src, ip, n, top);
    } else {
      ReadCtrl(level, src, ip, 7, top);
      AtConcat(src, ip, [7 * 32 + top], if level == One then [n - 7] else Ext(n - 7));
      if level == One {
        assert src[ip + 1] == [n - 7][0];
        ReadLengthOne(src, ip + 1, 6);
      } else {
        ReadExt(src, ip + 1, n - 7, 6);
      }
    }
  }

  lemma ReadLengthOne(src: seq<byte>, ip: nat, len: nat)
    requires ip < |src| && len + src[ip] < TWO_32
    ensures ReadLength(One, src, ip, len) == Length(len + src[ip], ip + 1)
  {
  }

  lemma ReadCtrl(level: Level, src: seq<byte>, ip: nat, n: nat, top: nat)
    requires 0 < ip < |src| && 1 <= n <= 7 && top < 32 && src[ip] == n * 32 + top
    ensures n < 7 ==> ReadToken(level, src, ip) == ReadDistance(level, src, ip + 1, n - 1, top * 256)
    ensures n == 7 ==> var l := ReadLength(level, src, ip + 1, 6); l.Length? ==>
      ReadToken(level, src, ip) == ReadDistance(level, src, l.next, l.len, top * 256)
  {
    assert src[ip] / 32 == n && src[ip] % 32 == top;
  }

  lemma ReadWireMatch(level: Level, src: seq<byte>, ip: nat, t: Token)
    requires Valid(level, t) && t.Match? && ip > 0 && At(src, ip, Wire(level, t))
    ensures ReadToken(level, src, ip) == Got(t, ip + |Wire(level, t)|)
  {
    hide ReadToken, MatchHead;
    if IsFar(level, t.dist) {
      var d := t.dist - 1 - MAX_DISTANCE_2;
      var head := MatchHead(level, t.len, 31);
      ReadDistanceAt(src, ip, head, [255, d / 256, d % 256]);
      ReadHead(level, src, ip, t.len, 31);
    } else {
      var d := t.dist - 1;
      var head := MatchHead(level, t.len, d / 256);
      ReadDistanceAt(src, ip, head, [d % 256]);
      ReadHead(level, src, ip, t.len, d / 256);
    }
  }

  lemma ReadDistanceAt(src: seq<byte>, ip: nat, head: seq<byte>, tail: seq<byte>)
    requires At(src, ip, head + tail) && tail != []
    ensures At(src, ip, head) && ip + |head| + |tail| <= |src|
    ensures src[ip + |head|] == tail[0]
    ensures |tail| == 3 ==> src[ip + |head| + 1] == tail[1] && src[ip + |head| + 2] == tail[2]
  {
    AtConcat(src, ip, head, tail);
  }

  /** `stream` starts with the wire form `w`, but for the level bits of its
      very first byte. */
  ghost predicate StartsWith(stream: seq<byte>, w: seq<byte>) {
    && |w| <= |stream|
    && (|w| > 0 ==> Ctrl(stream, 0) == w[0])
    && forall k :: 1 <= k < |w| ==> stream[k] == w[k]
  }

  lemma ReadWire(level: Level, src: seq<byte>, before: seq<byte>, t: Token)
    requires Valid(level, t) && (before == [] ==> t.Run?)
    requires StartsWith(src, before + Wire(level, t))
    ensures |before| < |src|
    ensures ReadToken(level, src, |before|) == Got(t, |before| + |Wire(level, t)|)
  {
    var ip, w := |before|, Wire(level, t);
    StartsWithRest(src, before, w);
    if t.Run? {
      assert src[ip + 1..ip + 1 + |t.bytes|] == t.bytes;
    } else {
      ReadWireMatch(level, src, ip, t);
    }
  }

  lemma StartsWithRest(src: seq<byte>, before: seq<byte>, w: seq<byte>)
    requires StartsWith(src, before + w) && w != []
    ensures StartsWith(src, before)
    ensures |before| + |w| <= |src| && Ctrl(src, |before|) == w[0]
    ensures forall k {:trigger w[k]} :: 1 <= k < |w| ==> src[|before| + k] == w[k]
  {
    var whole := before + w;
    assert forall k :: 0 <= k < |before| ==> whole[k] == before[k];
    assert whole[|before|] == w[0];
    forall k {:trigger w[k]} | 1 <= k < |w| ensures src[|before| + k] == w[k] {
      assert whole[|before| + k] == w[k];
    }
  }

  lemma Step(level: Level, src: seq<byte>, ip: nat, out: seq<byte>, limit: nat, t: Token, next: nat)
    requires ip < |src| && ReadToken(level, src, ip) == Got(t, next) && Fits(t, out, limit)
    ensures DecodeFrom(level, src, ip, out, limit) == DecodeFrom(level, src, next, Apply(t, out), limit)
  {
  }

  /** Decoding a stream that begins with a spelling of `out` reaches `out`,
      whatever follows it, as long as `out` fits in the buffer. */
  lemma {:induction false} Replay(level: Level, ts: seq<Token>, src: seq<byte>, out: seq<byte>, limit: nat)
    requires AllValid(level, ts) && Spells(ts, out) && |out| <= limit
    requires ts != [] ==> ts[0].Run?
    requires StartsWith(src, WireAll(level, ts))
    ensures DecodeFrom(level, src, 0, [], limit) == DecodeFrom(level, src, |WireAll(level, ts)|, out, limit)
    decreases |ts|
  {
    hide DecodeFrom, ReadToken, Wire;
    if ts != [] {
      var t, front := ts[|ts| - 1], ts[..|ts| - 1];
      var before := out[..|out| - Size(t)];
      var w := WireAll(level, front);
      StartsWithRest(src, w, Wire(level, t));
      Replay(level, front, src, before, limit);
      if front != [] { NonEmptyWire(level, front); }
      ReadWire(level, src, w, t);
      Step(level, src, |w|, before, limit, t, |w| + |Wire(level, t)|);
    }
  }

  lemma NonEmptyWire(level: Level, ts: seq<Token>)
    requires AllValid(level, ts) && ts != []
    ensures WireAll(level, ts) != []
  {
  }

  /** Bytes that follow a finished output cannot change it. */
  lemma FullBuffer(level: Level, src: seq<byte>, ip: nat, out: seq<byte>)
    requires ip <= |src|
    ensures DecodeFrom(level, src, ip, out, |out|).out == out
  {
  }

  // ----- in plain numbers -----

  /** Which tokens there are: up to 32 literals; at level 1 a repeat of 3 to 264 bytes
      from up to 8191 back; at level 2 one of any length from 3 on from up to 73724
      back, from more than 8191 back only of 5 and more. */
  ghost predicate IsToken(level: Level, t: Token) {
    match t
    case Run(bytes) => 1 <= |bytes| <= 32
    case Match(dist, len) =>
      && 1 <= dist && 3 <= len < 0x8000_0000
      && if level == One then dist <= 8191 && len <= 264 else dist <= 73724 && (dist > 8191 ==> len >= 5)
  }

  lemma TokensAre(level: Level, t: Token)
    ensures Valid(level, t) <==> IsToken(level, t)
  {
  }

  /** The bytes of a token: the number of literals less one and the literals; or, in
      the top three bits, the length less two, 7 if it is over 8, and below them the
      upper bits of the distance less one; then what the length is over 9, in one byte
      at level 1, and the low byte of the distance less one. A distance over 8191 is
      marked by 31 and a byte of 255, and what it is over 8192 takes two bytes. */
  lemma WireIs(level: Level, t: Token)
    requires IsToken(level, t)
    ensures Valid(level, t)
    ensures t.Run? ==> Wire(level, t) == [|t.bytes| - 1] + t.bytes
    ensures t.Match? && t.dist <= 8191 ==>
      var d := t.dist - 1;
      Wire(level, t) ==
        if t.len <= 8 then [(t.len - 2) * 32 + d / 256, d % 256]
        else [224 + d / 256] + (if level == One then [t.len - 9] else Ext(t.len - 9)) + [d % 256]
    ensures t.Match? && t.dist > 8191 ==>
      var d := t.dist - 8192;
      Wire(level, t) ==
        if t.len <= 8 then [(t.len - 2) * 32 + 31, 255, d / 256, d % 256]
        else [224 + 31] + Ext(t.len - 9) + [255, d / 256, d % 256]
  {
    hide Ext;
  }

  ghost predicate Grounded(ts: seq<Token>)
    decreases |ts|, 0
  {
    ts == [] ||
      var n := |ts| - 1;
      Grounded(ts[..n]) && (ts[n].Match? ==> 1 <= ts[n].dist <= |TextOf(ts[..n])|)
  }

  /** What the tokens spell. */
  ghost function TextOf(ts: seq<Token>): seq<byte>
    requires Grounded(ts)
    decreases |ts|, 1
  {
    if ts == [] then []
    else
      var n := |ts| - 1;
      match ts[n]
      case Run(bytes) => TextOf(ts[..n]) + bytes
      case Match(dist, len) => Copied(TextOf(ts[..n]), dist, len)
  }

  lemma {:induction false} TextSpelt(level: Level, ts: seq<Token>)
    requires Grounded(ts) && forall i :: 0 <= i < |ts| ==> IsToken(level, ts[i])
    ensures AllValid(level, ts) && Spells(ts, TextOf(ts))
    decreases |ts|
  {
    hide Spells, Wire, WireAll;
    if ts == [] {
      SpellsStart();
    } else {
      var n := |ts| - 1;
      TextSpelt(level, ts[..n]);
      WireIs(level, ts[n]);
      var before := TextOf(ts[..n]);
      if ts[n].Match? { CopiedKeeps(before, ts[n].dist, ts[n].len); }
      assert ts[..n] + [ts[n]] == ts;
      Append(level, ts[..n], ts[n], before, TextOf(ts));
    }
  }

  lemma SpellsStart()
    ensures Spells([], [])
  {
  }

  /** Tokens that begin with literals, written one after the other and the level less
      one marked in the top bits of the first byte, decode to what they spell. */
  lemma BlockDecodes(level: Level, ts: seq<Token>, stream: seq<byte>, limit: nat)
    requires ts != [] && ts[0].Run? && Grounded(ts) && forall i :: 0 <= i < |ts| ==> IsToken(level, ts[i])
    requires AllValid(level, ts) && |TextOf(ts)| <= limit
    requires var w := WireAll(level, ts);
      |stream| == |w| > 0 && stream[1..] == w[1..] && stream[0] as int == w[0] as int + (if level == One then 0 else 32)
    ensures Decode(stream, limit) == Outcome(TextOf(ts), Done)
  {
    hide TextOf, DecodeFrom, WireAll, Spells;
    TextSpelt(level, ts);
    FirstIsSmall(level, ts);
    var w := WireAll(level, ts);
    forall k | 1 <= k < |w| ensures stream[k] == w[k] {
      assert stream[1..][k - 1] == w[1..][k - 1];
    }
    Replay(level, ts, stream, TextOf(ts), limit);
    DoneAtEnd(level, stream, TextOf(ts), limit);
  }

  lemma DoneAtEnd(level: Level, src: seq<byte>, out: seq<byte>, limit: nat)
    ensures DecodeFrom(level, src, |src|, out, limit) == Outcome(out, Done)
  {
  }

  lemma {:induction false} FirstIsSmall(level: Level, ts: seq<Token>)
    requires AllValid(level, ts) && ts != [] && ts[0].Run?
    ensures WireAll(level, ts) != [] && WireAll(level, ts)[0] < 32
    decreases |ts|
  {
    if |ts| > 1 { FirstIsSmall(level, ts[..|ts| - 1]); }
  }

  /** What the decoder takes and refuses: bytes beyond the input or the output, a repeat
      from before the beginning, a level there is not. */
  lemma Refusals(b: byte)
    ensures Decode([2, b, b], 10) == Outcome([], Rejected) && Decode([64, b], 10) == Outcome([], Rejected)
    ensures Decode([2, b, b, b], 2) == Outcome([], Rejected) && Decode([2, b, b, b], 3) == Outcome([b, b, b], Done)
    ensures Decode([0, b, 32, 1], 10) == Outcome([b], Rejected)
    ensures Decode([0, b, 32, 0], 3) == Outcome([b], Rejected)
  {
    var run, far, near := [2, b, b, b], [0, b, 32, 1], [0, b, 32, 0];
    assert run[1..4] == [b, b, b] && [] + [b, b, b] == [b, b, b];
    assert far[1..2] == [b] && near[1..2] == [b] && [] + [b] == [b];
    assert DecodeFrom(One, run, 4, [b, b, b], 3) == Outcome([b, b, b], Done);
    assert DecodeFrom(One, far, 2, [b], 10) == Outcome([b], Rejected);
    assert DecodeFrom(One, near, 2, [b], 3) == Outcome([b], Rejected);
  }
}
