/** The compressor of src/fst/lz4.c (LZ4_compress_generic without dictionary
    and with an unlimited output, as LZ4_compress calls it). The hash of a
    position is an arbitrary slot. */
module Lz4Compress {
  import opened Bytes
  import opened Lz
  import opened Lz4Format

  const LZ4_64Klimit: nat := 65536 + (MFLIMIT - 1)
  const MAX_DISTANCE: nat := 65535

  /** The first `op` bytes of `buf` are the sequences `ss`, which spell the
      first `anchor` bytes of the input. */
  ghost predicate Written(input: seq<byte>, buf: seq<byte>, op: nat, anchor: nat, ss: seq<Sequence>) {
    && anchor <= |input| && op <= |buf|
    && AllValid(ss) && buf[..op] == WireAll(ss)
    && Spells(ss, input[..anchor], |input|)
    && (ss != [] ==> anchor + LASTLITERALS <= |input|)
  }

  /** Output produced for `anchor` input bytes: one more for every 255. */
  predicate Compact(op: nat, anchor: nat) {
    255 * op <= 256 * anchor
  }

  /** LZ4_COMPRESSBOUND. */
  function CompressBound(n: nat): nat {
    n + n / 255 + 16
  }

  /** Every entry of the hash table is an earlier position. */
  ghost predicate Earlier(table: seq<nat>, ip: nat) {
    |table| == HASH_SIZE && forall h :: 0 <= h < HASH_SIZE ==> table[h] < ip
  }

  // ----- sizes -----

  lemma MoreBytesSize(n: nat)
    ensures 255 * |MoreBytes(n)| <= if n < 15 then 0 else n + 240
  {
  }

  lemma WireSize(s: Sequence)
    requires Valid(s)
    ensures 255 * |Wire(s)| <= 256 * (|s.lits| + s.len)
  {
    hide MoreBytes;
    MoreBytesSize(|s.lits|);
    MoreBytesSize(s.len - MINMATCH);
  }

  lemma CompactStep(op: nat, anchor: nat, s: Sequence)
    requires Valid(s) && Compact(op, anchor)
    ensures Compact(op + |Wire(s)|, anchor + |s.lits| + s.len)
  {
    hide Wire;
    WireSize(s);
  }

  /** Room for a literal run and the overshoot of its copy. */
  lemma RoomForRun(op: nat, anchor: nat, len: nat, n: nat)
    requires Compact(op, anchor) && anchor + len + MFLIMIT <= n
    ensures op + 1 + |MoreBytes(len)| + len + 8 <= CompressBound(n)
  {
    MoreBytesSize(len);
  }

  lemma RoomForLast(op: nat, anchor: nat, n: nat)
    requires Compact(op, anchor) && anchor <= n
    ensures op + 1 + |MoreBytes(n - anchor)| + (n - anchor) <= CompressBound(n)
  {
    MoreBytesSize(n - anchor);
  }

  // ----- searching -----

  predicate Same4(input: seq<byte>, a: nat, b: nat)
    requires a + 4 <= |input| && b + 4 <= |input|
  {
    input[a] == input[b] && input[a + 1] == input[b + 1] && input[a + 2] == input[b + 2] && input[a + 3] == input[b + 3]
  }

  lemma Same4Periodic(input: seq<byte>, m: nat, ip: nat)
    requires m < ip && ip + 4 <= |input| && Same4(input, m, ip)
    ensures Periodic(input, ip - m, ip, ip + 4)
  {
  }

  /** The "find a match" loop: probe positions ever further apart. */
  method Search(input: seq<byte>, table: array<nat>, hash: nat -> Slot, start: nat, acceleration: nat)
    returns (found: bool, ip: nat, m: nat)
    requires 1 <= start && 1 <= acceleration && Earlier(table[..], start)
    modifies table
    ensures found ==> start <= ip && ip + MFLIMIT < |input| && Earlier(table[..], ip + 1)
    ensures found ==> m < ip && ip - m <= MAX_DISTANCE && Periodic(input, ip - m, ip, ip + MINMATCH)
  {
    var forwardIp, step, searchMatchNb := start, 1, 64 * acceleration;
    var forwardH := hash(start);
    found, ip, m := false, start, 0;
    while !found
      invariant start <= forwardIp && step >= 1 && searchMatchNb >= 64
      invariant !found ==> Earlier(table[..], forwardIp)
      invariant found ==> start <= ip && ip + MFLIMIT < |input| && Earlier(table[..], ip + 1)
      invariant found ==> m < ip && ip - m <= MAX_DISTANCE && Periodic(input, ip - m, ip, ip + MINMATCH)
      decreases !found, |input| - forwardIp
    {
      var h := forwardH;
      ip := forwardIp;
      forwardIp := forwardIp + step;
      step := searchMatchNb / 64;
      searchMatchNb := searchMatchNb + 1;
      if forwardIp + MFLIMIT > |input| { return; }
      m := table[h];
      forwardH := hash(forwardIp);
      table[h] := ip;
      if |input| < LZ4_64Klimit || m + MAX_DISTANCE >= ip {
        if Same4(input, m, ip) {
          Same4Periodic(input, m, ip);
          found := true;
        }
      }
    }
  }

  /** Catch up: a match may begin earlier than where it was found. */
  method CatchUp(input: seq<byte>, anchor: nat, ip0: nat, m0: nat) returns (ip: nat, m: nat)
    requires anchor <= ip0 && m0 < ip0 && ip0 + MINMATCH <= |input|
    requires Periodic(input, ip0 - m0, ip0, ip0 + MINMATCH)
    ensures anchor <= ip <= ip0 && m < ip && ip - m == ip0 - m0
    ensures Periodic(input, ip - m, ip, ip0 + MINMATCH)
  {
    ip, m := ip0, m0;
    while ip > anchor && m > 0 && input[ip - 1] == input[m - 1]
      invariant anchor <= ip <= ip0 && m < ip && ip - m == ip0 - m0
      invariant Periodic(input, ip - m, ip, ip0 + MINMATCH)
    {
      ip, m := ip - 1, m - 1;
    }
  }

  /** How many of eight bytes agree before the first that does not
      (LZ4_NbCommonBytes of an exclusive or). */
  method CommonBytes(input: seq<byte>, dist: nat, pIn: nat) returns (k: nat)
    requires 1 <= dist <= pIn && pIn + 8 <= |input|
    ensures k <= 8 && Periodic(input, dist, pIn, pIn + k)
    ensures k < 8 ==> input[pIn + k] != input[pIn + k - dist]
  {
    k := 0;
    while k < 8 && input[pIn + k] == input[pIn + k - dist]
      invariant k <= 8 && Periodic(input, dist, pIn, pIn + k)
    {
      k := k + 1;
    }
  }

  /** The common stretch ends within the next `w` bytes. */
  ghost predicate Stops(input: seq<byte>, dist: nat, p: nat, w: nat, limit: nat)
    requires 1 <= dist <= p && limit <= |input|
    decreases w
  {
    w > 0 && (p >= limit || input[p] != input[p - dist] || Stops(input, dist, p + 1, w - 1, limit))
  }

  lemma {:induction false} StopsAtLimit(input: seq<byte>, dist: nat, p: nat, w: nat, limit: nat)
    requires 1 <= dist <= p <= limit <= |input| && limit < p + w
    ensures Stops(input, dist, p, w, limit)
    decreases w
  {
    if p < limit {
      StopsAtLimit(input, dist, p + 1, w - 1, limit);
    }
  }

  /** LZ4_count: the longest common stretch before the limit, eight bytes at a
      time, then four, two and one. */
  method Count(input: seq<byte>, pIn0: nat, dist: nat, limit: nat) returns (k: nat)
    requires 1 <= dist <= pIn0 <= limit <= |input|
    ensures pIn0 + k <= limit && Periodic(input, dist, pIn0, pIn0 + k)
    ensures pIn0 + k < limit ==> input[pIn0 + k] != input[pIn0 + k - dist]
  {
    hide Stops;
    var pIn := pIn0;
    while pIn + 7 < limit
      invariant pIn0 <= pIn <= limit && Periodic(input, dist, pIn0, pIn)
    {
      var same := CommonBytes(input, dist, pIn);
      if same < 8 { return pIn + same - pIn0; }
      pIn := pIn + 8;
    }
    StopsAtLimit(input, dist, pIn, 8, limit);
    pIn := CountTail(input, dist, pIn, limit);
    k := pIn - pIn0;
  }

  method CountTail(input: seq<byte>, dist: nat, start: nat, limit: nat) returns (pIn: nat)
    requires 1 <= dist <= start <= limit <= |input| && Stops(input, dist, start, 8, limit)
    ensures start <= pIn <= limit && Periodic(input, dist, start, pIn)
    ensures pIn < limit ==> input[pIn] != input[pIn - dist]
  {
    pIn := TryFour(input, dist, start, start, limit);
    pIn := TryTwo(input, dist, start, pIn, limit);
    pIn := TryOne(input, dist, start, pIn, limit);
    StopsHere(input, dist, pIn, limit);
  }

  method TryFour(input: seq<byte>, dist: nat, start: nat, p: nat, limit: nat) returns (q: nat)
    requires 1 <= dist <= start <= p <= limit <= |input|
    requires Stops(input, dist, p, 8, limit) && Periodic(input, dist, start, p)
    ensures p <= q <= limit && Stops(input, dist, q, 4, limit) && Periodic(input, dist, start, q)
  {
    hide Stops, Periodic, Agree;
    var same := p + 3 < limit && Same4(input, p - dist, p);
    FourAgree(input, dist, p, limit);
    StopsAfter(input, dist, start, p, 4, limit, same);
    q := if same then p + 4 else p;
  }

  method TryTwo(input: seq<byte>, dist: nat, start: nat, p: nat, limit: nat) returns (q: nat)
    requires 1 <= dist <= start <= p <= limit <= |input|
    requires Stops(input, dist, p, 4, limit) && Periodic(input, dist, start, p)
    ensures p <= q <= limit && Stops(input, dist, q, 2, limit) && Periodic(input, dist, start, q)
  {
    hide Stops, Periodic, Agree;
    var same := p + 1 < limit && input[p - dist] == input[p] && input[p + 1 - dist] == input[p + 1];
    TwoAgree(input, dist, p, limit);
    StopsAfter(input, dist, start, p, 2, limit, same);
    q := if same then p + 2 else p;
  }

  method TryOne(input: seq<byte>, dist: nat, start: nat, p: nat, limit: nat) returns (q: nat)
    requires 1 <= dist <= start <= p <= limit <= |input|
    requires Stops(input, dist, p, 2, limit) && Periodic(input, dist, start, p)
    ensures p <= q <= limit && Stops(input, dist, q, 1, limit) && Periodic(input, dist, start, q)
  {
    hide Stops, Periodic, Agree;
    var same := p < limit && input[p - dist] == input[p];
    OneAgrees(input, dist, p, limit);
    StopsAfter(input, dist, start, p, 1, limit, same);
    q := if same then p + 1 else p;
  }

  /** The next `n` bytes are before the limit and agree. */
  ghost predicate Agree(input: seq<byte>, dist: nat, p: nat, n: nat, limit: nat) {
    p + n <= limit && Periodic(input, dist, p, p + n)
  }

  lemma FourAgree(input: seq<byte>, dist: nat, p: nat, limit: nat)
    requires 1 <= dist <= p && limit <= |input|
    ensures Agree(input, dist, p, 4, limit) <==> p + 3 < limit && Same4(input, p - dist, p)
  {
    if p + 3 < limit && Periodic(input, dist, p, p + 4) {
      assert input[p] == input[p - dist] && input[p + 1] == input[p + 1 - dist];
      assert input[p + 2] == input[p + 2 - dist] && input[p + 3] == input[p + 3 - dist];
    }
  }

  lemma TwoAgree(input: seq<byte>, dist: nat, p: nat, limit: nat)
    requires 1 <= dist <= p && limit <= |input|
    ensures Agree(input, dist, p, 2, limit) <==>
      p + 1 < limit && input[p - dist] == input[p] && input[p + 1 - dist] == input[p + 1]
  {
    if p + 1 < limit && Periodic(input, dist, p, p + 2) {
      assert input[p] == input[p - dist] && input[p + 1] == input[p + 1 - dist];
    }
  }

  lemma OneAgrees(input: seq<byte>, dist: nat, p: nat, limit: nat)
    requires 1 <= dist <= p && limit <= |input|
    ensures Agree(input, dist, p, 1, limit) <==> p < limit && input[p - dist] == input[p]
  {
  }

  lemma StopsAfter(input: seq<byte>, dist: nat, start: nat, p: nat, n: nat, limit: nat, same: bool)
    requires 1 <= dist <= start <= p <= limit <= |input| && n > 0
    requires Stops(input, dist, p, 2 * n, limit) && Periodic(input, dist, start, p)
    requires same <==> Agree(input, dist, p, n, limit)
    ensures var q := if same then p + n else p;
      Stops(input, dist, q, n, limit) && Periodic(input, dist, start, q) && q <= limit
  {
    hide Stops;
    if same { StopsLater(input, dist, p, 2 * n, n, limit); } else { StopsSoon(input, dist, p, n, limit); }
  }

  lemma {:induction false} StopsLater(input: seq<byte>, dist: nat, p: nat, w: nat, n: nat, limit: nat)
    requires 1 <= dist <= p && n <= w && p + n <= limit <= |input|
    requires Stops(input, dist, p, w, limit) && Periodic(input, dist, p, p + n)
    ensures Stops(input, dist, p + n, w - n, limit)
    decreases n
  {
    if n > 0 { StopsLater(input, dist, p + 1, w - 1, n - 1, limit); }
  }

  /** Not all of the next `n` bytes are before the limit and agree. */
  lemma {:induction false} StopsSoon(input: seq<byte>, dist: nat, p: nat, n: nat, limit: nat)
    requires 1 <= dist <= p <= limit <= |input| && 0 < n
    requires p + n > limit || !Periodic(input, dist, p, p + n)
    ensures Stops(input, dist, p, n, limit)
    decreases n
  {
    if p < limit && input[p] == input[p - dist] {
      StopsSoon(input, dist, p + 1, n - 1, limit);
    }
  }

  lemma StopsHere(input: seq<byte>, dist: nat, p: nat, limit: nat)
    requires 1 <= dist <= p && limit <= |input| && Stops(input, dist, p, 1, limit)
    ensures p < limit ==> input[p] != input[p - dist]
  {
  }

  // ----- writing -----

  /** The token with the literal length, and the bytes that continue it. */
  method EmitRunLength(dst: array<byte>, op0: nat, len: nat) returns (op: nat)
    requires op0 + 1 + |MoreBytes(len)| <= dst.Length
    modifies dst
    ensures op == op0 + 1 + |MoreBytes(len)|
    ensures dst[..op] == old(dst[..op0]) + ([Nibble(len) * 16] + MoreBytes(len))
  {
    hide Ext;
    ghost var front := dst[..op0];
    if len >= RUN_MASK {
      op := EmitByte(dst, op0, RUN_MASK * 16);
      op := EmitExt(dst, op, len - RUN_MASK);
      assert front + [RUN_MASK * 16] + MoreBytes(len) == front + ([RUN_MASK * 16] + MoreBytes(len));
    } else {
      op := EmitByte(dst, op0, len * 16);
      assert [len * 16] + MoreBytes(len) == [len * 16];
    }
  }

  method EmitLiterals(input: seq<byte>, dst: array<byte>, op0: nat, anchor: nat, ip: nat) returns (op: nat)
    requires anchor <= ip && ip + 8 <= |input|
    requires op0 + |WireRun(input[anchor..ip], 0)| + 8 <= dst.Length
    modifies dst
    ensures op == op0 + |WireRun(input[anchor..ip], 0)|
    ensures dst[..op] == old(dst[..op0]) + WireRun(input[anchor..ip], 0)
  {
    hide MoreBytes;
    op := EmitRunLength(dst, op0, ip - anchor);
    CopyLiterals(input, anchor, dst, op, ip - anchor);
    op := op + (ip - anchor);
  }

  /** Offset and match length; the token written earlier gets its low half. */
  method EmitMatch(dst: array<byte>, token: nat, op0: nat, ghost s: Sequence, offset: nat, len: nat) returns (op: nat)
    requires Valid(s) && s.offset == offset && s.len == len
    requires token + |WireRun(s.lits, 0)| == op0 && op0 + |WireMatch(s)| <= dst.Length
    requires dst[token..op0] == WireRun(s.lits, 0)
    modifies dst
    ensures op == token + |Wire(s)|
    ensures dst[..op] == old(dst[..token]) + Wire(s)
  {
    hide MoreBytes;
    ghost var front := dst[..token];
    var matchLength := len - MINMATCH;
    assert dst[token] == dst[token..op0][0];
    dst[token] := dst[token] + Nibble(matchLength);
    assert dst[token..op0] == WireRun(s.lits, Nibble(matchLength));
    assert dst[..op0] == front + WireRun(s.lits, Nibble(matchLength));
    op := EmitByte(dst, op0, offset % 256);
    op := EmitByte(dst, op, offset / 256);
    op := EmitMatchLength(dst, op, matchLength);
  }

  /** Continuation bytes two at a time, then one, then the rest. */
  method EmitMatchLength(dst: array<byte>, op0: nat, n: nat) returns (op: nat)
    requires op0 + |MoreBytes(n)| <= dst.Length
    modifies dst
    ensures op == op0 + |MoreBytes(n)|
    ensures dst[..op] == old(dst[..op0]) + MoreBytes(n)
  {
    hide Ext;
    op := op0;
    if n >= ML_MASK {
      var matchLength := n - ML_MASK;
      while matchLength >= 510
        invariant 0 <= matchLength && op0 <= op && op + |Ext(matchLength)| == op0 + |Ext(n - ML_MASK)|
        invariant dst[..op] + Ext(matchLength) == old(dst[..op0]) + Ext(n - ML_MASK)
      {
        op := EmitByte(dst, op, 255);
        op := EmitByte(dst, op, 255);
        ExtTwice(matchLength);
        matchLength := matchLength - 510;
      }
      ExtEnds(matchLength);
      if matchLength >= 255 {
        op := EmitByte(dst, op, 255);
        matchLength := matchLength - 255;
      }
      op := EmitByte(dst, op, matchLength);
    }
  }

  lemma ExtEnds(n: nat)
    ensures n < 255 ==> Ext(n) == [n]
    ensures 255 <= n < 510 ==> Ext(n) == [255, n - 255]
  {
  }

  lemma ExtTwice(n: nat)
    requires n >= 510
    ensures Ext(n) == [255, 255] + Ext(n - 510)
  {
    assert Ext(n - 255) == [255] + Ext(n - 510);
  }

  // ----- the compressor -----

  lemma AddSequence(input: seq<byte>, buf: seq<byte>, op: nat, anchor: nat, ss: seq<Sequence>,
                    s: Sequence, after: seq<byte>, op': nat, end: nat)
    requires Written(input, buf, op, anchor, ss) && Valid(s)
    requires end == anchor + |s.lits| + s.len && end + LASTLITERALS <= |input|
    requires anchor + |s.lits| + MFLIMIT <= |input| && s.lits == input[anchor..anchor + |s.lits|]
    requires Periodic(input, s.offset, anchor + |s.lits|, end)
    requires op' <= |after| && after[..op'] == buf[..op] + Wire(s)
    ensures Written(input, after, op', end, ss + [s])
  {
    hide Wire, Spells, AllValid;
    var ip := anchor + |s.lits|;
    assert input[..ip] == input[..anchor] + s.lits;
    CopiedUnique(input, s.offset, ip, end);
    Append(ss, s, input[..anchor], input[..end], |input|);
  }

  /** From a found match to the end of it: `fresh` is whether it follows
      literals found by searching, or directly the match before it. */
  method EmitSequence(input: seq<byte>, dst: array<byte>, op0: nat, anchor: nat, ip: nat, m: nat, ghost ss: seq<Sequence>)
    returns (op: nat, end: nat, ghost ss': seq<Sequence>)
    requires Written(input, dst[..], op0, anchor, ss) && Compact(op0, anchor)
    requires dst.Length >= CompressBound(|input|)
    requires anchor <= ip && ip + MFLIMIT <= |input| && m < ip && ip - m <= MAX_DISTANCE
    requires Periodic(input, ip - m, ip, ip + MINMATCH)
    modifies dst
    ensures ip + MINMATCH <= end && end + LASTLITERALS <= |input|
    ensures end + LASTLITERALS < |input| ==> input[end] != input[end - (ip - m)]
    ensures Written(input, dst[..], op, end, ss') && Compact(op, end)
  {
    hide Written, Compact, Wire, WireRun, WireMatch, CompressBound, MoreBytes;
    ghost var before := dst[..];
    var matchLength := Count(input, ip + MINMATCH, ip - m, |input| - LASTLITERALS);
    end := ip + MINMATCH + matchLength;
    ghost var s := Sequence(input[anchor..ip], ip - m, end - ip);
    WrittenBounds(input, dst[..], op0, anchor, ss);
    RoomForSequence(op0, anchor, s, |input|);
    if ip == anchor {
      op := EmitByte(dst, op0, 0);
      EmptyRun(s.lits);
    } else {
      op := EmitLiterals(input, dst, op0, anchor, ip);
    }
    SplitRun(dst[..op], before[..op0], WireRun(s.lits, 0));
    assert dst[op0..op] == dst[..op][op0..];
    op := EmitMatch(dst, op0, op, s, ip - m, end - ip);
    AddSequence(input, before, op0, anchor, ss, s, dst[..], op, end);
    CompactStep(op0, anchor, s);
    ss' := ss + [s];
  }

  lemma SplitRun(whole: seq<byte>, front: seq<byte>, run: seq<byte>)
    requires whole == front + run
    ensures whole[|front|..] == run && whole[..|front|] == front
  {
  }

  lemma EmptyRun(lits: seq<byte>)
    requires lits == []
    ensures WireRun(lits, 0) == [0]
  {
  }

  lemma WrittenBounds(input: seq<byte>, buf: seq<byte>, op: nat, anchor: nat, ss: seq<Sequence>)
    requires Written(input, buf, op, anchor, ss)
    ensures op <= |buf| && anchor <= |input|
  {
  }

  lemma RoomForSequence(op: nat, anchor: nat, s: Sequence, n: nat)
    requires Compact(op, anchor) && Valid(s)
    requires anchor + |s.lits| + MFLIMIT <= n && anchor + |s.lits| + s.len <= n
    ensures op + |WireRun(s.lits, 0)| + 8 <= CompressBound(n)
    ensures op + |WireRun(s.lits, 0)| + |WireMatch(s)| == op + |Wire(s)| <= CompressBound(n)
  {
    hide MoreBytes;
    RoomForRun(op, anchor, |s.lits|, n);
    CompactStep(op, anchor, s);
  }

  /** Matches that follow one another directly; `ip` is where the next search
      begins, or past the last place where a match may begin. */
  method NextMatches(input: seq<byte>, table: array<nat>, hash: nat -> Slot, dst: array<byte>,
                     op0: nat, anchor0: nat, ghost ss0: seq<Sequence>)
    returns (op: nat, anchor: nat, ghost ss: seq<Sequence>)
    requires 2 <= anchor0 && Earlier(table[..], anchor0)
    requires Written(input, dst[..], op0, anchor0, ss0) && Compact(op0, anchor0)
    requires dst.Length >= CompressBound(|input|)
    modifies dst, table
    ensures anchor0 <= anchor
    ensures Written(input, dst[..], op, anchor, ss) && Compact(op, anchor)
    ensures anchor + MFLIMIT <= |input| ==> Earlier(table[..], anchor + 1)
  {
    hide Written, Compact, Periodic, CompressBound;
    op, anchor, ss := op0, anchor0, ss0;
    var more := true;
    while more && anchor + MFLIMIT <= |input|
      invariant anchor0 <= anchor
      invariant Earlier(table[..], if more then anchor else anchor + 1)
      invariant Written(input, dst[..], op, anchor, ss) && Compact(op, anchor)
      decreases more, |input| - anchor
    {
      table[hash(anchor - 2)] := anchor - 2;
      var m := table[hash(anchor)];
      table[hash(anchor)] := anchor;
      if m + MAX_DISTANCE >= anchor && Same4(input, m, anchor) {
        Same4Periodic(input, m, anchor);
        op, anchor, ss := EmitSequence(input, dst, op, anchor, anchor, m, ss);
      } else {
        more := false;
      }
    }
  }

  method CompressBody(input: seq<byte>, hash: nat -> Slot, acceleration: nat, dst: array<byte>)
    returns (op: nat, anchor: nat, ghost ss: seq<Sequence>)
    requires 1 <= acceleration && dst.Length >= CompressBound(|input|)
    modifies dst
    ensures Written(input, dst[..], op, anchor, ss) && Compact(op, anchor)
  {
    hide Written, Compact, Periodic, CompressBound;
    op, anchor, ss := 0, 0, [];
    NothingWritten(input, dst[..]);
    if |input| < MFLIMIT + 1 { return; }
    var table := new nat[HASH_SIZE](_ => 0);
    var ip := 1;
    while ip <= |input|
      invariant anchor < ip && Earlier(table[..], ip)
      invariant Written(input, dst[..], op, anchor, ss) && Compact(op, anchor)
      decreases |input| - anchor
    {
      var found, at, m := Search(input, table, hash, ip, acceleration);
      if !found { return; }
      ghost var probed := at;
      at, m := CatchUp(input, anchor, at, m);
      ShorterPeriodic(input, at - m, at, probed + MINMATCH, at + MINMATCH);
      op, anchor, ss := EmitSequence(input, dst, op, anchor, at, m, ss);
      BeyondProbe(input, at - m, at, probed + MINMATCH, anchor);
      op, anchor, ss := NextMatches(input, table, hash, dst, op, anchor, ss);
      if anchor + MFLIMIT > |input| { return; }
      ip := anchor + 1;
    }
  }

  /** The match counted from where it was caught up includes the four bytes it
      was found by, because counting stops at the first difference only. */
  lemma BeyondProbe(input: seq<byte>, dist: nat, from: nat, known: nat, end: nat)
    requires Periodic(input, dist, from, known) && from <= end && known + LASTLITERALS < |input|
    requires end + LASTLITERALS < |input| ==> input[end] != input[end - dist]
    ensures known <= end
  {
  }

  lemma NothingWritten(input: seq<byte>, buf: seq<byte>)
    ensures Written(input, buf, 0, 0, []) && Compact(0, 0)
  {
  }

  /** Encode the last literals. */
  method EmitLast(input: seq<byte>, dst: array<byte>, op0: nat, anchor: nat, ghost ss: seq<Sequence>)
    returns (op: nat)
    requires Written(input, dst[..], op0, anchor, ss) && Compact(op0, anchor)
    requires dst.Length >= CompressBound(|input|)
    modifies dst
    ensures op <= CompressBound(|input|) && Encoded(input, dst[..op], ss, input[anchor..])
  {
    hide Compact, Spells, WireAll, AllValid, MoreBytes, CompressBound;
    RoomForLast(op0, anchor, |input|);
    ghost var before := dst[..op0];
    op := EmitRunLength(dst, op0, |input| - anchor);
    Copy(input, anchor, dst, op, |input| - anchor);
    op := op + (|input| - anchor);
    assert input[anchor..|input|] == input[anchor..];
    assert dst[..op] == before + WireRun(input[anchor..], 0);
    assert |input| - |input[anchor..]| == anchor;
  }

  /** LZ4_compress: an input over the size limit gives 0 and no block. */
  method CompressBlock(input: seq<byte>, hash: nat -> Slot, dst: array<byte>)
    returns (n: nat, ghost ss: seq<Sequence>, ghost last: seq<byte>)
    requires dst.Length >= CompressBound(|input|)
    modifies dst
    ensures n <= CompressBound(|input|)
    ensures |input| > MAX_INPUT_SIZE ==> n == 0
    ensures |input| <= MAX_INPUT_SIZE ==> Encoded(input, dst[..n], ss, last)
  {
    hide Written, Compact, Encoded;
    if |input| > MAX_INPUT_SIZE { return 0, [], []; }
    var anchor;
    n, anchor, ss := CompressBody(input, hash, 1, dst);
    WrittenBounds(input, dst[..], n, anchor, ss);
    last := input[anchor..];
    n := EmitLast(input, dst, n, anchor, ss);
  }

  const MAX_INPUT_SIZE: nat := 0x7E000000
}
