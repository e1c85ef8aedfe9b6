/** The compressor of src/fst/fastlz.c at both levels, working in place on its
    hash table and its output buffer. The hash of a position is an arbitrary
    slot: nothing below depends on which one. */
module FastLzCompress {
  import opened Bytes
  import opened Lz
  import opened FastLzFormat
  import opened FastLzParse

  /** `stream` is the tokens `ts`, which spell `text`. */
  ghost predicate Written(level: Level, text: seq<byte>, stream: seq<byte>, ts: seq<Token>) {
    && AllValid(level, ts) && stream == WireAll(level, ts)
    && Spells(ts, text)
    && (ts != [] ==> ts[0].Run?)
  }

  /** All of the output so far is tokens, for all of the input so far. */
  ghost predicate Closed(level: Level, input: seq<byte>, buf: seq<byte>, ip: nat, op: nat, ts: seq<Token>) {
    ip <= |input| && op <= |buf| && Written(level, input[..ip], buf[..op], ts)
  }

  /** A literal run of `copy` bytes is being written after its header byte,
      which holds the count for a full run until it is patched. */
  ghost predicate Open(level: Level, input: seq<byte>, buf: seq<byte>, ip: nat, op: nat, copy: nat, ts: seq<Token>) {
    && copy < MAX_COPY && copy <= ip <= |input| && copy + 1 <= op <= |buf|
    && Closed(level, input, buf, ip - copy, op - copy - 1, ts)
    && buf[op - copy - 1..op] == [MAX_COPY - 1] + input[ip - copy..ip]
  }

  /** Output produced for `ip` input bytes: one header for every 32 literals,
      and one for the run being written. */
  predicate Compact(ip: nat, op: nat, copy: nat) {
    copy <= ip && 32 * (op - ip - 1) <= ip - copy
  }

  /** Room for every byte the compressor ever writes, the last header included
      even when it is taken back. */
  predicate Room(n: nat, capacity: nat) {
    n + n / 32 + 1 <= capacity
  }

  lemma AddRun(level: Level, text: seq<byte>, stream: seq<byte>, ts: seq<Token>, bytes: seq<byte>)
    requires Written(level, text, stream, ts) && 1 <= |bytes| <= MAX_COPY
    ensures Written(level, text + bytes, stream + ([|bytes| - 1] + bytes), ts + [Run(bytes)])
  {
    hide Spells, WireAll;
    Append(level, ts, Run(bytes), text, text + bytes);
  }

  lemma AddMatch(level: Level, text: seq<byte>, stream: seq<byte>, ts: seq<Token>, t: Token)
    requires Written(level, text, stream, ts) && ts != []
    requires Valid(level, t) && t.Match? && t.dist <= |text|
    ensures Written(level, Copied(text, t.dist, t.len), stream + Wire(level, t), ts + [t])
  {
    hide Spells, WireAll, Wire;
    CopiedKeeps(text, t.dist, t.len);
    Append(level, ts, t, text, Copied(text, t.dist, t.len));
  }

  /** The run being written becomes a token once its header is its length. */
  lemma CloseRun(level: Level, input: seq<byte>, buf: seq<byte>, ip: nat, op: nat, copy: nat, ts: seq<Token>)
    requires 1 <= copy <= MAX_COPY && copy <= ip <= |input| && copy + 1 <= op <= |buf|
    requires Closed(level, input, buf, ip - copy, op - copy - 1, ts)
    requires buf[op - copy - 1..op] == [copy - 1] + input[ip - copy..ip]
    ensures Closed(level, input, buf, ip, op, ts + [Run(input[ip - copy..ip])])
  {
    hide Written;
    var bytes := input[ip - copy..ip];
    AddRun(level, input[..ip - copy], buf[..op - copy - 1], ts, bytes);
    assert input[..ip] == input[..ip - copy] + bytes;
    assert buf[..op] == buf[..op - copy - 1] + ([|bytes| - 1] + bytes);
  }

  lemma CloseMatch(level: Level, input: seq<byte>, buf: seq<byte>, ip: nat, op: nat, ts: seq<Token>,
                   t: Token, after: seq<byte>, op': nat)
    requires Closed(level, input, buf, ip, op, ts) && ts != []
    requires Valid(level, t) && t.Match? && Periodic(input, t.dist, ip, ip + t.len)
    requires op' <= |after| && after[..op'] == buf[..op] + Wire(level, t)
    ensures Closed(level, input, after, ip + t.len, op', ts + [t])
  {
    hide Written, Valid, Wire;
    CopiedUnique(input, t.dist, ip, ip + t.len);
    AddMatch(level, input[..ip], buf[..op], ts, t);
  }

  lemma CompactLiteral(ip: nat, op: nat, copy: nat, n: nat, capacity: nat)
    requires Compact(ip, op, copy) && ip < n && Room(n, capacity) && copy < MAX_COPY
    ensures op < capacity
    ensures copy + 1 < MAX_COPY ==> Compact(ip + 1, op + 1, copy + 1) && op + 1 <= capacity
    ensures copy + 1 == MAX_COPY ==> Compact(ip + 1, op + 2, 0) && op + 2 <= capacity
  {
  }

  lemma ExtendRun(level: Level, input: seq<byte>, buf: seq<byte>, ip: nat, op: nat, copy: nat, ts: seq<Token>)
    requires Open(level, input, buf, ip, op, copy, ts)
    requires ip < |input| && op < |buf|
    ensures var after := buf[op := input[ip]];
      && Closed(level, input, after, ip - copy, op - copy - 1, ts)
      && after[op - copy - 1..op + 1] == [MAX_COPY - 1] + input[ip - copy..ip + 1]
  {
    hide Written;
    var after := buf[op := input[ip]];
    assert after[..op - copy - 1] == buf[..op - copy - 1];
    assert after[op - copy - 1..op + 1] == buf[op - copy - 1..op] + [input[ip]];
    assert input[ip - copy..ip + 1] == input[ip - copy..ip] + [input[ip]];
  }

  lemma LiteralIs(input: seq<byte>, ip: nat, copy: nat, ts: seq<Token>)
    requires ip < |input| && copy < MAX_COPY && copy <= ip
    ensures Literal(input, Parse([], ip, copy, ts)) ==
      if copy + 1 == MAX_COPY then Parse([], ip + 1, 0, ts + [Run(input[ip + 1 - MAX_COPY..ip + 1])]) else Parse([], ip + 1, copy + 1, ts)
  {
  }

  /** One literal more, and a fresh header after every 32 literals. */
  method PutLiteral(level: Level, input: seq<byte>, dst: array<byte>, ip: nat, op: nat, copy: nat, ghost ts: seq<Token>)
    returns (op': nat, copy': nat, ghost ts': seq<Token>)
    requires ip < |input| && Room(|input|, dst.Length)
    requires Open(level, input, dst[..], ip, op, copy, ts) && Compact(ip, op, copy)
    modifies dst
    ensures Open(level, input, dst[..], ip + 1, op', copy', ts') && Compact(ip + 1, op', copy')
    ensures Parse([], ip + 1, copy', ts') == Literal(input, Parse([], ip, copy, ts))
  {
    hide Closed, Compact, Room, Literal, Ended;
    CompactLiteral(ip, op, copy, |input|, dst.Length);
    LiteralIs(input, ip, copy, ts);
    ghost var before := dst[..];
    dst[op] := input[ip];
    assert dst[..] == before[op := input[ip]];
    ExtendRun(level, input, before, ip, op, copy, ts);
    op', copy', ts' := op + 1, copy + 1, ts;
    if copy' == MAX_COPY {
      CloseRun(level, input, dst[..], ip + 1, op', copy', ts);
      ts' := ts + [Run(input[ip + 1 - copy'..ip + 1])];
      copy' := 0;
      op' := OpenRun(level, input, dst, ip + 1, op', ts');
    }
  }

  /** The header of a run not yet begun. */
  method OpenRun(level: Level, input: seq<byte>, dst: array<byte>, ip: nat, op: nat, ghost ts: seq<Token>)
    returns (op': nat)
    requires op < dst.Length && Closed(level, input, dst[..], ip, op, ts)
    modifies dst
    ensures op' == op + 1 && Open(level, input, dst[..], ip, op', 0, ts)
  {
    hide Written;
    ghost var before := dst[..];
    dst[op] := MAX_COPY - 1;
    assert dst[..op] == before[..op];
    op' := op + 1;
  }

  /** Patch the run being written, or take back its unused header. */
  method CloseLiterals(level: Level, input: seq<byte>, dst: array<byte>, ip: nat, op: nat, copy: nat, ghost ts: seq<Token>)
    returns (op': nat, ghost ts': seq<Token>)
    requires Open(level, input, dst[..], ip, op, copy, ts) && ip > 0
    modifies dst
    ensures op' == if copy > 0 then op else op - 1
    ensures Closed(level, input, dst[..], ip, op', ts') && ts' != [] && ts' == Ended(input, ip, copy, ts)
  {
    hide Spells, WireAll;
    ghost var before := dst[..];
    if copy > 0 {
      dst[op - copy - 1] := copy - 1;
      assert dst[..op - copy - 1] == before[..op - copy - 1];
      CloseRun(level, input, dst[..], ip, op, copy, ts);
      op', ts' := op, ts + [Run(input[ip - copy..ip])];
    } else {
      op', ts' := op - 1, ts;
      SpellsSomething(ts, input[..ip]);
    }
  }

  lemma SpellsSomething(ts: seq<Token>, text: seq<byte>)
    requires Spells(ts, text) && text != []
    ensures ts != []
  {
  }

  // ----- matches -----

  /** How far a match at `anchor` reaches, its first `len` bytes already
      compared. C leaves `ip` one past the last byte it looked at, so that the
      match ends at `ip - 1` whether or not that byte was the odd one out. */
  method ExtendMatch(input: seq<byte>, anchor: nat, distance: nat, len: nat) returns (ip: nat)
    requires 1 <= distance <= anchor && 3 <= len <= 5 && anchor + 12 < |input|
    requires Periodic(input, distance, anchor, anchor + len)
    ensures anchor + len + 1 <= ip <= |input|
    ensures Periodic(input, distance, anchor, ip - 1)
    ensures ip - 1 == FirstOdd(input, distance, anchor + len, Furthest(|input|, distance, anchor + len))
  {
    hide Periodic, FirstOdd;
    var bound := |input| - 2;
    if distance == 1 {
      ip := RunOn(input, anchor, anchor + len, bound);
    } else {
      ip := SkipEqual(input, anchor, distance, anchor + len, bound);
    }
    EndsThere(input, anchor, distance, anchor + len, Furthest(|input|, distance, anchor + len), ip - 1);
  }

  lemma EndsThere(input: seq<byte>, anchor: nat, distance: nat, from: nat, upTo: int, r: int)
    requires 1 <= distance <= anchor <= from <= r <= upTo <= |input| && Periodic(input, distance, anchor, r)
    requires r < upTo ==> input[r] != input[r - distance]
    ensures FirstOdd(input, distance, from, upTo) == r
  {
    FirstOddIs(input, distance, from, upTo, r);
  }

  /** The byte before `start` repeated. */
  method RunOn(input: seq<byte>, anchor: nat, start: nat, bound: nat) returns (ip: nat)
    requires 1 <= anchor < start < bound <= |input| && Periodic(input, 1, anchor, start)
    ensures start < ip <= bound && Periodic(input, 1, anchor, ip - 1)
    ensures ip < bound ==> input[ip - 1] != input[ip - 2]
  {
    ip := start;
    var x, ref := input[start - 1], start - 1;
    while ip < bound
      invariant start <= ip <= bound && ref == ip - 1
      invariant ip == start ==> input[ref] == x
      invariant Periodic(input, 1, anchor, ref) && input[ref - 1] == x
    {
      if input[ref] != x { break; }
      ref, ip := ref + 1, ip + 1;
    }
  }

  /** Eight unrolled comparisons, then more while inside the bound; each one
      advances `ip`, the failing one too. */
  method SkipEqual(input: seq<byte>, anchor: nat, distance: nat, start: nat, bound: nat) returns (ip: nat)
    requires 1 <= distance <= anchor < start && start + 8 <= |input| && bound <= |input|
    requires Periodic(input, distance, anchor, start)
    ensures start < ip <= |input|
    ensures Periodic(input, distance, anchor, ip - 1)
    ensures ip <= start + 8 || ip <= bound
    ensures input[ip - 1] == input[ip - 1 - distance] ==> ip >= start + 8 && ip >= bound
  {
    ip := start;
    var equal, tries := true, 0;
    while equal && (tries < 8 || ip < bound)
      invariant start <= ip <= |input| && (ip == start <==> tries == 0) && (tries == 0 ==> equal)
      invariant ip >= start + tries && (tries < 8 ==> ip == start + tries)
      invariant 0 <= tries <= 8
      invariant Periodic(input, distance, anchor, if equal then ip else ip - 1)
      invariant ip <= start + 8 || ip <= bound
      invariant !equal ==> ip > start && input[ip - 1] != input[ip - 1 - distance]
      decreases equal, |input| - ip
    {
      equal := input[ip] == input[ip - distance];
      ip := ip + 1;
      tries := if tries < 8 then tries + 1 else tries;
    }
  }

  /** One match token, its length biased by two and its distance by one. */
  method EmitToken(level: Level, dst: array<byte>, op0: nat, dist: nat, len: nat) returns (op: nat)
    requires Valid(level, Match(dist, len)) && op0 + |Wire(level, Match(dist, len))| <= dst.Length
    modifies dst
    ensures op == op0 + |Wire(level, Match(dist, len))|
    ensures dst[..op] == old(dst[..op0]) + Wire(level, Match(dist, len))
  {
    hide MatchHead;
    var biased := dist - 1;
    if IsFar(level, dist) {
      biased := biased - MAX_DISTANCE_2;
      op := EmitHead(level, dst, op0, len, 31);
      op := EmitByte(dst, op, 255);
      op := EmitByte(dst, op, biased / 256);
      op := EmitByte(dst, op, biased % 256);
    } else {
      op := EmitHead(level, dst, op0, len, biased / 256);
      op := EmitByte(dst, op, biased % 256);
    }
  }

  method EmitHead(level: Level, dst: array<byte>, op0: nat, len: nat, top: nat) returns (op: nat)
    requires 3 <= len && top < 32 && (level == One ==> len <= MAX_LEN)
    requires op0 + |MatchHead(level, len, top)| <= dst.Length
    modifies dst
    ensures op == op0 + |MatchHead(level, len, top)|
    ensures dst[..op] == old(dst[..op0]) + MatchHead(level, len, top)
  {
    hide Ext;
    ghost var before := dst[..op0];
    var biased := len - 2;
    if biased < 7 {
      op := EmitByte(dst, op0, biased * 32 + top);
    } else {
      op := EmitByte(dst, op0, 7 * 32 + top);
      Assoc(before, [7 * 32 + top], if level == One then [biased - 7] else Ext(biased - 7));
      if level == One {
        op := EmitByte(dst, op, biased - 7);
      } else {
        op := EmitExt(dst, op, biased - 7);
      }
    }
  }

  /** All the tokens of one match: level 1 cuts it into pieces of 262 bytes. */
  method EmitMatch(level: Level, input: seq<byte>, dst: array<byte>, anchor: nat, end: nat, op0: nat, dist: nat,
                   ghost ts0: seq<Token>)
    returns (op: nat, ghost ts: seq<Token>)
    requires anchor + 3 <= end <= |input| < TWO_32 / 2
    requires Periodic(input, dist, anchor, end)
    requires level == One ==> dist < 8192
    requires level == Two ==> dist < MAX_FARDISTANCE && (IsFar(level, dist) ==> anchor + 5 <= end)
    requires Closed(level, input, dst[..], anchor, op0, ts0) && ts0 != []
    requires op0 + end - anchor <= dst.Length
    modifies dst
    ensures Closed(level, input, dst[..], end, op, ts)
    ensures op + 1 <= op0 + end - anchor
    ensures ts == ts0 + Pieces(level, dist, end - anchor)
  {
    hide Closed, Wire;
    var start := anchor;
    op, ts := op0, ts0;
    if level == One {
      while end - start - 2 > MAX_LEN - 2
        invariant anchor <= start && start + 3 <= end
        invariant Closed(level, input, dst[..], start, op, ts) && ts != []
        invariant op + end - start <= op0 + end - anchor
        invariant ts + Pieces(level, dist, end - start) == ts0 + Pieces(level, dist, end - anchor)
      {
        op, ts := EmitPiece(level, input, dst, start, op, dist, MAX_LEN - 2, ts);
        start := start + (MAX_LEN - 2);
      }
    }
    op, ts := EmitPiece(level, input, dst, start, op, dist, end - start, ts);
  }

  method EmitPiece(level: Level, input: seq<byte>, dst: array<byte>, start: nat, op0: nat, dist: nat, len: nat,
                   ghost ts0: seq<Token>)
    returns (op: nat, ghost ts: seq<Token>)
    requires Valid(level, Match(dist, len)) && start + len <= |input|
    requires Periodic(input, dist, start, start + len)
    requires Closed(level, input, dst[..], start, op0, ts0) && ts0 != []
    requires op0 + len <= dst.Length
    modifies dst
    ensures Closed(level, input, dst[..], start + len, op, ts) && ts != [] && ts == ts0 + [Match(dist, len)]
    ensures op + 1 <= op0 + len
  {
    hide Closed, Wire, Valid;
    ghost var t := Match(dist, len);
    WireShort(level, t);
    ghost var before := dst[..];
    assert before[..op0] == dst[..op0];
    ClosedBounds(level, input, dst[..], start, op0, ts0);
    op := EmitToken(level, dst, op0, dist, len);
    assert dst[..][..op] == dst[..op];
    CloseMatch(level, input, before, start, op0, ts0, t, dst[..], op);
    ts := ts0 + [t];
  }

  lemma ClosedBounds(level: Level, input: seq<byte>, buf: seq<byte>, ip: nat, op: nat, ts: seq<Token>)
    requires Closed(level, input, buf, ip, op, ts)
    ensures ip <= |input| && op <= |buf|
  {
  }

  // ----- the compressor -----

  /** What `stream` has to be for a decoder to get `text` back: a spelling of it,
      the level in the top bits of the first byte. */
  ghost predicate Encoded(level: Level, text: seq<byte>, stream: seq<byte>, ts: seq<Token>) {
    && AllValid(level, ts) && Spells(ts, text) && ts != [] && ts[0].Run?
    && |stream| == |WireAll(level, ts)| > 0
    && WireAll(level, ts)[0] < 32
    && stream[0] as int == WireAll(level, ts)[0] as int + (if level == Two then 32 else 0)
    && forall k :: 1 <= k < |stream| ==> stream[k] == WireAll(level, ts)[k]
  }

  /** A usable match of the bytes at `anchor`: its distance, or 0, and how many
      bytes were compared. */
  method FindMatch(level: Level, input: seq<byte>, htab: array<nat>, hash: nat -> Slot, anchor: nat)
    returns (distance: nat, len: nat)
    requires 2 <= anchor && anchor + 12 < |input| && Earlier(htab[..], anchor)
    modifies htab
    ensures Earlier(htab[..], anchor + 1)
    ensures Found(htab[..], distance, len) == Find(level, input, hash, old(htab[..]), anchor)
    ensures distance > 0 ==> 3 <= len <= 5 && Periodic(input, distance, anchor, anchor + len)
    ensures distance > 0 && level == One ==> distance < 8192
    ensures distance > 0 && level == Two ==> distance < MAX_FARDISTANCE && (IsFar(level, distance) ==> len == 5)
  {
    if level == Two && input[anchor] == input[anchor - 1]
       && input[anchor - 1] == input[anchor + 1] && input[anchor] == input[anchor + 2] {
      return 1, 3;
    }
    var hval := hash(anchor);
    var ref := htab[hval];
    distance := anchor - ref;
    htab[hval] := anchor;
    if distance == 0 || distance >= (if level == One then 8192 else MAX_FARDISTANCE)
       || input[ref] != input[anchor] || input[ref + 1] != input[anchor + 1] || input[ref + 2] != input[anchor + 2] {
      return 0, 0;
    }
    len := 3;
    if level == Two && distance >= MAX_DISTANCE_2 {
      if input[anchor + 3] != input[ref + 3] || input[anchor + 4] != input[ref + 4] { return 0, 0; }
      len := 5;
    }
  }

  lemma CompactMatch(ip: nat, op: nat, copy: nat, n: nat, capacity: nat, closed: nat, end: nat)
    requires Compact(ip, op, copy) && ip < end <= n && Room(n, capacity) && op >= 1
    requires closed == if copy > 0 then op else op - 1
    ensures closed + end - ip <= capacity
  {
  }

  lemma CompactAfter(ip: nat, op: nat, copy: nat, n: nat, capacity: nat, closed: nat, end: nat, after: nat)
    requires Compact(ip, op, copy) && ip < end <= n && Room(n, capacity) && op >= 1
    requires closed == if copy > 0 then op else op - 1
    requires after + 1 <= closed + end - ip
    ensures after < capacity && Compact(end, after + 1, 0)
  {
  }

  lemma CompactEnd(n: nat, op: nat, copy: nat)
    requires Compact(n, op, copy) && op >= 1
    ensures (if copy > 0 then op else op - 1) <= n + (n + 31) / 32
  {
  }

  /** One turn of the main loop where a match was found. */
  method TakeMatch(level: Level, input: seq<byte>, dst: array<byte>, ip: nat, op: nat, copy: nat,
                   distance: nat, len: nat, ghost ts: seq<Token>)
    returns (ip': nat, op': nat, ghost ts': seq<Token>)
    requires |input| < TWO_32 / 2 && 2 <= ip && ip + 12 < |input| && Room(|input|, dst.Length)
    requires 3 <= len <= 5 && Periodic(input, distance, ip, ip + len)
    requires level == One ==> distance < 8192
    requires level == Two ==> distance < MAX_FARDISTANCE && (IsFar(level, distance) ==> len == 5)
    requires Open(level, input, dst[..], ip, op, copy, ts) && Compact(ip, op, copy)
    modifies dst
    ensures ip + 3 <= ip' <= |input|
    ensures Open(level, input, dst[..], ip', op', 0, ts') && Compact(ip', op', 0)
    ensures ip' == FirstOdd(input, distance, ip + len, Furthest(|input|, distance, ip + len))
    ensures ts' == Ended(input, ip, copy, ts) + Pieces(level, distance, ip' - ip)
  {
    hide Closed, Compact, Room, FirstOdd, Pieces, Ended, Furthest;
    var beyond := ExtendMatch(input, ip, distance, len);
    ip' := beyond - 1;
    op', ts' := CloseLiterals(level, input, dst, ip, op, copy, ts);
    CompactMatch(ip, op, copy, |input|, dst.Length, op', ip');
    ghost var closed := op';
    op', ts' := EmitMatch(level, input, dst, ip, ip', op', distance, ts');
    CompactAfter(ip, op, copy, |input|, dst.Length, closed, ip', op');
    op' := OpenRun(level, input, dst, ip', op', ts');
  }

  /** FASTLZ_COMPRESSOR: the tokens written are those of the greedy parse. */
  method CompressLevel(level: Level, input: seq<byte>, hash: nat -> Slot, dst: array<byte>)
    returns (n: nat, ghost ts: seq<Token>)
    requires |input| < TWO_32 / 2 && Room(|input|, dst.Length)
    modifies dst
    ensures n <= dst.Length && n <= |input| + (|input| + 31) / 32
    ensures input == [] ==> n == 0
    ensures input != [] ==> Encoded(if |input| < 4 then One else level, input, dst[..n], ts) && ts == Tokens(level, input, hash)
  {
    if |input| < 4 {
      if input == [] { return 0, []; }
      n, ts := CompressShort(input, dst);
    } else {
      var op, copy;
      op, copy, ts := CompressBody(level, input, hash, dst);
      CompactEnd(|input|, op, copy);
      n, ts := Finish(level, input, dst, op, copy, ts);
    }
  }

  /** Fewer than four bytes: a single literal run, without a level marker. */
  method CompressShort(input: seq<byte>, dst: array<byte>) returns (n: nat, ghost ts: seq<Token>)
    requires 1 <= |input| < 4 && Room(|input|, dst.Length)
    modifies dst
    ensures n == |input| + 1 && Encoded(One, input, dst[..n], ts) && ts == [Run(input)]
  {
    hide Encoded;
    dst[0] := |input| - 1;
    var ip := 0;
    while ip < |input|
      invariant ip <= |input| && dst[..ip + 1] == [|input| - 1] + input[..ip]
    {
      dst[ip + 1] := input[ip];
      ip := ip + 1;
    }
    n := |input| + 1;
    assert input[..ip] == input;
    ts := [Run(input)];
    OneRun(input, dst[..n]);
  }

  lemma OneRun(input: seq<byte>, stream: seq<byte>)
    requires 1 <= |input| < 4 && stream == [|input| - 1] + input
    ensures Encoded(One, input, stream, [Run(input)])
  {
    AddRun(One, [], [], [], input);
    assert [] + [Run(input)] == [Run(input)] && [] + input == input;
    assert [] + ([|input| - 1] + input) == stream;
  }

  /** There is only one stream of the same tokens. */
  lemma OneStream(level: Level, text: seq<byte>, stream: seq<byte>, ts: seq<Token>)
    requires Encoded(level, text, stream, ts)
    ensures stream == Stream(level, ts)
  {
    hide Spells, AllValid, WireAll;
    var w := WireAll(level, ts);
    Reassembled(stream, w);
    assert Stream(level, ts) == if level == Two && w != [] && w[0] < 32 then [w[0] + 32] + w[1..] else w;
  }

  lemma Reassembled(stream: seq<byte>, w: seq<byte>)
    requires |stream| == |w| > 0 && forall k :: 1 <= k < |w| ==> stream[k] == w[k]
    ensures stream == [stream[0]] + w[1..] && (stream[0] == w[0] ==> stream == w)
  {
  }

  /** What is parsed so far leads to the greedy parse. */
  ghost predicate Parses(level: Level, input: seq<byte>, hash: nat -> Slot, p: Parse) {
    Good(input, p) && Rest(level, input, hash, p) == Tokens(level, input, hash)
  }

  lemma ParsesOn(level: Level, input: seq<byte>, hash: nat -> Slot, p: Parse)
    requires Parses(level, input, hash, p)
    ensures p.ip + 12 < |input| ==> Parses(level, input, hash, Turn(level, input, hash, p))
    ensures p.ip + 12 >= |input| && p.ip < |input| ==> Parses(level, input, hash, Literal(input, p))
    ensures p.ip == |input| ==> Tokens(level, input, hash) == Ended(input, p.ip, p.copy, p.ts)
  {
    hide Tokens, Turn;
  }

  lemma ParsesBegin(level: Level, input: seq<byte>, hash: nat -> Slot)
    requires 4 <= |input|
    ensures Parses(level, input, hash, Begin(input))
  {
    hide Rest;
  }

  method CompressBody(level: Level, input: seq<byte>, hash: nat -> Slot, dst: array<byte>)
    returns (op: nat, copy: nat, ghost ts: seq<Token>)
    requires 4 <= |input| < TWO_32 / 2 && Room(|input|, dst.Length)
    modifies dst
    ensures Open(level, input, dst[..], |input|, op, copy, ts) && Compact(|input|, op, copy)
    ensures copy <= |input| && Tokens(level, input, hash) == Ended(input, |input|, copy, ts)
  {
    hide Closed, Open, Compact, Room, Periodic, Parses, Turn, Literal;
    var htab := new nat[HASH_SIZE](_ => 0);
    op, copy, ts := Start(level, input, dst);
    var ip := 2;
    assert Parse(htab[..], ip, copy, ts) == Begin(input);
    ParsesBegin(level, input, hash);
    while ip + 12 < |input|
      invariant 2 <= ip <= |input|
      invariant Open(level, input, dst[..], ip, op, copy, ts) && Compact(ip, op, copy)
      invariant Parses(level, input, hash, Parse(htab[..], ip, copy, ts))
      decreases |input| - ip
    {
      ip, op, copy, ts := OneTurn(level, input, hash, dst, htab, ip, op, copy, ts);
    }
    ip, op, copy, ts := LeftOver(level, input, hash, dst, htab[..], ip, op, copy, ts);
  }

  /** One turn of the main loop: a literal, or a match. */
  method OneTurn(level: Level, input: seq<byte>, hash: nat -> Slot, dst: array<byte>, htab: array<nat>,
                 ip0: nat, op0: nat, copy0: nat, ghost ts0: seq<Token>)
    returns (ip: nat, op: nat, copy: nat, ghost ts: seq<Token>)
    requires 4 <= |input| < TWO_32 / 2 && Room(|input|, dst.Length) && 2 <= ip0 && ip0 + 12 < |input|
    requires Open(level, input, dst[..], ip0, op0, copy0, ts0) && Compact(ip0, op0, copy0)
    requires Parses(level, input, hash, Parse(htab[..], ip0, copy0, ts0))
    modifies dst, htab
    ensures ip0 < ip <= |input| && Open(level, input, dst[..], ip, op, copy, ts) && Compact(ip, op, copy)
    ensures Parses(level, input, hash, Parse(htab[..], ip, copy, ts))
  {
    hide Closed, Open, Compact, Room, Periodic, Rest, Tokens, FirstOdd, Furthest, Pieces, Ended, Find, Literal, Turn, Parses;
    ghost var p := Parse(htab[..], ip0, copy0, ts0);
    ParsesOn(level, input, hash, p);
    WellParsed(level, input, hash, p);
    var distance, len := FindMatch(level, input, htab, hash, ip0);
    ghost var f := Found(htab[..], distance, len);
    if distance == 0 {
      op, copy, ts := PutLiteral(level, input, dst, ip0, op0, copy0, ts0);
      ip := ip0 + 1;
      LiteralAnyTable(input, p, f.htab);
    } else {
      ip, op, ts := TakeMatch(level, input, dst, ip0, op0, copy0, distance, len, ts0);
      copy := 0;
      Rehash(htab, hash, ip);
    }
    TurnIs(level, input, hash, p, f);
  }

  /** Update the hash at the match boundary. */
  method Rehash(htab: array<nat>, hash: nat -> Slot, ip: nat)
    requires htab.Length == HASH_SIZE && ip >= 2
    modifies htab
    ensures htab[..] == old(htab[..])[hash(ip - 2) := ip - 2][hash(ip - 1) := ip - 1]
  {
    htab[hash(ip - 2)] := ip - 2;
    htab[hash(ip - 1)] := ip - 1;
  }

  lemma WellParsed(level: Level, input: seq<byte>, hash: nat -> Slot, p: Parse)
    requires Parses(level, input, hash, p)
    ensures Good(input, p) && Earlier(p.htab, p.ip) && |p.htab| == HASH_SIZE
  {
    hide Rest, Tokens;
  }

  lemma LiteralAnyTable(input: seq<byte>, p: Parse, htab: seq<nat>)
    requires p.ip < |input| && p.copy < MAX_COPY && p.copy <= p.ip
    ensures Literal(input, p.(htab := htab)) == Literal(input, Parse([], p.ip, p.copy, p.ts)).(htab := htab)
  {
  }

  lemma TurnIs(level: Level, input: seq<byte>, hash: nat -> Slot, p: Parse, f: Found)
    requires Good(input, p) && p.ip + 12 < |input| && f == Find(level, input, hash, p.htab, p.ip)
    ensures Turn(level, input, hash, p) ==
      if f.distance == 0 then Literal(input, p.(htab := f.htab))
      else
        var start := p.ip + f.len;
        var end := FirstOdd(input, f.distance, start, Furthest(|input|, f.distance, start));
        Parse(f.htab[hash(end - 2) := end - 2][hash(end - 1) := end - 1], end, 0,
              Ended(input, p.ip, p.copy, p.ts) + Pieces(level, f.distance, end - p.ip))
  {
    hide Find, Literal, FirstOdd, Furthest, Ended, Pieces;
  }

  /** Left-over as literal copy. */
  method LeftOver(level: Level, input: seq<byte>, hash: nat -> Slot, dst: array<byte>, ghost htab: seq<nat>,
                  ip0: nat, op0: nat, copy0: nat, ghost ts0: seq<Token>)
    returns (ip: nat, op: nat, copy: nat, ghost ts: seq<Token>)
    requires Room(|input|, dst.Length) && 2 <= ip0 <= |input| <= ip0 + 12
    requires Open(level, input, dst[..], ip0, op0, copy0, ts0) && Compact(ip0, op0, copy0)
    requires Parses(level, input, hash, Parse(htab, ip0, copy0, ts0))
    modifies dst
    ensures ip == |input| && Open(level, input, dst[..], ip, op, copy, ts) && Compact(ip, op, copy)
    ensures copy <= ip && Tokens(level, input, hash) == Ended(input, ip, copy, ts)
  {
    hide Closed, Open, Compact, Room, Rest, Tokens;
    ip, op, copy, ts := ip0, op0, copy0, ts0;
    while ip < |input|
      invariant ip0 <= ip <= |input|
      invariant Open(level, input, dst[..], ip, op, copy, ts) && Compact(ip, op, copy)
      invariant Parses(level, input, hash, Parse(htab, ip, copy, ts))
    {
      ghost var p := Parse(htab, ip, copy, ts);
      ParsesOn(level, input, hash, p);
      op, copy, ts := PutLiteral(level, input, dst, ip, op, copy, ts);
      ip := ip + 1;
      assert Parse(htab, ip, copy, ts) == Literal(input, p);
    }
    ParsesOn(level, input, hash, Parse(htab, ip, copy, ts));
  }

  lemma CompactEmpty(level: Level, input: seq<byte>, buf: seq<byte>)
    requires Room(|input|, |buf|)
    ensures |buf| > 0 && Closed(level, input, buf, 0, 0, []) && Compact(0, 1, 0)
  {
  }

  /** The first two bytes are always literals. */
  method Start(level: Level, input: seq<byte>, dst: array<byte>) returns (op: nat, copy: nat, ghost ts: seq<Token>)
    requires 4 <= |input| && Room(|input|, dst.Length)
    modifies dst
    ensures Open(level, input, dst[..], 2, op, copy, ts) && Compact(2, op, copy) && copy == 2 && ts == []
  {
    hide Closed, Open, Compact, Room;
    CompactEmpty(level, input, dst[..]);
    op := OpenRun(level, input, dst, 0, 0, []);
    op, copy, ts := PutLiteral(level, input, dst, 0, op, 0, []);
    op, copy, ts := PutLiteral(level, input, dst, 1, op, copy, ts);
  }

  /** Adjust the last copy length and, at level 2, mark the first byte. */
  method Finish(level: Level, input: seq<byte>, dst: array<byte>, op: nat, copy: nat, ghost ts: seq<Token>)
    returns (n: nat, ghost ts': seq<Token>)
    requires input != [] && Open(level, input, dst[..], |input|, op, copy, ts) && copy <= |input|
    modifies dst
    ensures n == (if copy > 0 then op else op - 1) <= dst.Length
    ensures Encoded(level, input, dst[..n], ts') && ts' == Ended(input, |input|, copy, ts)
  {
    n, ts' := CloseLiterals(level, input, dst, |input|, op, copy, ts);
    assert input[..|input|] == input;
    FirstIsSmall(level, ts');
    if level == Two {
      assert dst[..n][0] == dst[0];
      dst[0] := dst[0] + 32;
    }
  }
}
