/** The decompressor of src/fst/fastlz.c, working in place on its output buffer. */
module FastLzDecompress {
  import opened Bytes
  import opened Lz
  import opened FastLzFormat

  /** The length and distance bytes of a match, ip already past the control byte. */
  method ParseMatch(level: Level, src: seq<byte>, ip0: nat, ctrl: nat) returns (r: Read)
    requires ip0 <= |src| && 32 <= ctrl < 256
    ensures r == ReadMatch(level, src, ip0, ctrl)
  {
    var ip := ip0;
    var len := ctrl / 32 - 1;
    var ofs := ctrl % 32 * 256;
    if len == 7 - 1 {
      var code := 255;
      var more := true;
      while more
        invariant ip0 <= ip <= |src| && 0 <= len < TWO_32
        invariant ReadLength(level, src, ip0, 6) == if more then ReadLength(level, src, ip, len) else Length(len, ip)
        decreases more, |src| - ip
      {
        if ip == |src| { return PastEnd; }
        code := src[ip];
        len := (len + code) % TWO_32;
        ip := ip + 1;
        more := level == Two && code == 255;
      }
    }
    if ip == |src| { return PastEnd; }
    var code := src[ip];
    ip := ip + 1;
    var dist := ofs + code + 1;
    if level == Two && code == 255 && ofs == 31 * 256 {
      if ip + 1 >= |src| { return PastEnd; }
      dist := src[ip] * 256 + src[ip + 1] + MAX_DISTANCE_2 + 1;
      ip := ip + 2;
    }
    r := Got(Match(dist, len + 3), ip);
  }

  /** One byte more of a copy. */
  method CopyByte(dst: array<byte>, op: nat, dist: nat, ghost out: seq<byte>, ghost done: nat)
    requires 1 <= dist <= |out| && op == |out| + done && op < dst.Length
    requires dst[..op] == Copied(out, dist, done)
    modifies dst
    ensures dst[..op + 1] == Copied(out, dist, done + 1)
  {
    ghost var before := dst[..op];
    dst[op] := dst[op - dist];
    assert dst[..op + 1] == before + [before[op - dist]];
  }

  /** Two bytes read at once and written at once: if the distance is at least two,
      neither of those read is one of those written. */
  method CopyPair(dst: array<byte>, op: nat, dist: nat, ghost out: seq<byte>, ghost done: nat)
    requires 2 <= dist <= |out| && op == |out| + done && op + 2 <= dst.Length
    requires dst[..op] == Copied(out, dist, done)
    modifies dst
    ensures dst[..op + 2] == Copied(out, dist, done + 2)
  {
    ghost var before := dst[..op];
    var low, high := dst[op - dist], dst[op + 1 - dist];
    dst[op], dst[op + 1] := low, high;
    ghost var one := before + [before[op - dist]];
    assert one == Copied(out, dist, done + 1);
    assert dst[..op + 2] == one + [one[op + 1 - dist]];
  }

  method CopyFour(dst: array<byte>, op: nat, dist: nat, ghost out: seq<byte>, ghost done: nat)
    requires 2 <= dist <= |out| && op == |out| + done && op + 8 <= dst.Length
    requires dst[..op] == Copied(out, dist, done)
    modifies dst
    ensures dst[..op + 8] == Copied(out, dist, done + 8)
  {
    hide Copied;
    CopyPair(dst, op, dist, out, done);
    CopyPair(dst, op + 2, dist, out, done + 2);
    CopyPair(dst, op + 4, dist, out, done + 4);
    CopyPair(dst, op + 6, dist, out, done + 6);
  }

  /** The 16-bit loops: four at a time while there are more than four, and then the
      rest. */
  method CopyPairs(dst: array<byte>, op: nat, dist: nat, len: nat, ghost out: seq<byte>, ghost done: nat)
    requires 2 <= dist <= |out| && op == |out| + done && op + 2 * len <= dst.Length
    requires dst[..op] == Copied(out, dist, done)
    modifies dst
    ensures dst[..op + 2 * len] == Copied(out, dist, done + 2 * len)
  {
    hide Copied;
    var q: nat, left: nat := op, len;
    while left > 4
      invariant q == op + 2 * (len - left) && left <= len
      invariant dst[..q] == Copied(out, dist, done + (q - op))
    {
      CopyFour(dst, q, dist, out, done + (q - op));
      q, left := q + 8, left - 4;
    }
    while left > 0
      invariant q == op + 2 * (len - left) && left <= len
      invariant dst[..q] == Copied(out, dist, done + (q - op))
    {
      CopyPair(dst, q, dist, out, done + (q - op));
      q, left := q + 2, left - 1;
    }
  }

  /** Three bytes, and one more if the rest is odd. */
  method CopySingly(dst: array<byte>, op: nat, dist: nat, len: nat) returns (done: nat)
    requires 1 <= dist <= op && op + len <= dst.Length && len >= 3
    modifies dst
    ensures done == (if len % 2 == 0 then 4 else 3) && dst[..op + done] == Copied(old(dst[..op]), dist, done)
  {
    hide Copied;
    ghost var out := dst[..op];
    CopiedNothing(out, dist);
    CopyByte(dst, op, dist, out, 0);
    CopyByte(dst, op + 1, dist, out, 1);
    CopyByte(dst, op + 2, dist, out, 2);
    done := 3;
    if (len - 3) % 2 == 1 {
      CopyByte(dst, op + 3, dist, out, 3);
      done := 4;
    }
  }

  lemma CopiedNothing(out: seq<byte>, dist: nat)
    requires 1 <= dist <= |out|
    ensures Copied(out, dist, 0) == out
  {
  }

  /** A run of the byte before. */
  method CopyRun(dst: array<byte>, op: nat, len: nat)
    requires 1 <= op && op + len <= dst.Length
    modifies dst
    ensures dst[..op + len] == Copied(old(dst[..op]), 1, len)
  {
    var b := dst[op - 1];
    var i := 0;
    while i < len
      invariant 0 <= i <= len && dst[op + i - 1] == b
      invariant dst[..op + i] == Copied(old(dst[..op]), 1, i)
    {
      dst[op + i] := b;
      assert dst[..op + i + 1] == dst[..op + i] + [b];
      i := i + 1;
    }
  }

  /** Both copy loops of the decompressor, as compiled for x86: a run of the byte
      before; or the bytes from `dist` back, the first few singly and then 16 bits at
      a time. */
  method CopyMatch(dst: array<byte>, op: nat, dist: nat, len: nat)
    requires 1 <= dist <= op && op + len <= dst.Length && len >= 3
    modifies dst
    ensures dst[..op + len] == Copied(old(dst[..op]), dist, len)
  {
    hide Copied;
    if dist == 1 {
      CopyRun(dst, op, len);
    } else {
      ghost var out := dst[..op];
      var done := CopySingly(dst, op, dist, len);
      CopyPairs(dst, op + done, dist, (len - done) / 2, out, done);
    }
  }

  /** Carry out one token, unless it does not fit; `op` is where output ends. */
  method Perform(t: Token, dst: array<byte>, op: nat) returns (ok: bool, next: nat)
    requires op <= dst.Length && Size(t) >= 1 && (t.Match? ==> t.len >= 3)
    modifies dst
    ensures ok == Fits(t, old(dst[..op]), dst.Length)
    ensures if ok then next == op + Size(t) <= dst.Length && dst[..next] == Apply(t, old(dst[..op]))
            else next == op && dst[..] == old(dst[..])
  {
    match t
    case Run(bytes) =>
      if op + |bytes| > dst.Length { return false, op; }
      Copy(bytes, 0, dst, op, |bytes|);
      assert bytes[0..|bytes|] == bytes;
      return true, op + |bytes|;
    case Match(dist, len) =>
      if op + len > dst.Length || dist > op || dist < 1 { return false, op; }
      CopyMatch(dst, op, dist, len);
      return true, op + len;
  }

  /** FASTLZ_DECOMPRESSOR. C returns `op` when done and 0 when a check fails;
      a read past the end of the input, which C does not check for, is reported
      as Overrun. */
  method DecompressLevel(level: Level, src: seq<byte>, dst: array<byte>) returns (status: Status, op: nat)
    requires |src| >= 1
    modifies dst
    ensures op <= dst.Length
    ensures Outcome(dst[..op], status) == DecodeFrom(level, src, 0, [], dst.Length)
  {
    var ip := 0;
    op := 0;
    while ip < |src|
      invariant ip <= |src| && op <= dst.Length
      invariant DecodeFrom(level, src, 0, [], dst.Length) == DecodeFrom(level, src, ip, dst[..op], dst.Length)
      decreases |src| - ip
    {
      var r := NextToken(level, src, ip);
      Unfold(level, src, ip, dst[..op], dst.Length);
      match r {
        case Refused => return Rejected, op;
        case PastEnd => return Overrun, op;
        case Got(t, next) =>
          ghost var before := dst[..op];
          var ok, op' := Perform(t, dst, op);
          if !ok {
            assert dst[..op] == before;
            return Rejected, op;
          }
          ip, op := next, op';
      }
    }
    status := Done;
  }

  method NextToken(level: Level, src: seq<byte>, ip: nat) returns (r: Read)
    requires ip < |src|
    ensures r == ReadToken(level, src, ip)
  {
    var ctrl := if ip == 0 then src[0] % 32 else src[ip];
    if ctrl >= 32 {
      r := ParseMatch(level, src, ip + 1, ctrl);
    } else if ip + 1 + ctrl + 1 > |src| {
      r := Refused;
    } else {
      r := Got(Run(src[ip + 1..ip + 2 + ctrl]), ip + 2 + ctrl);
    }
  }

  lemma Unfold(level: Level, src: seq<byte>, ip: nat, out: seq<byte>, limit: nat)
    requires ip < |src|
    ensures var r := ReadToken(level, src, ip);
      DecodeFrom(level, src, ip, out, limit) ==
      if r.Refused? then Outcome(out, Rejected)
      else if r.PastEnd? then Outcome(out, Overrun)
      else if Fits(r.tok, out, limit) then DecodeFrom(level, src, r.next, Apply(r.tok, out), limit)
      else Outcome(out, Rejected)
  {
  }

  /** fastlz_decompress. */
  method Decompress(src: seq<byte>, dst: array<byte>) returns (status: Status, op: nat)
    requires |src| >= 1
    modifies dst
    ensures op <= dst.Length
    ensures Outcome(dst[..op], status) == Decode(src, dst.Length)
  {
    var level := src[0] / 32 + 1;
    if level == 1 {
      status, op := DecompressLevel(One, src, dst);
    } else if level == 2 {
      status, op := DecompressLevel(Two, src, dst);
    } else {
      status, op := Rejected, 0;
    }
  }
}
