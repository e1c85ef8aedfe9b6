/** The decompressor of src/fst/lz4.c, working in place on its output buffer
    and copying four or eight bytes at a time, overshooting where it may. */
module Lz4Decompress {
  import opened Bytes
  import opened Lz
  import opened Lz4Format

  // ----- why a copy from further back is as good -----

  ghost predicate MultipleOf(far: nat, dist: nat) {
    1 <= dist <= far && (far == dist || MultipleOf(far - dist, dist))
  }

  lemma {:induction false} Repeats(s: seq<byte>, dist: nat, from: nat, upTo: nat, far: nat, i: nat)
    requires Periodic(s, dist, from, upTo) && MultipleOf(far, dist)
    requires far <= i < upTo && from + far <= i + dist
    ensures s[i] == s[i - far]
    decreases far
  {
    if far > dist {
      Repeats(s, dist, from, upTo, far - dist, i);
    }
  }

  /** Extending a periodic stretch by bytes taken `far` back, any multiple of
      the period, all at once. */
  lemma FarCopy(s: seq<byte>, dist: nat, from: nat, d: nat, far: nat, width: nat, after: seq<byte>)
    requires Periodic(s, dist, from, d) && MultipleOf(far, dist)
    requires width <= far <= d && from + far <= d + dist && d + width <= |s| == |after|
    requires forall i :: 0 <= i < d ==> after[i] == s[i]
    requires forall i :: d <= i < d + width ==> after[i] == s[i - far]
    ensures Periodic(after, dist, from, d + width)
  {
    hide MultipleOf;
    forall i | from <= i < d + width ensures after[i] == after[i - dist] {
      if i >= d {
        MultipleAtLeast(far, dist);
        if i - dist < d {
          if far > dist {
            MultipleLess(far, dist);
            Repeats(s, dist, from, d, far - dist, i - dist);
          }
        } else {
          assert s[i - far] == s[i - far - dist];
        }
      }
    }
  }

  lemma MultipleAtLeast(far: nat, dist: nat)
    requires MultipleOf(far, dist)
    ensures far >= dist >= 1
  {
  }

  lemma MultipleLess(far: nat, dist: nat)
    requires MultipleOf(far, dist) && far > dist
    ensures MultipleOf(far - dist, dist)
  {
  }

  /** dec32table, for a real offset. */
  function Dec32(offset: nat): nat
    requires 1 <= offset < 8
  {
    [4, 1, 2, 1, 4, 4, 4, 4][offset]
  }

  /** dec64table. */
  function Dec64(offset: nat): int
    requires 1 <= offset < 8
  {
    [0, 0, 0, -1, 0, 1, 2, 3][offset]
  }

  /** After the four single bytes the source moves to a distance of at least
      four, and after the next four to one of at least eight; both are
      multiples of the offset. */
  lemma TableDistances(offset: nat)
    requires 1 <= offset < 8
    ensures var near := offset + 4 - Dec32(offset);
      4 <= near <= offset + 4 && MultipleOf(near, offset)
    ensures var far := offset + 8 - Dec32(offset) + Dec64(offset);
      8 <= far <= offset + 7 && MultipleOf(far, offset)
  {
    var o := offset;
    assert MultipleOf(o, o) && MultipleOf(2 * o, o) && MultipleOf(3 * o, o) && MultipleOf(4 * o, o);
    assert MultipleOf(5 * o, o) && MultipleOf(6 * o, o) && MultipleOf(7 * o, o) && MultipleOf(8 * o, o);
  }

  // ----- the copies -----

  /** memcpy of `width` bytes inside the buffer, read before written. */
  method CopyBlock(dst: array<byte>, d: nat, m: nat, width: nat, ghost dist: nat, ghost from: nat)
    requires m + width <= d && d + width <= dst.Length
    requires Periodic(dst[..], dist, from, d) && MultipleOf(d - m, dist) && from + (d - m) <= d + dist
    modifies dst
    ensures dst[..d] == old(dst[..d]) && Periodic(dst[..], dist, from, d + width)
  {
    hide MultipleOf;
    forall k | 0 <= k < width {
      dst[d + k] := dst[m + k];
    }
    FarCopy(old(dst[..]), dist, from, d, d - m, width, dst[..]);
  }

  /** LZ4_wildCopy inside the buffer: eight bytes at a time until `e` is
      reached or passed by up to seven. */
  method WildCopy(dst: array<byte>, d0: nat, m0: nat, e: nat, ghost dist: nat, ghost from: nat) returns (d: nat)
    requires m0 + 8 <= d0 && d0 + 8 <= dst.Length && e + 7 <= dst.Length
    requires Periodic(dst[..], dist, from, d0) && MultipleOf(d0 - m0, dist) && from + (d0 - m0) <= d0 + dist
    modifies dst
    ensures dst[..d0] == old(dst[..d0])
    ensures d0 <= d <= dst.Length && e <= d && Periodic(dst[..], dist, from, d)
  {
    hide Periodic, MultipleOf;
    var m := m0;
    d := d0;
    CopyBlock(dst, d, m, 8, dist, from);
    d, m := d + 8, m + 8;
    while d < e
      invariant d0 <= d && d - m == d0 - m0 && m0 <= m && d <= dst.Length
      invariant dst[..d0] == old(dst[..d0])
      invariant Periodic(dst[..], dist, from, d)
    {
      ghost var before := dst[..d];
      CopyBlock(dst, d, m, 8, dist, from);
      assert dst[..d0] == dst[..d][..d0] == before[..d0];
      d, m := d + 8, m + 8;
    }
  }

  /** The first eight bytes of a match, and where the source stands then. */
  method FirstEight(dst: array<byte>, op: nat, offset: nat) returns (m: nat)
    requires 1 <= offset <= op && op + 8 <= dst.Length
    modifies dst
    ensures dst[..op] == old(dst[..op]) && Periodic(dst[..], offset, op, op + 8)
    ensures m + 8 <= op + 8 && MultipleOf(op + 8 - m, offset) && op + (op + 8 - m) <= op + 8 + offset
  {
    hide MultipleOf;
    m := op - offset;
    if offset < 8 {
      TableDistances(offset);
      FourBytes(dst, op, offset);
      m := m + Dec32(offset);
      ghost var before := dst[..op + 4];
      CopyBlock(dst, op + 4, m, 4, offset, op);
      assert dst[..op] == dst[..op + 4][..op] == before[..op];
      m := m - Dec64(offset);
    } else {
      SelfMultiple(offset);
      CopyBlock(dst, op, m, 8, offset, op);
      m := m + 8;
    }
  }

  lemma SelfMultiple(dist: nat)
    requires dist >= 1
    ensures MultipleOf(dist, dist)
  {
  }

  /** The first four bytes of a close match, one after the other, so that each may
      repeat one just written. */
  method FourBytes(dst: array<byte>, op: nat, offset: nat)
    requires 1 <= offset <= op && op + 4 <= dst.Length
    modifies dst
    ensures dst[..op] == old(dst[..op]) && Periodic(dst[..], offset, op, op + 4)
  {
    dst[op] := dst[op - offset];
    dst[op + 1] := dst[op + 1 - offset];
    dst[op + 2] := dst[op + 2 - offset];
    dst[op + 3] := dst[op + 3 - offset];
  }

  /** The last bytes of a match near the end of the buffer, one by one. */
  method CopyBytes(dst: array<byte>, d0: nat, m0: nat, cpy: nat, ghost dist: nat, ghost from: nat)
    requires m0 < d0 <= cpy <= dst.Length
    requires Periodic(dst[..], dist, from, d0) && MultipleOf(d0 - m0, dist) && from + (d0 - m0) <= d0 + dist
    modifies dst
    ensures dst[..d0] == old(dst[..d0]) && Periodic(dst[..], dist, from, cpy)
  {
    hide Periodic, MultipleOf;
    var d, m := d0, m0;
    while d < cpy
      invariant d0 <= d <= cpy && d - m == d0 - m0 && m0 <= m
      invariant dst[..d0] == old(dst[..d0])
      invariant Periodic(dst[..], dist, from, d)
    {
      ghost var before := dst[..d];
      CopyBlock(dst, d, m, 1, dist, from);
      assert dst[..d0] == dst[..d][..d0] == before[..d0];
      d, m := d + 1, m + 1;
    }
  }

  /** The repeated sequence: the same bytes as copying one at a time. */
  method CopyMatch(dst: array<byte>, op: nat, offset: nat, len: nat)
    requires 1 <= offset <= op && len >= MINMATCH
    requires op + MFLIMIT <= dst.Length && op + len + LASTLITERALS <= dst.Length
    modifies dst
    ensures dst[..op + len] == Copied(old(dst[..op]), offset, len)
  {
    hide Periodic, MultipleOf;
    ghost var before := dst[..op];
    var match_ := FirstEight(dst, op, offset);
    CopyRest(dst, op + 8, match_, op + len, offset, op);
    CopiedUnique(dst[..], offset, op, op + len);
    assert dst[..][..op] == dst[..op] == before;
    assert dst[..][..op + len] == dst[..op + len];
  }

  /** What follows the first eight bytes, near the end of the buffer or not. */
  method CopyRest(dst: array<byte>, d0: nat, m0: nat, cpy: nat, ghost dist: nat, ghost from: nat)
    requires m0 + 8 <= d0 && from <= d0 && d0 + 4 <= dst.Length && cpy + LASTLITERALS <= dst.Length
    requires cpy + 4 >= d0
    requires Periodic(dst[..], dist, from, d0) && MultipleOf(d0 - m0, dist) && from + (d0 - m0) <= d0 + dist
    modifies dst
    ensures dst[..from] == old(dst[..from]) && Periodic(dst[..], dist, from, cpy)
  {
    hide Periodic, MultipleOf;
    ghost var start := dst[..d0];
    var d, m := d0, m0;
    if cpy + 12 > dst.Length {
      if d + 8 < dst.Length {
        var passed := WildCopy(dst, d, m, dst.Length - 8, dist, from);
        m := m + (dst.Length - 8 - d);
        d := dst.Length - 8;
        ShorterPeriodic(dst[..], dist, from, passed, d);
        assert dst[..d0] == start;
      }
      if d < cpy {
        CopyBytes(dst, d, m, cpy, dist, from);
        assert dst[..d0] == dst[..d][..d0];
      } else {
        ShorterPeriodic(dst[..], dist, from, d, cpy);
      }
    } else {
      var passed := WildCopy(dst, d, m, cpy, dist, from);
      ShorterPeriodic(dst[..], dist, from, passed, cpy);
    }
    assert dst[..from] == dst[..d0][..from] == start[..from];
  }

  method ParseRun(src: seq<byte>, ip0: nat) returns (r: Length)
    requires ip0 < |src|
    ensures r == ReadRun(src, ip0)
  {
    var ip := ip0;
    var token := src[ip];
    ip := ip + 1;
    var length: nat := token / 16;
    if length == RUN_MASK {
      var more := true;
      while more
        invariant ip0 < ip <= |src| && 0 <= length
        invariant ReadRun(src, ip0) == if more then ReadRunBytes(src, ip, length) else Length(length, ip)
        decreases more, |src| - ip
      {
        if ip == |src| { return Cut; }
        var s := src[ip];
        ip, length := ip + 1, length + s;
        more := ip + RUN_MASK < |src| && s == 255;
      }
    }
    r := Length(length, ip);
  }

  method ParseRepeat(src: seq<byte>, ip0: nat, token: byte, produced: nat) returns (r: Repeat)
    requires ip0 + 2 <= |src|
    ensures r == ReadRepeat(src, ip0, token, produced)
  {
    var offset := src[ip0] as int + 256 * (src[ip0 + 1] as int);
    var ip := ip0 + 2;
    if offset > produced { return Bad(ip); }
    var length: nat := token % 16;
    if length == ML_MASK {
      length := length + MINMATCH;
      var more := true;
      while more
        invariant ip0 + 2 <= ip && 0 <= length
        invariant ReadRepeat(src, ip0, token, produced)
               == if more then ReadMatchBytes(src, ip, offset, length) else Repeat(offset, length, ip)
        decreases more, |src| + 1 - ip
      {
        if ip + LASTLITERALS > |src| { return Bad(ip); }
        var s := src[ip];
        ip, length := ip + 1, length + s;
        more := s == 255;
      }
    } else {
      length := length + MINMATCH;
    }
    r := Repeat(offset, length, ip);
  }

  /** One sequence, or the last run; `op` is where output ends. */
  method Perform(src: seq<byte>, ip: nat, dst: array<byte>, op0: nat)
    returns (stop: bool, status: Status, next: nat, op: nat)
    requires ip < |src| && op0 <= dst.Length
    modifies dst
    ensures op <= dst.Length
    ensures stop ==> DecodeFrom(src, ip, old(dst[..op0]), dst.Length) == Outcome(dst[..op], status)
    ensures !stop ==> ip < next <= |src|
    ensures !stop ==> DecodeFrom(src, ip, old(dst[..op0]), dst.Length) == DecodeFrom(src, next, dst[..op], dst.Length)
  {
    hide ReadRun, AfterRun;
    ghost var out := dst[..op0];
    var run := ParseRun(src, ip);
    if run.Cut? { return true, Overrun, ip, op0; }
    if IsLastRun(src, run.next, run.len, op0, dst.Length) {
      if op0 + run.len > dst.Length || run.next + run.len > |src| { return true, Error(run.next), ip, op0; }
      Copy(src, run.next, dst, op0, run.len);
      return true, Done, ip, op0 + run.len;
    }
    CopyLiterals(src, run.next, dst, op0, run.len);
    op := op0 + run.len;
    stop, status, next, op := PerformRepeat(src, run.next + run.len, src[ip], dst, op);
  }

  method PerformRepeat(src: seq<byte>, ip: nat, token: byte, dst: array<byte>, op0: nat)
    returns (stop: bool, status: Status, next: nat, op: nat)
    requires ip + 2 <= |src| && op0 + MFLIMIT <= dst.Length
    modifies dst
    ensures op <= dst.Length
    ensures stop ==> AfterRun(src, ip, token, old(dst[..op0]), dst.Length) == Outcome(dst[..op], status)
    ensures !stop ==> ip < next <= |src|
    ensures !stop ==> AfterRun(src, ip, token, old(dst[..op0]), dst.Length) == DecodeFrom(src, next, dst[..op], dst.Length)
  {
    hide ReadRepeat, DecodeFrom;
    var m := ParseRepeat(src, ip, token, op0);
    if m.Bad? { return true, Error(m.at), ip, op0; }
    LongEnough(src, ip, token, op0);
    if op0 + m.len + LASTLITERALS > dst.Length { return true, Error(m.next), ip, op0; }
    if m.offset == 0 { return true, Undefined, ip, op0; }
    CopyMatch(dst, op0, m.offset, m.len);
    return false, Done, m.next, op0 + m.len;
  }

  lemma LongEnough(src: seq<byte>, ip: nat, token: byte, produced: nat)
    requires ip + 2 <= |src|
    ensures var m := ReadRepeat(src, ip, token, produced); m.Repeat? ==> m.len >= MINMATCH
  {
    MatchBytesGrow(src, ip + 2, src[ip] as int + 256 * (src[ip + 1] as int), ML_MASK + MINMATCH);
  }

  lemma MatchBytesGrow(src: seq<byte>, ip: nat, offset: nat, len: nat)
    ensures var m := ReadMatchBytes(src, ip, offset, len); m.Repeat? ==> m.len >= len
    decreases |src| - ip
  {
  }

  /** LZ4_decompress_safe_partial with target and capacity dst.Length. */
  method Decompress(src: seq<byte>, dst: array<byte>) returns (status: Status, op: nat)
    modifies dst
    ensures op <= dst.Length
    ensures Outcome(dst[..op], status) == Decode(src, dst.Length)
  {
    hide DecodeFrom;
    op := 0;
    if dst.Length == 0 {
      return if |src| == 1 && src[0] == 0 then Done else Error(0), 0;
    }
    var ip := 0;
    while ip < |src|
      invariant ip <= |src| && op <= dst.Length
      invariant DecodeFrom(src, 0, [], dst.Length) == DecodeFrom(src, ip, dst[..op], dst.Length)
      decreases |src| - ip
    {
      var stop, next;
      stop, status, next, op := Perform(src, ip, dst, op);
      if stop { return; }
      ip := next;
    }
    NothingLeft(src, dst[..op], dst.Length);
    status := Overrun;
  }

  lemma NothingLeft(src: seq<byte>, out: seq<byte>, cap: nat)
    ensures DecodeFrom(src, |src|, out, cap) == Outcome(out, Overrun)
  {
  }
}
