/** What both LZ decoders share: a back-reference repeats earlier output. */
module Lz {
  import opened Bytes

  /** `out` followed by `len` bytes, each equal to the one `dist` before it.
      The reference is allowed to overlap what it produces. */
  function Copied(out: seq<byte>, dist: nat, len: nat): (r: seq<byte>)
    requires 1 <= dist <= |out|
    ensures |r| == |out| + len
  {
    if len == 0 then out
    else
      var r := Copied(out, dist, len - 1);
      r + [r[|r| - dist]]
  }

  /** `s` repeats with the given distance over [from, upTo). */
  ghost predicate Periodic(s: seq<byte>, dist: nat, from: nat, upTo: nat) {
    1 <= dist <= from && upTo <= |s| &&
    forall i :: from <= i < upTo ==> s[i] == s[i - dist]
  }

  /** A copy is the only way to extend `out` periodically. */
  lemma {:induction false} CopiedUnique(s: seq<byte>, dist: nat, from: nat, upTo: nat)
    requires from <= upTo && Periodic(s, dist, from, upTo)
    ensures s[..upTo] == Copied(s[..from], dist, upTo - from)
    decreases upTo
  {
    if from < upTo {
      CopiedUnique(s, dist, from, upTo - 1);
      assert s[..upTo] == s[..upTo - 1] + [s[upTo - 1]];
      assert s[upTo - 1] == s[..upTo - 1][upTo - 1 - dist];
    }
  }

  lemma {:induction false} CopiedKeeps(out: seq<byte>, dist: nat, len: nat)
    requires 1 <= dist <= |out|
    ensures Copied(out, dist, len)[..|out|] == out
  {
    if len > 0 {
      CopiedKeeps(out, dist, len - 1);
      var r := Copied(out, dist, len - 1);
      assert (r + [r[|r| - dist]])[..|out|] == r[..|out|];
    }
  }

  lemma {:induction false} CopiedPeriodic(out: seq<byte>, dist: nat, len: nat)
    requires 1 <= dist <= |out|
    ensures Periodic(Copied(out, dist, len), dist, |out|, |out| + len)
  {
    if len > 0 {
      CopiedPeriodic(out, dist, len - 1);
    }
  }

  /** A length continued over bytes: 255s, then one smaller byte. */
  function Ext(n: nat): (s: seq<byte>)
    ensures |s| == n / 255 + 1
  {
    if n < 255 then [n] else [255] + Ext(n - 255)
  }

  lemma ShorterPeriodic(s: seq<byte>, dist: nat, from: nat, upTo: nat, less: nat)
    requires Periodic(s, dist, from, upTo) && less <= upTo
    ensures Periodic(s, dist, from, less)
  {
  }

  /** A slot of a compressor's hash table. Which slot a position hashes to is
      left open everywhere. */
  const HASH_SIZE: nat := 8192
  type Slot = h: nat | h < HASH_SIZE

  // ----- writing into a buffer -----

  method EmitByte(dst: array<byte>, op: nat, b: byte) returns (op': nat)
    requires op < dst.Length
    modifies dst
    ensures op' == op + 1 && dst[..op'] == old(dst[..op]) + [b]
  {
    dst[op] := b;
    op' := op + 1;
  }

  method EmitExt(dst: array<byte>, op0: nat, n: nat) returns (op: nat)
    requires op0 + |Ext(n)| <= dst.Length
    modifies dst
    ensures op == op0 + |Ext(n)|
    ensures dst[..op] == old(dst[..op0]) + Ext(n)
  {
    op := op0;
    var len := n;
    while len >= 255
      invariant 0 <= len && op0 <= op && op + |Ext(len)| == op0 + |Ext(n)|
      invariant dst[..op] + Ext(len) == old(dst[..op0]) + Ext(n)
    {
      op := EmitByte(dst, op, 255);
      len := len - 255;
    }
    op := EmitByte(dst, op, len);
  }

  /** LZ4_wildCopy of literals; up to seven bytes more are read and written,
      eight when there are none. */
  method CopyLiterals(input: seq<byte>, ip: nat, dst: array<byte>, op: nat, len: nat)
    requires ip + len + 8 <= |input| && op + len + 8 <= dst.Length
    modifies dst
    ensures dst[..op + len] == old(dst[..op]) + input[ip..ip + len]
  {
    var d, s := op, ip;
    ghost var before := dst[..op];
    var more := true;
    while more
      invariant d - op == s - ip && op <= d <= op + len + 8
      invariant more <==> d == op || d < op + len
      invariant dst[..d] == before + input[ip..s]
      decreases more, op + len - d
    {
      Copy(input, s, dst, d, 8);
      SliceOn(input, ip, s, 8);
      Assoc(before, input[ip..s], input[s..s + 8]);
      d, s := d + 8, s + 8;
      more := d < op + len;
    }
    FirstOf(dst[..d], before, input[ip..s], len);
    assert dst[..op + len] == dst[..d][..op + len];
    assert input[ip..ip + len] == input[ip..s][..len];
  }

  lemma SliceOn(s: seq<byte>, a: nat, b: nat, n: nat)
    requires a <= b && b + n <= |s|
    ensures s[a..b + n] == s[a..b] + s[b..b + n]
  {
  }

  lemma Assoc(a: seq<byte>, b: seq<byte>, c: seq<byte>)
    ensures (a + b) + c == a + (b + c)
  {
  }

  lemma FirstOf(all: seq<byte>, a: seq<byte>, b: seq<byte>, n: nat)
    requires all == a + b && n <= |b|
    ensures all[..|a| + n] == a + b[..n]
  {
  }

  method Copy(input: seq<byte>, ip: nat, dst: array<byte>, op: nat, len: nat)
    requires ip + len <= |input| && op + len <= dst.Length
    modifies dst
    ensures dst[..op + len] == old(dst[..op]) + input[ip..ip + len]
  {
    forall k | 0 <= k < len {
      dst[op + k] := input[ip + k];
    }
  }

  /** As many bytes of 255 as go into the number, and then the rest of it. */
  lemma {:induction false} ExtIs(n: nat)
    ensures |Ext(n)| == n / 255 + 1 && Ext(n)[n / 255] == n % 255
    ensures forall i :: 0 <= i < n / 255 ==> Ext(n)[i] == 255
    decreases n
  {
    if n >= 255 { ExtIs(n - 255); }
  }
}
