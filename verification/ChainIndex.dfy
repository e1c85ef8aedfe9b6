/** The chain index of a block in src/fst/fstapi.c: where each signal's chain is
    stored, as a zero (no changes), a position, or a reference to an earlier
    signal with the same chain. Positions are written as differences, zeros as
    counts, and a reference equal to the one before it as a single byte.

    An entry is what valpos_mem[4*i+2] holds once the chains are out, read as a
    32-bit signed integer: 0, a position, or -(j+1) for the chain of signal j. */
module ChainIndex {
  import opened Bytes
  import Varint

  /** Positions increase, and a reference is to an earlier signal that has a
      position of its own. */
  ghost predicate WellFormed(entries: seq<int>, total: nat) {
    && |entries| < 0x4000_0000 && total < TWO_32 / 2
    && (forall i :: 0 <= i < |entries| && entries[i] > 0 ==> entries[i] < total)
    && (forall i, j :: 0 <= i < j < |entries| && entries[i] > 0 && entries[j] > 0 ==> entries[i] < entries[j])
    && (forall i :: 0 <= i < |entries| && entries[i] < 0 ==>
          -entries[i] - 1 < i && entries[-entries[i] - 1] > 0)
  }

  /** The first position of all is 1: the area begins with the byte of the pack type. */
  ghost predicate StartsAtOne(entries: seq<int>, total: nat) {
    var f := FirstPos(entries, |entries|);
    (if f < |entries| then entries[f] else total) == 1
  }

  // ----- writing -----

  function ZeroRun(count: nat): seq<byte> {
    if count > 0 then Varint.Encode(2 * count) else []
  }

  /** One stored chain, after position `prevpos` and reference `prevAlias`. */
  function Item(e: int, prevpos: nat, prevAlias: int): seq<byte> {
    if e > 0 then Varint.EncodeSigned(2 * (e - prevpos) + 1)
    else if e != prevAlias then Varint.EncodeSigned(2 * e + 1)
    else Varint.EncodeSigned(1)
  }

  function EncodeFrom(entries: seq<int>, i: nat, zeros: nat, prevpos: nat, prevAlias: int): seq<byte>
    requires i <= |entries|
    decreases |entries| - i
  {
    if i == |entries| then ZeroRun(zeros)
    else if entries[i] == 0 then EncodeFrom(entries, i + 1, zeros + 1, prevpos, prevAlias)
    else
      ZeroRun(zeros) + Item(entries[i], prevpos, prevAlias) +
      EncodeFrom(entries, i + 1, 0, if entries[i] > 0 then entries[i] else prevpos,
                 if entries[i] < 0 then entries[i] else prevAlias)
  }

  function Encode(entries: seq<int>): seq<byte> {
    EncodeFrom(entries, 0, 0, 0, 0)
  }

  /** The loop over all handles that writes the index. */
  method WriteIndex(entries: seq<int>) returns (f: seq<byte>)
    ensures f == Encode(entries)
  {
    hide Item, ZeroRun;
    f := [];
    var zerocnt, prevpos, prevAlias: int := 0, 0, 0;
    var i := 0;
    while i < |entries|
      invariant 0 <= i <= |entries| && 0 <= zerocnt && 0 <= prevpos
      invariant f + EncodeFrom(entries, i, zerocnt, prevpos, prevAlias) == Encode(entries)
    {
      var e := entries[i];
      if e != 0 {
        ghost var done := f;
        var run, item := WriteItem(e, zerocnt, prevpos, prevAlias);
        f := f + run + item;
        Unroll(entries, i, zerocnt, prevpos, prevAlias, done, f);
        zerocnt := 0;
        if e < 0 { prevAlias := e; } else { prevpos := e; }
      } else {
        zerocnt := zerocnt + 1;
      }
      i := i + 1;
    }
    var run := WriteZeros(zerocnt);
    f := f + run;
  }

  method WriteZeros(zerocnt: nat) returns (run: seq<byte>)
    ensures run == ZeroRun(zerocnt)
  {
    run := [];
    if zerocnt != 0 {
      run := Varint.WriteVarint(zerocnt * 2);
    }
  }

  method WriteItem(e: int, zerocnt: nat, prevpos: nat, prevAlias: int) returns (run: seq<byte>, item: seq<byte>)
    requires e != 0
    ensures run == ZeroRun(zerocnt) && item == Item(e, prevpos, prevAlias)
  {
    run := WriteZeros(zerocnt);
    if e < 0 {
      item := Varint.WriteSVarint(if e != prevAlias then e * 2 + 1 else 1);
    } else {
      item := Varint.WriteSVarint((e - prevpos) * 2 + 1);
    }
  }

  lemma Unroll(entries: seq<int>, i: nat, zeros: nat, prevpos: nat, prevAlias: int, done: seq<byte>, f: seq<byte>)
    requires i < |entries| && entries[i] != 0
    requires f == done + ZeroRun(zeros) + Item(entries[i], prevpos, prevAlias)
    ensures done + EncodeFrom(entries, i, zeros, prevpos, prevAlias)
         == f + EncodeFrom(entries, i + 1, 0, if entries[i] > 0 then entries[i] else prevpos,
                           if entries[i] < 0 then entries[i] else prevAlias)
  {
    hide ZeroRun, Item;
  }

  // ----- reading: what the decoding loop does to its tables -----

  /** chain_table, chain_table_lengths (unsigned 32-bit), and the loop's variables. */
  datatype State = State(table: seq<int>, lengths: seq<nat>, idx: nat, pidx: nat, pval: nat, prevAlias: int)

  predicate StateOk(s: State, room: nat) {
    |s.table| == |s.lengths| && s.idx + room < |s.table| && s.pidx < |s.table|
  }

  function ToUint32(x: int): nat {
    x % 0x1_0000_0000
  }

  function ToInt32(x: nat): int {
    if x % 0x1_0000_0000 < 0x8000_0000 then x % 0x1_0000_0000 else x % 0x1_0000_0000 - 0x1_0000_0000
  }

  /** What one entry does. */
  function StepEntry(s: State, e: int): (r: State)
    requires StateOk(s, 0)
    ensures |r.table| == |s.table| && |r.lengths| == |s.lengths| && r.idx == s.idx + 1 && r.pidx < |r.table|
  {
    if e > 0 then
      var table := s.table[s.idx := e];
      var lengths := if s.idx > 0 then s.lengths[s.pidx := ToUint32(e - table[s.pidx])] else s.lengths;
      State(table, lengths, s.idx + 1, s.idx, e, s.prevAlias)
    else if e < 0 then
      State(s.table[s.idx := 0], s.lengths[s.idx := ToUint32(e)], s.idx + 1, s.pidx, s.pval, e)
    else s.(table := s.table[s.idx := 0], idx := s.idx + 1)
  }

  /** What the first `k` entries do. */
  function Run(s: State, entries: seq<int>, k: nat): (r: State)
    requires k <= |entries| && StateOk(s, |entries|)
    ensures |r.table| == |s.table| && |r.lengths| == |s.lengths| && r.idx == s.idx + k && r.pidx < |r.table|
  {
    if k == 0 then s else StepEntry(Run(s, entries, k - 1), entries[k - 1])
  }

  /** The end of the chains as one position more, and with it the last chain's length. */
  function Close(s: State, total: nat): (r: State)
    requires StateOk(s, 0)
    ensures |r.table| == |s.table| && |r.lengths| == |s.lengths| && r.idx == s.idx && r.pidx < |r.table|
  {
    var table := s.table[s.idx := total];
    s.(table := table, lengths := s.lengths[s.pidx := ToUint32(total - table[s.pidx])])
  }

  /** A length that reads as a reference to an earlier signal. */
  predicate Refers(length: nat, i: nat) {
    ToInt32(length) < 0 && -ToInt32(length) - 1 < i
  }

  /** The pass that follows references, over the first `k` signals. */
  function Resolve(table: seq<int>, lengths: seq<nat>, k: nat): (r: (seq<int>, seq<nat>))
    requires k <= |table| == |lengths|
    ensures |r.0| == |table| && |r.1| == |lengths|
    ensures forall i :: k <= i < |table| ==> r.0[i] == table[i] && r.1[i] == lengths[i]
  {
    if k == 0 then (table, lengths)
    else
      var (t, l) := Resolve(table, lengths, k - 1);
      var i := k - 1;
      if t[i] == 0 && Refers(l[i], i) then
        var j := -ToInt32(l[i]) - 1;
        (t[i := t[j]], l[i := l[j]])
      else (t, l)
  }

  // ----- the tables after the loop -----

  /** The first positive entry among the first `k`, or `k`. */
  function FirstPos(entries: seq<int>, k: nat): (f: nat)
    requires k <= |entries|
    ensures f <= k
    ensures f < k ==> entries[f] > 0
    ensures forall i :: 0 <= i < f ==> entries[i] <= 0
  {
    if k == 0 then 0
    else
      var f := FirstPos(entries, k - 1);
      if f < k - 1 || entries[k - 1] > 0 then f else k
  }

  /** The next position after that of signal `i`, or the end of the chains. */
  function NextPos(entries: seq<int>, i: nat, total: nat): int
    requires i < |entries|
    decreases |entries| - i
  {
    if i + 1 == |entries| then total
    else if entries[i + 1] > 0 then entries[i + 1]
    else NextPos(entries, i + 1, total)
  }

  lemma {:induction false} NextPosIs(entries: seq<int>, i: nat, j: nat, total: nat)
    requires i < j <= |entries| && (forall m :: i < m < j ==> entries[m] <= 0)
    requires j < |entries| ==> entries[j] > 0
    ensures NextPos(entries, i, total) == if j < |entries| then entries[j] else total
    decreases j - i
  {
    if i + 1 < j {
      NextPosIs(entries, i + 1, j, total);
    }
  }

  lemma {:induction false} RunTable(s: State, entries: seq<int>, k: nat)
    requires k <= |entries| && StateOk(s, |entries|) && s.idx == 0
    ensures var r := Run(s, entries, k);
      forall i :: 0 <= i < |r.table| ==>
        r.table[i] == if i < k then (if entries[i] > 0 then entries[i] else 0) else s.table[i]
    decreases k
  {
    hide ToUint32;
    if k > 0 { RunTable(s, entries, k - 1); }
  }

  /** pidx is the last signal with a position, or still the one from before. */
  lemma {:induction false} RunPidx(s: State, entries: seq<int>, k: nat)
    requires k <= |entries| && StateOk(s, |entries|) && s.idx == 0
    ensures var r := Run(s, entries, k);
      if FirstPos(entries, k) < k then
        r.pidx < k && entries[r.pidx] > 0 && forall m :: r.pidx < m < k ==> entries[m] <= 0
      else r.pidx == s.pidx
    decreases k
  {
    if k > 0 { RunPidx(s, entries, k - 1); }
  }

  /** What the length of a signal without changes is left at. Its own slot is
      not written, unless it is the slot `pidx` still names when the first
      position is met. */
  function StaleLength(s: State, entries: seq<int>, k: nat, i: nat): nat
    requires k <= |entries| && StateOk(s, |entries|) && i < |s.table|
  {
    var f := FirstPos(entries, k);
    if i == s.pidx && 0 < f < k then ToUint32(entries[f] - if i < f then 0 else s.table[i])
    else s.lengths[i]
  }

  lemma StepLengths(s: State, entries: seq<int>, k: nat, i: nat)
    requires 0 < k <= |entries| && StateOk(s, |entries|) && s.idx == 0 && i < |s.table|
    ensures var r, e := Run(s, entries, k - 1), entries[k - 1];
      Run(s, entries, k).lengths[i] ==
        if e > 0 && k > 1 && i == r.pidx then ToUint32(e - if i == k - 1 then e else r.table[i])
        else if e < 0 && i == k - 1 then ToUint32(e)
        else r.lengths[i]
    ensures Run(s, entries, k).pidx == if entries[k - 1] > 0 then k - 1 else Run(s, entries, k - 1).pidx
  {
    hide ToUint32;
  }

  lemma FirstPosStep(entries: seq<int>, k: nat)
    requires 0 < k <= |entries|
    ensures FirstPos(entries, k) ==
      if FirstPos(entries, k - 1) < k - 1 || entries[k - 1] > 0 then FirstPos(entries, k - 1) else k
  {
  }

  lemma {:induction false} RunLengthsUnused(s: State, entries: seq<int>, k: nat, i: nat)
    requires k <= |entries| && StateOk(s, |entries|) && s.idx == 0
    requires i < |s.table| && (i >= k || entries[i] == 0)
    ensures Run(s, entries, k).lengths[i] == StaleLength(s, entries, k, i)
    decreases k
  {
    if k > 0 {
      hide ToUint32, Run, FirstPos, StepEntry, StaleLength;
      RunLengthsUnused(s, entries, k - 1, i);
      StaleStep(s, entries, k, i);
      UnusedStep(s, entries, k, i);
    }
  }

  lemma UnusedStep(s: State, entries: seq<int>, k: nat, i: nat)
    requires 0 < k <= |entries| && StateOk(s, |entries|) && s.idx == 0
    requires i < |s.table| && (i >= k || entries[i] == 0)
    ensures Run(s, entries, k).lengths[i] ==
      if i == s.pidx && FirstPos(entries, k - 1) == k - 1 && entries[k - 1] > 0 && k > 1
      then ToUint32(entries[k - 1] - if i < k - 1 then 0 else s.table[i])
      else Run(s, entries, k - 1).lengths[i]
  {
    hide ToUint32, Run, FirstPos, StepEntry, StaleLength;
    StepLengths(s, entries, k, i);
    PidxOfUnused(s, entries, k, i);
  }

  lemma StaleStep(s: State, entries: seq<int>, k: nat, i: nat)
    requires 0 < k <= |entries| && StateOk(s, |entries|) && i < |s.table|
    ensures StaleLength(s, entries, k, i) ==
      if i == s.pidx && FirstPos(entries, k - 1) == k - 1 && entries[k - 1] > 0 && k > 1
      then ToUint32(entries[k - 1] - if i < k - 1 then 0 else s.table[i])
      else StaleLength(s, entries, k - 1, i)
  {
    hide ToUint32, FirstPos;
    FirstPosStep(entries, k);
  }

  /** A signal without changes is the last one seen only if it is the one left
      from before and no position was met yet. */
  lemma PidxOfUnused(s: State, entries: seq<int>, k: nat, i: nat)
    requires 0 < k <= |entries| && StateOk(s, |entries|) && s.idx == 0
    requires i < |s.table| && (i >= k || entries[i] == 0)
    ensures var r := Run(s, entries, k - 1);
      && (i == r.pidx <==> i == s.pidx && FirstPos(entries, k - 1) == k - 1)
      && r.table[i] == if i < k - 1 then 0 else s.table[i]
  {
    hide Run, FirstPos;
    RunPidx(s, entries, k - 1);
    RunTable(s, entries, k - 1);
  }

  lemma {:induction false} RunLengthsUsed(s: State, entries: seq<int>, k: nat, i: nat, total: nat)
    requires k <= |entries| && StateOk(s, |entries|) && s.idx == 0 && WellFormed(entries, total)
    requires i < k && entries[i] != 0
    ensures var r := Run(s, entries, k);
      && (entries[i] < 0 ==> r.lengths[i] == ToUint32(entries[i]))
      && (entries[i] > 0 && i != r.pidx ==> r.lengths[i] == ToUint32(NextPos(entries, i, total) - entries[i]))
    decreases k
  {
    hide ToUint32, WellFormed, Run, NextPos;
    RunPidx(s, entries, k - 1);
    RunTable(s, entries, k - 1);
    StepLengths(s, entries, k, i);
    if i < k - 1 {
      RunLengthsUsed(s, entries, k - 1, i, total);
      if entries[k - 1] > 0 && i == Run(s, entries, k - 1).pidx {
        NextPosIs(entries, i, k - 1, total);
      }
      if entries[i] < 0 { NoEarlierUse(entries, i, total); }
    } else {
      NoEarlierUse(entries, k - 1, total);
    }
  }

  /** The first entry of all is never a reference. */
  lemma NoEarlierUse(entries: seq<int>, k: nat, total: nat)
    requires k < |entries| && WellFormed(entries, total)
    ensures entries[k] < 0 ==> FirstPos(entries, k) < k
  {
    if entries[k] < 0 {
      assert entries[-entries[k] - 1] > 0;
    }
  }

  // ----- what the tables say in the end -----

  predicate SomePosition(entries: seq<int>) {
    FirstPos(entries, |entries|) < |entries|
  }

  /** The tables before references are followed. */
  function Loaded(s: State, entries: seq<int>, total: nat): (r: State)
    requires StateOk(s, |entries|)
    ensures |r.table| == |s.table| && |r.lengths| == |s.lengths| && r.pidx < |r.table|
  {
    Close(Run(s, entries, |entries|), total)
  }

  function Tables(s: State, entries: seq<int>, total: nat): (r: (seq<int>, seq<nat>))
    requires StateOk(s, |entries|)
    ensures |r.0| == |s.table| && |r.1| == |s.lengths|
  {
    var m := Loaded(s, entries, total);
    Resolve(m.table, m.lengths, |entries|)
  }

  /** Where the chain of signal `i` is stored: 0 if it has none. */
  function Where(entries: seq<int>, i: nat): int
    requires i < |entries| && (entries[i] < 0 ==> -entries[i] - 1 < |entries|)
  {
    if entries[i] < 0 then entries[-entries[i] - 1] else entries[i]
  }

  /** How many bytes are stored there. */
  function LengthOf(entries: seq<int>, i: nat, total: nat): int
    requires i < |entries| && (entries[i] < 0 ==> -entries[i] - 1 < |entries|)
  {
    var j := if entries[i] < 0 then -entries[i] - 1 else i;
    NextPos(entries, j, total) - entries[j]
  }

  lemma LoadedIs(s: State, entries: seq<int>, total: nat, i: nat)
    requires StateOk(s, |entries|) && s.idx == 0 && WellFormed(entries, total) && SomePosition(entries)
    requires i < |entries|
    ensures var r := Loaded(s, entries, total);
      && r.table[i] == (if entries[i] > 0 then entries[i] else 0)
      && (entries[i] == 0 ==> r.lengths[i] == StaleLength(s, entries, |entries|, i))
      && (entries[i] < 0 ==> r.lengths[i] == ToUint32(entries[i]))
      && (entries[i] > 0 ==> r.lengths[i] == ToUint32(NextPos(entries, i, total) - entries[i]))
  {
    hide ToUint32, Run, NextPos, WellFormed;
    var n := |entries|;
    RunTable(s, entries, n);
    RunPidx(s, entries, n);
    if entries[i] == 0 {
      RunLengthsUnused(s, entries, n, i);
    } else {
      RunLengthsUsed(s, entries, n, i, total);
      if i == Run(s, entries, n).pidx { NextPosIs(entries, i, n, total); }
    }
  }

  lemma {:induction false} NextPosBounds(entries: seq<int>, i: nat, total: nat)
    requires WellFormed(entries, total) && i < |entries|
    ensures forall j :: 0 <= j <= i && entries[j] > 0 ==> entries[j] < NextPos(entries, i, total)
    ensures NextPos(entries, i, total) <= total
    decreases |entries| - i
  {
    if i + 1 < |entries| {
      NextPosBounds(entries, i + 1, total);
    }
  }

  lemma WordsBack(x: int)
    ensures 0 <= x < 0x8000_0000 ==> ToUint32(x) == x && ToInt32(ToUint32(x)) == x
    ensures -0x8000_0000 <= x < 0 ==> ToInt32(ToUint32(x)) == x
  {
  }

  lemma ResolveStep(table: seq<int>, lengths: seq<nat>, k: nat)
    requires 0 < k <= |table| == |lengths|
    ensures var (t0, l0) := Resolve(table, lengths, k - 1);
      var (t, l) := Resolve(table, lengths, k);
      && (forall i :: 0 <= i < |table| && i != k - 1 ==> t[i] == t0[i] && l[i] == l0[i])
      && (table[k - 1] == 0 && Refers(lengths[k - 1], k - 1) ==>
            t[k - 1] == t0[-ToInt32(lengths[k - 1]) - 1] && l[k - 1] == l0[-ToInt32(lengths[k - 1]) - 1])
      && (!(table[k - 1] == 0 && Refers(lengths[k - 1], k - 1)) ==>
            t[k - 1] == table[k - 1] && l[k - 1] == lengths[k - 1])
  {
    hide ToInt32;
  }

  /** Signals with changes get their chain, own or referred to, whatever the
      tables held before. */
  lemma {:induction false} UsedResolved(s: State, entries: seq<int>, total: nat, k: nat, i: nat)
    requires StateOk(s, |entries|) && s.idx == 0 && WellFormed(entries, total) && SomePosition(entries)
    requires i < k <= |entries| && entries[i] != 0
    ensures var m := Loaded(s, entries, total);
      var (t, l) := Resolve(m.table, m.lengths, k);
      t[i] == Where(entries, i) && l[i] == LengthOf(entries, i, total)
    decreases k
  {
    hide ToUint32, ToInt32, Loaded, Resolve, NextPos, SomePosition;
    var m := Loaded(s, entries, total);
    ResolveStep(m.table, m.lengths, k);
    if i < k - 1 {
      UsedResolved(s, entries, total, k - 1, i);
    } else {
      LoadedIs(s, entries, total, i);
      NextPosBounds(entries, i, total);
      if entries[i] < 0 {
        WordsBack(entries[i]);
        UsedResolved(s, entries, total, k - 1, -entries[i] - 1);
      } else {
        WordsBack(NextPos(entries, i, total) - entries[i]);
      }
    }
  }

  /** What the tables held before makes signal `i`, which has no changes, look
      like a reference to one that has, or to one that is mistaken itself. */
  predicate Mistaken(s: State, entries: seq<int>, i: nat)
    requires i < |entries| && StateOk(s, |entries|)
    decreases i
  {
    var l := StaleLength(s, entries, |entries|, i);
    && entries[i] == 0 && Refers(l, i)
    && var j := -ToInt32(l) - 1;
       entries[j] != 0 || Mistaken(s, entries, j)
  }

  lemma {:induction false} UnusedResolved(s: State, entries: seq<int>, total: nat, k: nat, i: nat)
    requires StateOk(s, |entries|) && s.idx == 0 && WellFormed(entries, total) && SomePosition(entries)
    requires i < k <= |entries| && entries[i] == 0
    ensures var m := Loaded(s, entries, total);
      Resolve(m.table, m.lengths, k).0[i] == 0 <==> !Mistaken(s, entries, i)
    decreases k
  {
    hide ToUint32, ToInt32, Loaded, Resolve, StaleLength, SomePosition;
    var m := Loaded(s, entries, total);
    ResolveStep(m.table, m.lengths, k);
    if i < k - 1 {
      UnusedResolved(s, entries, total, k - 1, i);
    } else {
      LoadedIs(s, entries, total, i);
      var l := m.lengths[i];
      if Refers(l, i) {
        var j := -ToInt32(l) - 1;
        if entries[j] == 0 {
          UnusedResolved(s, entries, total, i, j);
        } else {
          UsedResolved(s, entries, total, i, j);
          WhereNonZero(entries, total, j);
        }
      }
    }
  }

  lemma WhereNonZero(entries: seq<int>, total: nat, j: nat)
    requires WellFormed(entries, total) && j < |entries| && entries[j] != 0
    ensures Where(entries, j) != 0
  {
  }

  /** A signal is found where the index says exactly when no leftover makes it
      look like a reference. */
  lemma DecodesExactly(s: State, entries: seq<int>, total: nat)
    requires StateOk(s, |entries|) && s.idx == 0 && WellFormed(entries, total) && SomePosition(entries)
    ensures forall i :: 0 <= i < |entries| ==>
      (Tables(s, entries, total).0[i] == Where(entries, i) <==> !Mistaken(s, entries, i))
    ensures forall i :: 0 <= i < |entries| && entries[i] != 0 ==>
      Tables(s, entries, total).0[i] == Where(entries, i) && Tables(s, entries, total).1[i] == LengthOf(entries, i, total)
  {
    hide Mistaken, Loaded, Resolve, Where, LengthOf, SomePosition;
    var n := |entries|;
    forall i | 0 <= i < n
      ensures Tables(s, entries, total).0[i] == Where(entries, i) <==> !Mistaken(s, entries, i)
      ensures entries[i] != 0 ==>
        Tables(s, entries, total).0[i] == Where(entries, i) && Tables(s, entries, total).1[i] == LengthOf(entries, i, total)
    {
      if entries[i] != 0 {
        UsedResolved(s, entries, total, n, i);
        UsedNotMistaken(s, entries, i);
      } else {
        UnusedResolved(s, entries, total, n, i);
        WhereZero(entries, i);
      }
    }
  }

  lemma UsedNotMistaken(s: State, entries: seq<int>, i: nat)
    requires i < |entries| && StateOk(s, |entries|) && entries[i] != 0
    ensures !Mistaken(s, entries, i)
  {
  }

  lemma WhereZero(entries: seq<int>, i: nat)
    requires i < |entries| && entries[i] == 0
    ensures Where(entries, i) == 0
  {
  }

  predicate Fresh(s: State) {
    && s.idx == 0 && s.pidx == 0
    && forall i :: 0 <= i < |s.lengths| ==> s.lengths[i] == 0
  }

  /** Nothing is mistaken in tables that were just allocated. */
  lemma FreshTables(s: State, entries: seq<int>, total: nat, i: nat)
    requires StateOk(s, |entries|) && Fresh(s) && WellFormed(entries, total) && i < |entries|
    ensures !Mistaken(s, entries, i)
  {
    hide FirstPos;
    var f := FirstPos(entries, |entries|);
    if f < |entries| {
      FirstPosFound(entries);
      WordsBack(entries[f]);
    }
  }

  lemma FirstPosFound(entries: seq<int>)
    ensures var f := FirstPos(entries, |entries|); f < |entries| ==> entries[f] > 0
  {
  }

  /** The iterating reader keeps its tables from block to block. With three
      signals, when the first block stored chains for signals 0 and 2 (at 1 and
      3), and in the second only signal 1 changes, signal 2 is given signal 1's
      chain. */
  lemma StaleTables()
    ensures var s := State([1, 0, 3, 5], [2, 0, 2, 0], 0, 2, 0, 0);
      var entries := [0, 1, 0];
      && StateOk(s, 3) && WellFormed(entries, 3) && SomePosition(entries)
      && Mistaken(s, entries, 2) && Tables(s, entries, 3).0[2] == 1
  {
    var s := State([1, 0, 3, 5], [2, 0, 2, 0], 0, 2, 0, 0);
    var entries := [0, 1, 0];
    assert FirstPos(entries, 1) == 1 && FirstPos(entries, 2) == 1;
    assert StaleLength(s, entries, 3, 2) == ToUint32(-2);
    WordsBack(-2);
    FirstNotMistaken(s, entries);
    UnusedResolved(s, entries, 3, 3, 2);
    var m := Loaded(s, entries, 3);
    ResolveStep(m.table, m.lengths, 3);
    LoadedIs(s, entries, 3, 2);
    UsedResolved(s, entries, 3, 2, 1);
  }

  lemma FirstNotMistaken(s: State, entries: seq<int>)
    requires StateOk(s, |entries|) && |entries| > 1 && entries[1] != 0
    ensures !Mistaken(s, entries, 0) && !Mistaken(s, entries, 1)
  {
  }

  /** The tables of StaleTables are what the first block leaves. */
  lemma FirstBlockTables()
    ensures var s := State([0, 0, 0, 0], [0, 0, 0, 0], 0, 0, 0, 0);
      && Fresh(s) && StateOk(s, 3)
      && Tables(s, [1, 0, 3], 5) == ([1, 0, 3, 5], [2, 0, 2, 0])
      && Loaded(s, [1, 0, 3], 5).pidx == 2
  {
    hide Run, Resolve, ToUint32, Refers;
    var s := State([0, 0, 0, 0], [0, 0, 0, 0], 0, 0, 0, 0);
    var e := [1, 0, 3];
    FirstBlockRun();
    WordsBack(2);
    var m := Loaded(s, e, 5);
    assert m.table == [1, 0, 3, 5] && m.lengths == [2, 0, 2, 0];
    SmallNotReference(2, 0);
    SmallNotReference(0, 1);
    SmallNotReference(2, 2);
    ResolveNothing(m.table, m.lengths, 3);
  }

  lemma FirstBlockRun()
    ensures var s, e := State([0, 0, 0, 0], [0, 0, 0, 0], 0, 0, 0, 0), [1, 0, 3];
      Run(s, e, 3) == State([1, 0, 3, 0], [2, 0, 0, 0], 3, 2, 3, 0)
  {
    var s := State([0, 0, 0, 0], [0, 0, 0, 0], 0, 0, 0, 0);
    var e := [1, 0, 3];
    assert Run(s, e, 1) == State([1, 0, 0, 0], [0, 0, 0, 0], 1, 0, 1, 0);
    assert Run(s, e, 2) == State([1, 0, 0, 0], [0, 0, 0, 0], 2, 0, 1, 0);
  }

  lemma SmallNotReference(length: nat, i: nat)
    requires length < 0x8000_0000
    ensures !Refers(length, i)
  {
    WordsBack(length);
  }

  lemma {:induction false} ResolveNothing(table: seq<int>, lengths: seq<nat>, k: nat)
    requires k <= |table| == |lengths|
    requires forall i :: 0 <= i < k ==> table[i] != 0 || !Refers(lengths[i], i)
    ensures Resolve(table, lengths, k) == (table, lengths)
  {
    if k > 0 { ResolveNothing(table, lengths, k - 1); }
  }

  // ----- what is left over -----

  /** Nothing in the tables is taken for a reference of signal `i`, which either
      has changes or is left a length that refers to no signal before it. */
  predicate Quiet(s: State, entries: seq<int>, i: nat)
    requires i < |entries| && StateOk(s, |entries|)
  {
    entries[i] != 0 || !Refers(StaleLength(s, entries, |entries|, i), i)
  }

  /** The length of a signal without changes stays, if it refers to no signal
      before it. */
  lemma {:induction false} UnusedLength(s: State, entries: seq<int>, total: nat, k: nat, i: nat)
    requires StateOk(s, |entries|) && s.idx == 0 && WellFormed(entries, total) && SomePosition(entries)
    requires i < k <= |entries| && entries[i] == 0 && !Refers(StaleLength(s, entries, |entries|, i), i)
    ensures var m := Loaded(s, entries, total);
      Resolve(m.table, m.lengths, k).1[i] == StaleLength(s, entries, |entries|, i)
    decreases k
  {
    hide Refers, Loaded, Resolve, StaleLength, SomePosition, WellFormed;
    var m := Loaded(s, entries, total);
    ResolveStep(m.table, m.lengths, k);
    LoadedIs(s, entries, total, i);
    if i < k - 1 { UnusedLength(s, entries, total, k - 1, i); }
  }

  lemma LengthSmall(entries: seq<int>, i: nat, total: nat)
    requires WellFormed(entries, total) && i < |entries| && entries[i] != 0
    ensures 0 < LengthOf(entries, i, total) < 0x8000_0000
  {
    var j := if entries[i] < 0 then -entries[i] - 1 else i;
    NextPosBounds(entries, j, total);
  }

  /** A quiet signal is not mistaken, and what is left of it for the next block
      refers to no signal before it. */
  lemma QuietStays(s: State, entries: seq<int>, total: nat, i: nat)
    requires StateOk(s, |entries|) && s.idx == 0 && WellFormed(entries, total) && SomePosition(entries)
    requires i < |entries| && Quiet(s, entries, i)
    ensures !Mistaken(s, entries, i) && !Refers(Tables(s, entries, total).1[i], i)
  {
    hide Refers, Loaded, Resolve, StaleLength, SomePosition, LengthOf;
    if entries[i] == 0 {
      UnusedLength(s, entries, total, |entries|, i);
    } else {
      UsedResolved(s, entries, total, |entries|, i);
      LengthSmall(entries, i, total);
      SmallNotReference(LengthOf(entries, i, total), i);
    }
  }

  /** The one signal whose length is overwritten, if it is left over: the last one
      that was stored before. Where it was, less where the first one is now, is
      what it is taken to refer to. */
  predicate Overtaken(s: State, entries: seq<int>, i: nat)
    requires |entries| <= |s.table|
  {
    i == s.pidx && 0 < FirstPos(entries, |entries|) < i < |entries| && entries[i] == 0
    && 0 <= s.table[i] - entries[FirstPos(entries, |entries|)] - 1 < i
  }

  lemma StaleRefers(s: State, entries: seq<int>, total: nat, i: nat)
    requires StateOk(s, |entries|) && WellFormed(entries, total) && i < |entries| && entries[i] == 0
    requires !Refers(s.lengths[i], i) && 0 <= s.table[s.pidx] < 0x8000_0000
    ensures Refers(StaleLength(s, entries, |entries|, i), i) <==> Overtaken(s, entries, i)
    ensures Overtaken(s, entries, i) ==>
      -ToInt32(StaleLength(s, entries, |entries|, i)) - 1 == s.table[i] - entries[FirstPos(entries, |entries|)] - 1
  {
    hide FirstPos, ToUint32, ToInt32;
    var f := FirstPos(entries, |entries|);
    if i == s.pidx && 0 < f < |entries| {
      FirstPosFound(entries);
      WordsBack(entries[f] - if i < f then 0 else s.table[i]);
    }
  }

  /** When no length left over refers to a signal before its own, only the signal
      stored last before can be mistaken, and it is exactly if the signal it is
      taken to refer to has changes. */
  lemma OnlyLast(s: State, entries: seq<int>, total: nat, i: nat)
    requires StateOk(s, |entries|) && WellFormed(entries, total) && i < |entries|
    requires 0 <= s.table[s.pidx] < 0x8000_0000 && forall j :: 0 <= j < |entries| ==> !Refers(s.lengths[j], j)
    ensures Mistaken(s, entries, i) <==>
      Overtaken(s, entries, i) && entries[s.table[i] - entries[FirstPos(entries, |entries|)] - 1] != 0
  {
    hide FirstPos, StaleLength, Refers, WellFormed;
    if entries[i] == 0 {
      StaleRefers(s, entries, total, i);
      if Overtaken(s, entries, i) {
        var j := s.table[i] - entries[FirstPos(entries, |entries|)] - 1;
        if entries[j] == 0 { StaleRefers(s, entries, total, j); }
      }
    }
  }

  lemma {:induction false} LengthStays(table: seq<int>, lengths: seq<nat>, k: nat, n: nat, i: nat)
    requires i < k <= n <= |table| == |lengths|
    ensures Resolve(table, lengths, n).1[i] == Resolve(table, lengths, k).1[i]
    decreases n
  {
    hide Resolve, Refers;
    if k < n {
      ResolveStep(table, lengths, n);
      LengthStays(table, lengths, k, n - 1, i);
    }
  }

  /** What a block leaves behind of itself: which signal was stored last, and where. */
  ghost predicate LeftBy(s: State, before: seq<int>) {
    && s.pidx < |before| && s.pidx < |s.table| && before[s.pidx] > 0 && s.table[s.pidx] == before[s.pidx]
    && forall m :: s.pidx < m < |before| ==> before[m] <= 0
  }

  lemma Leaves(s: State, entries: seq<int>, total: nat, a: State)
    requires StateOk(s, |entries|) && s.idx == 0 && WellFormed(entries, total) && SomePosition(entries)
    requires a.pidx == Loaded(s, entries, total).pidx && a.table == Tables(s, entries, total).0
    ensures LeftBy(a, entries) && 0 <= a.table[a.pidx] < 0x8000_0000
  {
    hide Resolve, Run;
    RunPidx(s, entries, |entries|);
    UsedResolved(s, entries, total, |entries|, a.pidx);
  }

  // ----- the decoding loop -----

  /** Zero entries from `k` on. */
  function Zeros(entries: seq<int>, k: nat): (c: nat)
    requires k <= |entries|
    ensures k + c <= |entries| && (forall i :: k <= i < k + c ==> entries[i] == 0)
    ensures k + c < |entries| ==> entries[k + c] != 0
    decreases |entries| - k
  {
    if k == |entries| || entries[k] != 0 then 0 else Zeros(entries, k + 1) + 1
  }

  lemma {:induction false} EncodeZeros(entries: seq<int>, k: nat, zeros: nat, prevpos: nat, prevAlias: int)
    requires k <= |entries|
    ensures var c := Zeros(entries, k);
      EncodeFrom(entries, k, zeros, prevpos, prevAlias)
      == ZeroRun(zeros + c) + EncodeFrom(entries, k + c, 0, prevpos, prevAlias)
    decreases |entries| - k
  {
    hide Item, ZeroRun;
    NoZeros();
    if k < |entries| && entries[k] == 0 {
      EncodeZeros(entries, k + 1, zeros + 1, prevpos, prevAlias);
    } else if k < |entries| {
      EncodeSplit(entries, k, zeros, prevpos, prevAlias);
    }
  }

  lemma EncodeSplit(entries: seq<int>, k: nat, zeros: nat, prevpos: nat, prevAlias: int)
    requires k < |entries| && entries[k] != 0
    ensures EncodeFrom(entries, k, zeros, prevpos, prevAlias)
         == ZeroRun(zeros) + EncodeFrom(entries, k, 0, prevpos, prevAlias)
  {
    hide Item, ZeroRun;
    NoZeros();
    var z, it := ZeroRun(zeros), Item(entries[k], prevpos, prevAlias);
    var rest := EncodeFrom(entries, k + 1, 0, if entries[k] > 0 then entries[k] else prevpos,
                           if entries[k] < 0 then entries[k] else prevAlias);
    assert z + it + rest == z + (it + rest);
    assert [] + it + rest == it + rest;
  }

  lemma NoZeros()
    ensures ZeroRun(0) == []
  {
  }

  /** An item starts with an odd byte, and halving it gives the difference, the
      reference, or zero for the reference before. */
  lemma ReadItem(bytes: seq<byte>, p: nat, e: int, prevpos: nat, prevAlias: int)
    requires At(bytes, p, Item(e, prevpos, prevAlias)) && e != 0
    requires -0x8000_0000 < e < 0x8000_0000 && (e > 0 ==> prevpos < e)
    ensures var n := |Item(e, prevpos, prevAlias)|;
      && Varint.Skip(bytes, p) == n && 0 < n <= 10 && bytes[p] % 2 == 1
      && Varint.GetSigned(bytes, p) / 2 == if e > 0 then e - prevpos else if e != prevAlias then e else 0
  {
    hide Varint.EncodeSigned, Varint.GetSigned, Varint.Skip;
    var v := if e > 0 then 2 * (e - prevpos) + 1 else if e != prevAlias then 2 * e + 1 else 1;
    assert bytes[p + 0] == Varint.EncodeSigned(v)[0];
    Varint.ReadBackSigned(bytes, p, v);
    OddHalf(v);
  }

  lemma OddHalf(v: int)
    ensures v % 2 == 1 ==> 2 * (v / 2) + 1 == v
  {
  }

  lemma ReadZeros(bytes: seq<byte>, p: nat, count: nat)
    requires 0 < count < 0x4000_0000 && At(bytes, p, ZeroRun(count))
    ensures Varint.Skip(bytes, p) == |ZeroRun(count)| > 0 && bytes[p] % 2 == 0
    ensures Varint.Get(bytes, p, Varint.W32) / 2 == count
  {
    hide Varint.Get;
    var w := Varint.Encode(2 * count);
    assert bytes[p] == w[0];
    Varint.ReadBackFits(bytes, p, 2 * count, Varint.W32);
    FirstByteParity(2 * count);
  }

  lemma FirstByteParity(v: nat)
    ensures Varint.Encode(v)[0] % 2 == v % 2
  {
  }

  /** The loop that fills the tables, and the pass that follows references.
      C tests for the end after each item, the index never being empty. */
  method DecodeIndex(bytes: seq<byte>, table: array<int>, lengths: array<nat>, pidx0: nat, total: nat, ghost entries: seq<int>)
    returns (idx: nat, pidx: nat)
    requires bytes == Encode(entries) && WellFormed(entries, total)
    requires |entries| < table.Length == lengths.Length && pidx0 < table.Length
    modifies table, lengths
    ensures var s := State(old(table[..]), old(lengths[..]), 0, pidx0, 0, 0);
      && (table[..], lengths[..]) == Tables(s, entries, total)
      && idx == |entries| && pidx == Loaded(s, entries, total).pidx
  {
    ghost var s := State(table[..], lengths[..], 0, pidx0, 0, 0);
    idx, pidx := FillTables(bytes, table, lengths, pidx0, entries, total, s);
    table[idx] := total;
    lengths[pidx] := ToUint32(total - table[pidx]);
    ghost var m := Loaded(s, entries, total);
    assert table[..] == m.table && lengths[..] == m.lengths;
    FollowReferences(table, lengths, idx);
  }

  method FollowReferences(table: array<int>, lengths: array<nat>, idx: nat)
    requires idx <= table.Length == lengths.Length
    modifies table, lengths
    ensures (table[..], lengths[..]) == Resolve(old(table[..]), old(lengths[..]), idx)
  {
    var i := 0;
    while i < idx
      invariant i <= idx
      invariant (table[..], lengths[..]) == Resolve(old(table[..]), old(lengths[..]), i)
    {
      ghost var t, l := table[..], lengths[..];
      var v32 := ToInt32(lengths[i]);
      if v32 < 0 && table[i] == 0 {
        v32 := -v32 - 1;
        if v32 < i {
          table[i] := table[v32];
          lengths[i] := lengths[v32];
          assert table[..] == t[i := t[v32]] && lengths[..] == l[i := l[v32]];
        }
      }
      i := i + 1;
    }
  }

  /** Where the loop stands: after `k` entries, at byte `p`. */
  ghost predicate Reading(bytes: seq<byte>, p: nat, entries: seq<int>, k: nat, s: State) {
    && k <= |entries| && p <= |bytes| && s.pval >= 0
    && bytes[p..] == EncodeFrom(entries, k, 0, s.pval, s.prevAlias)
  }

  method FillTables(bytes: seq<byte>, table: array<int>, lengths: array<nat>, pidx0: nat, ghost entries: seq<int>,
                    ghost total: nat, ghost s: State)
    returns (idx: nat, pidx: nat)
    requires bytes == Encode(entries) && WellFormed(entries, total) && StateOk(s, |entries|)
    requires table.Length == lengths.Length && s == State(table[..], lengths[..], 0, pidx0, 0, 0)
    modifies table, lengths
    ensures var r := Run(s, entries, |entries|);
      table[..] == r.table && lengths[..] == r.lengths && idx == r.idx && pidx == r.pidx
  {
    hide WellFormed, Reading, Run, StepEntry, Encode, Varint.GetSigned, Varint.Get;
    idx, pidx := 0, pidx0;
    var pval, prevAlias: int := 0, 0;
    var pnt := 0;
    RunNone(s, entries);
    ReadingStart(bytes, entries, s);
    while pnt != |bytes|
      invariant 0 <= pval && 0 <= pnt <= |bytes| && idx <= |entries|
      invariant State(table[..], lengths[..], idx, pidx, pval, prevAlias) == Run(s, entries, idx)
      invariant Reading(bytes, pnt, entries, idx, Run(s, entries, idx))
      decreases |bytes| - pnt
    {
      ghost var before := Run(s, entries, idx);
      PvalBelow(s, entries, idx, total);
      if bytes[pnt] % 2 == 1 {
        ItemAhead(bytes, pnt, entries, idx, before, total);
        RunOne(s, entries, idx);
        var shval, skiplen := Varint.GetSVarint64(bytes, pnt);
        idx, pidx, pval, prevAlias := PutItem(table, lengths, idx, pidx, pval, prevAlias, shval / 2, entries[idx]);
        pnt := pnt + skiplen;
        StepVars(before, entries[idx - 1]);
        SameReading(bytes, pnt, entries, idx, AfterItem(before, entries[idx - 1]), Run(s, entries, idx));
      } else {
        ZerosAhead(bytes, pnt, entries, idx, before, total);
        var val, skiplen := Varint.GetVarint(bytes, pnt, Varint.W32);
        idx := PutZeros(table, idx, val / 2, entries, s, before);
        pnt := pnt + skiplen;
        SameReading(bytes, pnt, entries, idx, before, Run(s, entries, idx));
      }
    }
    NothingAhead(bytes, entries, idx, Run(s, entries, idx));
  }

  function AfterItem(s: State, e: int): State {
    s.(pval := if e > 0 then e else s.pval, prevAlias := if e < 0 then e else s.prevAlias)
  }

  lemma StepVars(s: State, e: int)
    requires StateOk(s, 0)
    ensures StepEntry(s, e).pval == AfterItem(s, e).pval && StepEntry(s, e).prevAlias == AfterItem(s, e).prevAlias
  {
  }

  /** Only the position and the reference matter to what lies ahead. */
  lemma SameReading(bytes: seq<byte>, p: nat, entries: seq<int>, k: nat, a: State, b: State)
    requires k <= |entries|
    ensures a.pval == b.pval && a.prevAlias == b.prevAlias && Reading(bytes, p, entries, k, a) ==> Reading(bytes, p, entries, k, b)
  {
  }

  lemma RunNone(s: State, entries: seq<int>)
    requires StateOk(s, |entries|)
    ensures Run(s, entries, 0) == s
  {
  }

  lemma RunOne(s: State, entries: seq<int>, k: nat)
    requires k < |entries| && StateOk(s, |entries|)
    ensures StateOk(Run(s, entries, k), 0) && Run(s, entries, k + 1) == StepEntry(Run(s, entries, k), entries[k])
  {
  }

  lemma ReadingStart(bytes: seq<byte>, entries: seq<int>, s: State)
    requires bytes == Encode(entries) && s.pval == 0 && s.prevAlias == 0
    ensures Reading(bytes, 0, entries, 0, s)
  {
    assert bytes[0..] == bytes;
  }

  lemma Aheads(bytes: seq<byte>, p: nat, entries: seq<int>, k: nat, s: State, total: nat)
    requires Reading(bytes, p, entries, k, s) && p < |bytes|
    ensures k < |entries|
    ensures entries[k] == 0 ==>
      && At(bytes, p, ZeroRun(Zeros(entries, k))) && Zeros(entries, k) > 0
      && Reading(bytes, p + |ZeroRun(Zeros(entries, k))|, entries, k + Zeros(entries, k), s)
    ensures entries[k] != 0 ==>
      && At(bytes, p, Item(entries[k], s.pval, s.prevAlias))
      && Reading(bytes, p + |Item(entries[k], s.pval, s.prevAlias)|, entries, k + 1,
                 AfterItem(s, entries[k]))
  {
    hide Item, ZeroRun;
    NoZeros();
    if entries[k] == 0 {
      EncodeZeros(entries, k, 0, s.pval, s.prevAlias);
      var w := ZeroRun(Zeros(entries, k));
      Split(bytes, p, w, EncodeFrom(entries, k + Zeros(entries, k), 0, s.pval, s.prevAlias));
    } else {
      var w := Item(entries[k], s.pval, s.prevAlias);
      Unroll(entries, k, 0, s.pval, s.prevAlias, [], [] + ZeroRun(0) + w);
      assert [] + ZeroRun(0) + w == w;
      var rest := EncodeFrom(entries, k + 1, 0, if entries[k] > 0 then entries[k] else s.pval,
                             if entries[k] < 0 then entries[k] else s.prevAlias);
      assert EncodeFrom(entries, k, 0, s.pval, s.prevAlias) == [] + EncodeFrom(entries, k, 0, s.pval, s.prevAlias);
      Split(bytes, p, w, rest);
    }
  }

  lemma Split(bytes: seq<byte>, p: nat, w: seq<byte>, rest: seq<byte>)
    requires p <= |bytes| && bytes[p..] == w + rest
    ensures At(bytes, p, w) && bytes[p + |w|..] == rest
  {
    forall i {:trigger w[i]} | 0 <= i < |w| ensures bytes[p + i] == w[i] {
      assert bytes[p..][i] == w[i];
    }
    assert bytes[p + |w|..] == bytes[p..][|w|..];
  }

  lemma EntryBounds(entries: seq<int>, k: nat, total: nat)
    requires WellFormed(entries, total) && k < |entries|
    ensures -0x8000_0000 < entries[k] < 0x8000_0000 && |entries| < 0x4000_0000
  {
  }

  lemma {:induction false} PvalBelow(s: State, entries: seq<int>, k: nat, total: nat)
    requires k <= |entries| && StateOk(s, |entries|) && s.pval == 0 && WellFormed(entries, total)
    ensures Run(s, entries, k).pval >= 0
    ensures forall m :: k <= m < |entries| && entries[m] > 0 ==> Run(s, entries, k).pval < entries[m]
    decreases k
  {
    if k > 0 { PvalBelow(s, entries, k - 1, total); }
  }

  /** An odd byte begins an item. */
  lemma ItemAhead(bytes: seq<byte>, p: nat, entries: seq<int>, k: nat, s: State, total: nat)
    requires Reading(bytes, p, entries, k, s) && p < |bytes| && bytes[p] % 2 == 1
    requires WellFormed(entries, total)
    requires forall m :: k <= m < |entries| && entries[m] > 0 ==> s.pval < entries[m]
    ensures k < |entries| && entries[k] != 0
    ensures var n := Varint.Skip(bytes, p);
      && 0 < n <= 10
      && Varint.GetSigned(bytes, p) / 2 ==
           (if entries[k] > 0 then entries[k] - s.pval else if entries[k] != s.prevAlias then entries[k] else 0)
      && Reading(bytes, p + n, entries, k + 1,
                 AfterItem(s, entries[k]))
  {
    hide WellFormed, Reading, Item, ZeroRun;
    Aheads(bytes, p, entries, k, s, total);
    EntryBounds(entries, k, total);
    if entries[k] == 0 {
      ReadZeros(bytes, p, Zeros(entries, k));
      assert false;
    } else {
      ReadItem(bytes, p, entries[k], s.pval, s.prevAlias);
    }
  }

  /** An even byte begins a count of zeros. */
  lemma ZerosAhead(bytes: seq<byte>, p: nat, entries: seq<int>, k: nat, s: State, total: nat)
    requires Reading(bytes, p, entries, k, s) && p < |bytes| && bytes[p] % 2 == 0
    requires WellFormed(entries, total)
    requires forall m :: k <= m < |entries| && entries[m] > 0 ==> s.pval < entries[m]
    ensures var n, c := Varint.Skip(bytes, p), Zeros(entries, k);
      && n > 0 && c > 0 && Varint.Get(bytes, p, Varint.W32) / 2 == c
      && Reading(bytes, p + n, entries, k + c, s)
  {
    hide WellFormed, Reading, Item, ZeroRun;
    Aheads(bytes, p, entries, k, s, total);
    EntryBounds(entries, k, total);
    if entries[k] != 0 {
      ReadItem(bytes, p, entries[k], s.pval, s.prevAlias);
      assert false;
    } else {
      ReadZeros(bytes, p, Zeros(entries, k));
    }
  }

  lemma {:induction false} EncodeNonEmpty(entries: seq<int>, k: nat, prevpos: nat, prevAlias: int)
    requires k < |entries|
    ensures EncodeFrom(entries, k, 0, prevpos, prevAlias) != []
    decreases |entries| - k
  {
    EncodeZeros(entries, k, 0, prevpos, prevAlias);
    var c := Zeros(entries, k);
    if c == 0 {
      assert Item(entries[k], prevpos, prevAlias) != [];
    }
  }

  /** The loop ends with the last entry. */
  lemma NothingAhead(bytes: seq<byte>, entries: seq<int>, k: nat, s: State)
    requires Reading(bytes, |bytes|, entries, k, s)
    ensures k == |entries|
  {
    assert bytes[|bytes|..] == [];
    if k < |entries| { EncodeNonEmpty(entries, k, s.pval, s.prevAlias); }
  }

  /** The body for one item. */
  method PutItem(table: array<int>, lengths: array<nat>, idx0: nat, pidx0: nat, pval0: nat, prevAlias0: int, shval: int, ghost e: int)
    returns (idx: nat, pidx: nat, pval: int, prevAlias: int)
    requires table.Length == lengths.Length && idx0 < table.Length && pidx0 < table.Length
    requires e != 0 && shval == if e > 0 then e - pval0 else if e != prevAlias0 then e else 0
    requires e > 0 ==> pval0 < e
    modifies table, lengths
    ensures State(table[..], lengths[..], idx, pidx, if pval >= 0 then pval else 0, prevAlias)
         == StepEntry(State(old(table[..]), old(lengths[..]), idx0, pidx0, pval0, prevAlias0), e)
    ensures pval >= 0
  {
    hide ToUint32;
    ghost var t, l := table[..], lengths[..];
    idx, pidx, pval, prevAlias := idx0, pidx0, pval0, prevAlias0;
    if shval > 0 {
      pval := pval + shval;
      table[idx] := pval;
      assert table[..] == t[idx0 := e];
      if idx != 0 {
        lengths[pidx] := ToUint32(pval - table[pidx]);
        assert lengths[..] == l[pidx0 := ToUint32(e - t[idx0 := e][pidx0])];
      }
      pidx := idx;
    } else {
      table[idx] := 0;
      if shval < 0 { prevAlias := shval; }
      lengths[idx] := ToUint32(prevAlias);
      assert table[..] == t[idx0 := 0] && lengths[..] == l[idx0 := ToUint32(e)];
    }
    idx := idx + 1;
  }

  /** A count of signals without chains. */
  method PutZeros(table: array<int>, idx0: nat, loopcnt: nat, ghost entries: seq<int>, ghost s: State, ghost here: State)
    returns (idx: nat)
    requires StateOk(s, |entries|) && idx0 + loopcnt <= |entries| && s.idx == 0
    requires forall i :: idx0 <= i < idx0 + loopcnt ==> entries[i] == 0
    requires here == Run(s, entries, idx0) && here.table == table[..]
    modifies table
    ensures idx == idx0 + loopcnt
    ensures here.(table := table[..], idx := idx) == Run(s, entries, idx)
  {
    hide StepEntry, Run;
    idx := idx0;
    RunIdx(s, entries, idx0);
    while idx < idx0 + loopcnt
      invariant idx0 <= idx <= idx0 + loopcnt
      invariant here.(table := table[..], idx := idx) == Run(s, entries, idx)
    {
      ghost var t := table[..];
      RunOne(s, entries, idx);
      StepZero(here.(table := t, idx := idx));
      table[idx] := 0;
      assert table[..] == t[idx := 0];
      idx := idx + 1;
    }
  }

  lemma RunIdx(s: State, entries: seq<int>, k: nat)
    requires k <= |entries| && StateOk(s, |entries|) && s.idx == 0
    ensures Run(s, entries, k).idx == k && |Run(s, entries, k).table| == |s.table| > |entries|
  {
  }

  lemma StepZero(s: State)
    requires StateOk(s, 0)
    ensures StepEntry(s, 0) == s.(table := s.table[s.idx := 0], idx := s.idx + 1)
  {
  }
}
