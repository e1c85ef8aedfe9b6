/** What the writer of src/fst/fstapi.c keeps between calls, in terms of plain
    values: the list of each signal in the change buffer, how full the buffer
    is, and every signal's latest value. */
module WriterState {
  import opened Bytes
  import opened Chain
  import opened ChainWriter
  import Varint

  /** vm4ip[2] and vm4ip[3] of one signal: where its last record is, and the time
      index of that record. */
  ghost predicate ListOne(vchg: seq<byte>, head: nat, last: nat, len: nat, cs: seq<Change>, idx: nat) {
    Linked(vchg, head, len, cs) && LastTime(cs) == last <= idx
  }

  ghost predicate Lists(vchg: seq<byte>, heads: seq<nat>, last: seq<nat>, lens: seq<nat>, log: seq<seq<Change>>, idx: nat) {
    && |heads| == |last| == |log| == |lens|
    && forall h :: 0 <= h < |lens| ==> ListOne(vchg, heads[h], last[h], lens[h], log[h], idx)
  }

  /** What the first `n` signals take up in the buffer. */
  ghost function Taken(log: seq<seq<Change>>, n: nat): nat
    requires n <= |log|
  {
    if n == 0 then 0 else Taken(log, n - 1) + RawBytes(0, log[n - 1])
  }

  lemma {:induction false} TakenUpdate(log: seq<seq<Change>>, h: nat, cs: seq<Change>, n: nat)
    requires h < |log| && n <= |log|
    ensures Taken(log[h := cs], n) == Taken(log, n) + if h < n then RawBytes(0, cs) - RawBytes(0, log[h]) else 0
    decreases n
  {
    hide RawBytes;
    if n > 0 { TakenUpdate(log, h, cs, n - 1); }
  }

  lemma {:induction false} TakenGrows(log: seq<seq<Change>>, m: nat, n: nat)
    requires m <= n <= |log|
    ensures Taken(log, m) <= Taken(log, n)
    decreases n
  {
    hide RawBytes;
    if m < n { TakenGrows(log, m, n - 1); }
  }

  /** A buffer with something in it holds a change of some signal. */
  lemma {:induction false} TakenSome(log: seq<seq<Change>>, n: nat) returns (h: nat)
    requires n <= |log| && Taken(log, n) > 0
    ensures h < n && log[h] != []
    decreases n
  {
    if log[n - 1] != [] { h := n - 1; } else { h := TakenSome(log, n - 1); }
  }

  /** Appending a record to the buffer appends the change to the signal's list
      and leaves every other list as it is. */
  lemma Append(vchg: seq<byte>, heads: seq<nat>, last: seq<nat>, lens: seq<nat>, log: seq<seq<Change>>, idx: nat, h: nat, val: seq<byte>)
    requires Lists(vchg, heads, last, lens, log, idx) && h < |lens| && |val| == lens[h]
    requires 0 < |vchg| < TWO_32
    ensures last[h] <= idx
    ensures var after := vchg + RawRecord(heads[h], idx - last[h], val);
      var log' := log[h := log[h] + [Change(idx, val)]];
      && Lists(after, heads[h := |vchg|], last[h := idx], lens, log', idx)
      && |after| == |vchg| + RawSize(idx - last[h], val)
      && Taken(log', |lens|) == Taken(log, |lens|) + RawSize(idx - last[h], val)
  {
    hide Linked, RawSize, RawRecord, Taken, RawBytes;
    var c := Change(idx, val);
    assert ListOne(vchg, heads[h], last[h], lens[h], log[h], idx);
    HeadSmall(vchg, heads[h], lens[h], log[h]);
    LinkRecord(vchg, heads[h], lens[h], log[h], c);
    var raw := RawRecord(heads[h], idx - last[h], val);
    forall g | 0 <= g < |lens| && g != h ensures ListOne(vchg + raw, heads[g], last[g], lens[g], log[g], idx) {
      assert ListOne(vchg, heads[g], last[g], lens[g], log[g], idx);
      LinkedStays(vchg, raw, heads[g], lens[g], log[g]);
    }
    LinkedOrdered(vchg, heads[h], lens[h], log[h]);
    OrderedMeans(lens[h], 0, log[h]);
    RawBytesSnoc(0, log[h], c);
    TakenUpdate(log, h, log[h] + [c], |lens|);
    RawRecordSize(heads[h], idx - last[h], val);
  }

  lemma HeadSmall(vchg: seq<byte>, head: nat, len: nat, cs: seq<Change>)
    requires Linked(vchg, head, len, cs)
    ensures head <= |vchg|
  {
  }

  lemma RawRecordSize(prev: nat, delta: nat, val: seq<byte>)
    ensures |RawRecord(prev, delta, val)| == RawSize(delta, val)
  {
  }

  lemma LaterIndex(vchg: seq<byte>, heads: seq<nat>, last: seq<nat>, lens: seq<nat>, log: seq<seq<Change>>, idx: nat)
    requires Lists(vchg, heads, last, lens, log, idx)
    ensures Lists(vchg, heads, last, lens, log, idx + 1)
  {
    hide Linked;
    forall h | 0 <= h < |lens| ensures ListOne(vchg, heads[h], last[h], lens[h], log[h], idx + 1) {
      assert ListOne(vchg, heads[h], last[h], lens[h], log[h], idx);
    }
  }

  /** The lists of a buffer without records. */
  lemma NoLists(vchg: seq<byte>, heads: seq<nat>, last: seq<nat>, lens: seq<nat>, log: seq<seq<Change>>, idx: nat)
    requires |heads| == |last| == |log| == |lens|
    requires forall h :: 0 <= h < |lens| ==> heads[h] == 0 && last[h] == 0 && log[h] == []
    ensures Lists(vchg, heads, last, lens, log, idx) && Taken(log, |lens|) == 0
  {
    NothingTaken(log, |lens|);
  }

  lemma {:induction false} NothingTaken(log: seq<seq<Change>>, n: nat)
    requires n <= |log| && forall h :: 0 <= h < n ==> log[h] == []
    ensures Taken(log, n) == 0
    decreases n
  {
    if n > 0 { NothingTaken(log, n - 1); }
  }

  // ----- latest values -----

  function LatestOf(first: seq<byte>, cs: seq<Change>): seq<byte> {
    if cs == [] then first else cs[|cs| - 1].val
  }

  /** Every signal's value when the section began, its changes since, and its
      value now. */
  ghost predicate Current(first: seq<seq<byte>>, log: seq<seq<Change>>, latest: seq<seq<byte>>) {
    |first| == |log| == |latest| && forall h :: 0 <= h < |first| ==> latest[h] == LatestOf(first[h], log[h])
  }

  /** The value of the record at the head of a list: what the flush copies into
      the frame. */
  lemma HeadValue(vchg: seq<byte>, head: nat, len: nat, cs: seq<Change>)
    requires Linked(vchg, head, len, cs) && cs != []
    ensures head + 4 <= |vchg| && 0 < Varint.Skip(vchg, head + 4)
    ensures var v := head + 4 + Varint.Skip(vchg, head + 4);
      v + len <= |vchg| && vchg[v..v + len] == cs[|cs| - 1].val
  {
    hide Linked;
    var c, prev := HeadRecord(vchg, head, len, cs);
    var delta := c.tidx - prev;
    AtConcat(vchg, head + 4, Varint.Encode(delta), c.val);
    Varint.ReadBack(vchg, head + 4, delta);
    AtSlice(vchg, head + 4 + |Varint.Encode(delta)|, c.val);
  }

  lemma HeadRecord(vchg: seq<byte>, head: nat, len: nat, cs: seq<Change>) returns (c: Change, prev: nat)
    requires Linked(vchg, head, len, cs) && cs != []
    ensures c == cs[|cs| - 1] && prev <= c.tidx && |c.val| == len
    ensures head + 4 <= |vchg| && At(vchg, head + 4, Varint.Encode(c.tidx - prev) + c.val)
  {
    c, prev := cs[|cs| - 1], LastTime(cs[..|cs| - 1]);
  }
}
