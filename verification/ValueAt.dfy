/** The value of one signal at one time (fstReaderGetValueFromHandleAtTime in
    src/fst/fstapi.c): a scan of the signal's chain that remembers where the
    last hit was and resumes there. */
module ValueAt {
  import opened Bytes
  import opened Chain
  import opened Frame
  import Merge

  // ----- what is asked, in terms of the changes -----

  /** The first change from `k` on that lies after `tim`, or the end. */
  function StopsAt(cs: seq<Change>, times: seq<nat>, tim: nat, k: nat): (r: nat)
    requires k <= |cs| && forall i :: 0 <= i < |cs| ==> cs[i].tidx < |times|
    ensures k <= r <= |cs|
    ensures forall i :: k <= i < r ==> times[cs[i].tidx] <= tim
    ensures r < |cs| ==> times[cs[r].tidx] > tim
    decreases |cs| - k
  {
    if k < |cs| && times[cs[k].tidx] <= tim then StopsAt(cs, times, tim, k + 1) else k
  }

  datatype Hit = Hit(rec: nat) | Miss

  /** Scanning the whole chain. */
  function FullScan(cs: seq<Change>, times: seq<nat>, tim: nat): (h: Hit)
    requires forall i :: 0 <= i < |cs| ==> cs[i].tidx < |times|
    ensures h.Hit? ==> h.rec < |cs|
  {
    var r := StopsAt(cs, times, tim, 0);
    if r > 0 then Hit(r - 1) else Miss
  }

  ghost predicate InTimeOrder(cs: seq<Change>, times: seq<nat>) {
    && (forall i :: 0 <= i < |cs| ==> cs[i].tidx < |times|)
    && forall i, j :: 0 <= i < j < |cs| ==> times[cs[i].tidx] <= times[cs[j].tidx]
  }

  /** The answer is the last change at or before the time asked for. */
  lemma FullScanIsLast(cs: seq<Change>, times: seq<nat>, tim: nat)
    requires InTimeOrder(cs, times)
    ensures var h := FullScan(cs, times, tim);
      && (h.Hit? ==> times[cs[h.rec].tidx] <= tim && forall i :: h.rec < i < |cs| ==> times[cs[i].tidx] > tim)
      && (h.Miss? ==> forall i :: 0 <= i < |cs| ==> times[cs[i].tidx] > tim)
  {
    var r := StopsAt(cs, times, tim, 0);
    if r < |cs| {
      forall i | r <= i < |cs| ensures times[cs[i].tidx] > tim {
        assert i > r ==> times[cs[r].tidx] <= times[cs[i].tidx];
      }
    }
  }

  /** rvat_chain_pos_valid, the record rvat_chain_pos_idx points at, and
      rvat_chain_pos_time. */
  datatype Scan = Scan(valid: bool, rec: nat, time: nat)

  /** One query: resume at the last hit if the time is not before the time
      remembered, else from the start, the time remembered going back to the
      beginning of the block. The position is only replaced by another hit. */
  function Query(cs: seq<Change>, times: seq<nat>, begTim: nat, s: Scan, tim: nat): (r: (Hit, Scan))
    requires forall i :: 0 <= i < |cs| ==> cs[i].tidx < |times|
    requires s.valid ==> s.rec < |cs|
    ensures r.1.valid ==> r.1.rec < |cs|
    ensures r.0.Hit? ==> r.0.rec < |cs|
  {
    var resumed := s.valid && tim >= s.time;
    var from := if resumed then s.rec else 0;
    var stop := StopsAt(cs, times, tim, from);
    if stop > from then (Hit(stop - 1), Scan(true, stop - 1, tim))
    else (Miss, if resumed then s else s.(time := begTim))
  }

  /** The remembered position lies after the remembered time and after the time
      asked for, although there is a change before both. */
  predicate Stranded(cs: seq<Change>, times: seq<nat>, s: Scan, tim: nat)
    requires forall i :: 0 <= i < |cs| ==> cs[i].tidx < |times|
    requires s.valid ==> s.rec < |cs|
  {
    s.valid && s.time <= tim < times[cs[s.rec].tidx] && times[cs[0].tidx] <= tim
  }

  lemma {:induction false} StopsAtFrom(cs: seq<Change>, times: seq<nat>, tim: nat, k: nat)
    requires InTimeOrder(cs, times) && k < |cs| && times[cs[k].tidx] <= tim
    ensures StopsAt(cs, times, tim, 0) == StopsAt(cs, times, tim, k) > k
    decreases k
  {
    if k > 0 {
      assert times[cs[k - 1].tidx] <= times[cs[k].tidx];
      StopsAtFrom(cs, times, tim, k - 1);
    }
  }

  /** Resuming gives the answer of a full scan unless the scan is stranded. */
  lemma ResumedExactly(cs: seq<Change>, times: seq<nat>, begTim: nat, s: Scan, tim: nat)
    requires InTimeOrder(cs, times) && (s.valid ==> s.rec < |cs|)
    ensures Query(cs, times, begTim, s, tim).0 == FullScan(cs, times, tim) <==> !Stranded(cs, times, s, tim)
  {
    if s.valid && s.time <= tim {
      if times[cs[s.rec].tidx] <= tim {
        StopsAtFrom(cs, times, tim, s.rec);
      } else {
        assert StopsAt(cs, times, tim, s.rec) == s.rec;
      }
    }
  }

  // ----- whole runs of queries -----

  /** The remembered record is not after the remembered time. */
  predicate Sound(cs: seq<Change>, times: seq<nat>, s: Scan)
    requires forall i :: 0 <= i < |cs| ==> cs[i].tidx < |times|
  {
    s.valid ==> s.rec < |cs| && times[cs[s.rec].tidx] <= s.time
  }

  /** The answers to the queries `tims`, one after the other. */
  function Answers(cs: seq<Change>, times: seq<nat>, begTim: nat, s: Scan, tims: seq<nat>): (r: seq<Hit>)
    requires forall i :: 0 <= i < |cs| ==> cs[i].tidx < |times|
    requires s.valid ==> s.rec < |cs|
    ensures |r| == |tims|
    decreases |tims|
  {
    if tims == [] then []
    else
      var (h, s') := Query(cs, times, begTim, s, tims[0]);
      [h] + Answers(cs, times, begTim, s', tims[1..])
  }

  /** After a hit, no query steps back before the first change. */
  ghost predicate NeverBeforeFirst(cs: seq<Change>, times: seq<nat>, tims: seq<nat>)
    requires forall i :: 0 <= i < |cs| ==> cs[i].tidx < |times|
  {
    forall i, j :: 0 <= i < j < |tims| && FullScan(cs, times, tims[i]).Hit? ==> FullScan(cs, times, tims[j]).Hit?
  }

  /** Over such a run, starting with nothing remembered, every answer is that
      of a full scan. */
  lemma {:induction false} RunOfQueries(cs: seq<Change>, times: seq<nat>, begTim: nat, s: Scan, tims: seq<nat>)
    requires InTimeOrder(cs, times) && Sound(cs, times, s) && NeverBeforeFirst(cs, times, tims)
    requires s.valid ==> forall j :: 0 <= j < |tims| ==> FullScan(cs, times, tims[j]).Hit?
    ensures forall j :: 0 <= j < |tims| ==> Answers(cs, times, begTim, s, tims)[j] == FullScan(cs, times, tims[j])
    decreases |tims|
  {
    hide FullScan, Query;
    if tims != [] {
      var s' := Query(cs, times, begTim, s, tims[0]).1;
      SoundStep(cs, times, begTim, s, tims[0]);
      var rest := tims[1..];
      assert forall j :: 0 <= j < |rest| ==> rest[j] == tims[j + 1];
      RunOfQueries(cs, times, begTim, s', rest);
    }
  }

  lemma SoundStep(cs: seq<Change>, times: seq<nat>, begTim: nat, s: Scan, tim: nat)
    requires InTimeOrder(cs, times) && Sound(cs, times, s)
    requires s.valid ==> FullScan(cs, times, tim).Hit?
    ensures var (h, s') := Query(cs, times, begTim, s, tim);
      && h == FullScan(cs, times, tim) && Sound(cs, times, s')
      && (s'.valid <==> s.valid || h.Hit?)
  {
    ResumedExactly(cs, times, begTim, s, tim);
  }

  // ----- exactly which runs of queries -----

  /** The last of the first `n` queries with a change at or before its time. */
  function LastHit(cs: seq<Change>, times: seq<nat>, tims: seq<nat>, n: nat): (i: int)
    requires n <= |tims| && forall i :: 0 <= i < |cs| ==> cs[i].tidx < |times|
    ensures -1 <= i < n && (i >= 0 ==> FullScan(cs, times, tims[i]).Hit?)
    ensures forall m :: i < m < n ==> FullScan(cs, times, tims[m]).Miss?
  {
    if n == 0 then -1 else if FullScan(cs, times, tims[n - 1]).Hit? then n - 1 else LastHit(cs, times, tims, n - 1)
  }

  /** Query `i` finds a change; then one or more step back to before the first
      change; and query `k` goes forward again, but not as far as the change that
      query `i` found. */
  ghost predicate StepsBack(cs: seq<Change>, times: seq<nat>, begTim: nat, tims: seq<nat>, i: nat, k: nat)
    requires forall i :: 0 <= i < |cs| ==> cs[i].tidx < |times|
  {
    && i + 1 < k < |tims| && FullScan(cs, times, tims[i]).Hit?
    && (forall m :: i < m < k ==> FullScan(cs, times, tims[m]).Miss?)
    && FullScan(cs, times, tims[k]).Hit? && begTim <= tims[k] < times[cs[FullScan(cs, times, tims[i]).rec].tidx]
  }

  /** Query `k` steps back from the last hit before it. */
  ghost predicate Lost(cs: seq<Change>, times: seq<nat>, begTim: nat, tims: seq<nat>, k: nat)
    requires k <= |tims| && forall i :: 0 <= i < |cs| ==> cs[i].tidx < |times|
  {
    LastHit(cs, times, tims, k) >= 0 && StepsBack(cs, times, begTim, tims, LastHit(cs, times, tims, k), k)
  }

  /** What is remembered after `n` queries that were answered right. */
  ghost predicate RemembersHit(cs: seq<Change>, times: seq<nat>, begTim: nat, tims: seq<nat>, n: nat, s: Scan)
    requires n <= |tims| && forall i :: 0 <= i < |cs| ==> cs[i].tidx < |times|
  {
    var i := LastHit(cs, times, tims, n);
    if i < 0 then !s.valid
    else
      && s.valid && Hit(s.rec) == FullScan(cs, times, tims[i])
      && s.time == if i == n - 1 then tims[i] else begTim
  }

  lemma FirstDecides(cs: seq<Change>, times: seq<nat>, tim: nat)
    requires InTimeOrder(cs, times)
    ensures FullScan(cs, times, tim).Hit? <==> cs != [] && times[cs[0].tidx] <= tim
    ensures var f := FullScan(cs, times, tim); f.Hit? ==> times[cs[0].tidx] <= times[cs[f.rec].tidx] <= tim
  {
    var r := StopsAt(cs, times, tim, 0);
    if r > 1 { assert times[cs[0].tidx] <= times[cs[r - 1].tidx]; }
  }

  /** The next answer is right unless it steps back, and if it is right, what is
      remembered is again that of a run of right answers. */
  lemma QueryStep(cs: seq<Change>, times: seq<nat>, begTim: nat, tims: seq<nat>, n: nat, s: Scan)
    requires InTimeOrder(cs, times) && n < |tims| && RemembersHit(cs, times, begTim, tims, n, s)
    ensures s.valid ==> s.rec < |cs|
    ensures var (h, s') := Query(cs, times, begTim, s, tims[n]);
      && (h == FullScan(cs, times, tims[n]) <==> !Lost(cs, times, begTim, tims, n))
      && (h == FullScan(cs, times, tims[n]) ==> RemembersHit(cs, times, begTim, tims, n + 1, s'))
  {
    hide FullScan;
    var i := LastHit(cs, times, tims, n);
    FirstDecides(cs, times, tims[n]);
    if i >= 0 { FirstDecides(cs, times, tims[i]); }
    ResumedExactly(cs, times, begTim, s, tims[n]);
  }

  /** The answers are those of full scans. */
  ghost predicate AllRight(cs: seq<Change>, times: seq<nat>, tims: seq<nat>, answers: seq<Hit>)
    requires forall i :: 0 <= i < |cs| ==> cs[i].tidx < |times|
  {
    |answers| == |tims| && forall j :: 0 <= j < |tims| ==> answers[j] == FullScan(cs, times, tims[j])
  }

  lemma AllRightCons(cs: seq<Change>, times: seq<nat>, tims: seq<nat>, h: Hit, rest: seq<Hit>)
    requires tims != [] && forall i :: 0 <= i < |cs| ==> cs[i].tidx < |times|
    ensures AllRight(cs, times, tims, [h] + rest) <==> h == FullScan(cs, times, tims[0]) && AllRight(cs, times, tims[1..], rest)
  {
    hide FullScan;
    var all := [h] + rest;
    assert all[0] == h && all[1..] == rest;
    if AllRight(cs, times, tims[1..], rest) && h == FullScan(cs, times, tims[0]) {
      forall j | 0 <= j < |tims| ensures all[j] == FullScan(cs, times, tims[j]) {
        if j > 0 { assert all[j] == rest[j - 1] && tims[j] == tims[1..][j - 1]; }
      }
    } else if AllRight(cs, times, tims, all) {
      forall j | 0 <= j < |tims[1..]| ensures rest[j] == FullScan(cs, times, tims[1..][j]) {
        assert all[j + 1] == rest[j] && tims[j + 1] == tims[1..][j];
      }
    }
  }

  lemma AnswersCons(cs: seq<Change>, times: seq<nat>, begTim: nat, s: Scan, tims: seq<nat>)
    requires tims != [] && (forall i :: 0 <= i < |cs| ==> cs[i].tidx < |times|) && (s.valid ==> s.rec < |cs|)
    ensures var (h, s') := Query(cs, times, begTim, s, tims[0]);
      Answers(cs, times, begTim, s, tims) == [h] + Answers(cs, times, begTim, s', tims[1..])
  {
    hide Query;
  }

  /** From query `n` on all answers are right exactly if none of them is lost. */
  lemma {:induction false} RightFrom(cs: seq<Change>, times: seq<nat>, begTim: nat, tims: seq<nat>, n: nat, s: Scan)
    requires InTimeOrder(cs, times) && n <= |tims| && RemembersHit(cs, times, begTim, tims, n, s)
    ensures s.valid ==> s.rec < |cs|
    ensures AllRight(cs, times, tims[n..], Answers(cs, times, begTim, s, tims[n..])) <==>
      forall k :: n <= k < |tims| ==> !Lost(cs, times, begTim, tims, k)
    decreases |tims| - n
  {
    hide FullScan, Query, Lost, RemembersHit, AllRight, Answers;
    RemembersSome(cs, times, begTim, tims, n, s);
    if n == |tims| {
      NoAnswers(cs, times, begTim, s);
    } else {
      QueryStep(cs, times, begTim, tims, n, s);
      var (h, s') := Query(cs, times, begTim, s, tims[n]);
      assert tims[n..][1..] == tims[n + 1..] && tims[n..][0] == tims[n];
      AnswersCons(cs, times, begTim, s, tims[n..]);
      AllRightCons(cs, times, tims[n..], h, Answers(cs, times, begTim, s', tims[n + 1..]));
      if h == FullScan(cs, times, tims[n]) {
        RightFrom(cs, times, begTim, tims, n + 1, s');
      }
    }
  }

  lemma NoAnswers(cs: seq<Change>, times: seq<nat>, begTim: nat, s: Scan)
    requires (forall i :: 0 <= i < |cs| ==> cs[i].tidx < |times|) && (s.valid ==> s.rec < |cs|)
    ensures AllRight(cs, times, [], Answers(cs, times, begTim, s, []))
  {
  }

  lemma RemembersSome(cs: seq<Change>, times: seq<nat>, begTim: nat, tims: seq<nat>, n: nat, s: Scan)
    requires n <= |tims| && (forall i :: 0 <= i < |cs| ==> cs[i].tidx < |times|) && RemembersHit(cs, times, begTim, tims, n, s)
    ensures s.valid ==> s.rec < |cs|
  {
  }

  lemma StepsFromLast(cs: seq<Change>, times: seq<nat>, begTim: nat, tims: seq<nat>, i: nat, k: nat)
    requires (forall i :: 0 <= i < |cs| ==> cs[i].tidx < |times|) && StepsBack(cs, times, begTim, tims, i, k)
    ensures k < |tims| && Lost(cs, times, begTim, tims, k)
  {
    hide FullScan;
    var last := LastHit(cs, times, tims, k);
    assert last == i;
  }

  /** A run of queries, nothing being remembered before it, is answered as full
      scans would answer it exactly if it never steps back before the first change
      after a hit and then forward again to before what was hit. */
  lemma RunExactly(cs: seq<Change>, times: seq<nat>, begTim: nat, tims: seq<nat>)
    requires InTimeOrder(cs, times)
    ensures AllRight(cs, times, tims, Answers(cs, times, begTim, Scan(false, 0, 0), tims)) <==>
      forall i: nat, k: nat :: !StepsBack(cs, times, begTim, tims, i, k)
  {
    hide StepsBack, AllRight, Answers;
    RightFrom(cs, times, begTim, tims, 0, Scan(false, 0, 0));
    assert tims[0..] == tims;
    forall i: nat, k: nat | StepsBack(cs, times, begTim, tims, i, k) ensures k < |tims| && Lost(cs, times, begTim, tims, k) {
      StepsFromLast(cs, times, begTim, tims, i, k);
    }
  }

  /** Stepping back before the first change after a hit, and then forward again
      to before that hit, loses the changes in between: asked at 10, 2 and 5,
      a signal that changed at 4 and at 10 has no value at 5. */
  lemma SteppingBack()
    ensures var cs, times := [Change(1, [ONE]), Change(2, [ZERO])], [0, 4, 10];
      && InTimeOrder(cs, times)
      && Answers(cs, times, 0, Scan(false, 0, 0), [10, 2, 5]) == [Hit(1), Miss, Miss]
      && FullScan(cs, times, 5) == Hit(0)
  {
    hide Query;
    var cs, times := [Change(1, [ONE]), Change(2, [ZERO])], [0, 4, 10];
    ThreeQueries(cs, times);
    assert [10, 2, 5][1..] == [2, 5] && [2, 5][1..] == [5] && [5][1..] == [];
    assert Answers(cs, times, 0, Scan(true, 1, 0), [5]) == [Miss];
    assert Answers(cs, times, 0, Scan(true, 1, 10), [2, 5]) == [Miss, Miss];
  }

  lemma ThreeQueries(cs: seq<Change>, times: seq<nat>)
    requires cs == [Change(1, [ONE]), Change(2, [ZERO])] && times == [0, 4, 10]
    ensures Query(cs, times, 0, Scan(false, 0, 0), 10) == (Hit(1), Scan(true, 1, 10))
    ensures Query(cs, times, 0, Scan(true, 1, 10), 2) == (Miss, Scan(true, 1, 0))
    ensures Query(cs, times, 0, Scan(true, 1, 0), 5) == (Miss, Scan(true, 1, 0)) && FullScan(cs, times, 5) == Hit(0)
  {
    assert StopsAt(cs, times, 10, 0) == 2 && StopsAt(cs, times, 2, 0) == 0;
    assert StopsAt(cs, times, 5, 1) == 1 && StopsAt(cs, times, 5, 0) == 1;
  }

  // ----- the reader -----

  /** What `cs` and the values at the beginning of the block say a signal is at
      time `tim`. */
  function Latest(first: seq<byte>, cs: seq<Change>, times: seq<nat>, tim: nat): seq<byte>
    requires forall i :: 0 <= i < |cs| ==> cs[i].tidx < |times|
  {
    ValueOf(first, cs, FullScan(cs, times, tim))
  }

  function ValueOf(first: seq<byte>, cs: seq<Change>, h: Hit): seq<byte>
    requires h.Hit? ==> h.rec < |cs|
  {
    if h.Hit? then cs[h.rec].val else first
  }

  datatype Answer = Value(val: seq<byte>) | Unknown

  class ValueReader {
    /** One block: its times, the signals' widths, their values when it begins,
        and their chains, empty for a signal without changes. */
    const times: seq<nat>
    const begTim: nat
    const lens: seq<nat>
    const frame: seq<byte>
    const sigOffs: seq<nat>
    const chains: seq<seq<byte>>

    /** rvat_chain_facidx and whether rvat_chain_mem is loaded for it. */
    var loaded: bool
    var facidx: nat

    /** rvat_chain_pos_... */
    var posValid: bool
    var posIdx: nat
    var posTidx: nat
    var posTime: nat

    ghost const cs: seq<seq<Change>>
    ghost var posRec: nat

    ghost predicate Block() {
      && |chains| == |lens| == |cs|
      && Offsets(lens, sigOffs)
      && Offset(lens, |lens|) <= |frame|
      && forall h :: 0 <= h < |lens| ==> lens[h] >= 1 && Merge.Cursor(chains[h], lens[h], 0, 0, |chains[h]|, cs[h], |times|)
    }

    /** The remembered position is that of record `posRec`. */
    ghost predicate Valid()
      reads this
    {
      Block() && (posValid ==> loaded && facidx < |lens| && RecordAt(facidx, posTidx, posIdx, posRec))
    }

    ghost predicate RecordAt(h: nat, tidx: nat, i: nat, k: nat)
      requires Block() && h < |lens|
    {
      && k < |cs[h]| && i <= |chains[h]|
      && Merge.Cursor(chains[h], lens[h], tidx, i, |chains[h]| - i, cs[h][k..], |times|)
    }

    /** What is remembered of signal `h`. */
    ghost function Remembered(h: nat): Scan
      reads this
    {
      Scan(posValid && facidx == h, posRec, posTime)
    }

    lemma InFrame(h: nat)
      requires Block() && h < |lens|
      ensures sigOffs[h] + lens[h] <= |frame|
    {
      hide Merge.Cursor;
      OffsetGrows(lens, h + 1, |lens|);
      hide Offset;
    }

    ghost function First(h: nat): seq<byte>
      requires Block() && h < |lens|
    {
      InFrame(h);
      frame[sigOffs[h]..sigOffs[h] + lens[h]]
    }

    constructor (times: seq<nat>, begTim: nat, lens: seq<nat>, frame: seq<byte>, chains: seq<seq<byte>>,
                 ghost cs: seq<seq<Change>>)
      requires |chains| == |lens| == |cs| && Offset(lens, |lens|) <= |frame|
      requires forall h :: 0 <= h < |lens| ==>
        lens[h] >= 1 && Merge.Cursor(chains[h], lens[h], 0, 0, |chains[h]|, cs[h], |times|)
      ensures Valid() && !posValid
      ensures this.times == times && this.begTim == begTim && this.lens == lens && this.frame == frame
      ensures this.chains == chains && this.cs == cs
    {
      this.times, this.begTim, this.lens, this.frame, this.chains, this.cs := times, begTim, lens, frame, chains, cs;
      sigOffs := seq(|lens|, h requires 0 <= h < |lens| => Offset(lens, h));
      loaded, facidx, posValid, posIdx, posTidx, posTime, posRec := false, 0, false, 0, 0, 0, 0;
    }

    lemma CursorOf(h: nat)
      requires Block() && h < |lens|
      ensures Merge.Cursor(chains[h], lens[h], 0, 0, |chains[h]|, cs[h], |times|)
      ensures lens[h] >= 1 && forall k :: 0 <= k < |cs[h]| ==> cs[h][k].tidx < |times|
      ensures cs[h] == [] <==> chains[h] == []
    {
      hide Decode;
      Merge.CursorEnd(chains[h], lens[h], 0, 0, |chains[h]|, cs[h], |times|);
    }

    /** One step of the scanning loop. */
    lemma NextRecord(h: nat, tidx: nat, i: nat, k: nat)
      requires Block() && h < |lens| && RecordAt(h, tidx, i, k)
      ensures var e := ReadRecord(lens[h], chains[h], i);
        && e.Entry? && tidx + e.delta == cs[h][k].tidx < |times| && e.next <= |chains[h]| && e.val == cs[h][k].val
        && (k + 1 < |cs[h]| ==> RecordAt(h, tidx + e.delta, e.next, k + 1))
        && (k + 1 == |cs[h]| <==> e.next == |chains[h]|)
      ensures i < |chains[h]| && k < |cs[h]|
    {
      hide Decode, ReadRecord;
      var mem, n := chains[h], |times|;
      Merge.CursorStep(mem, lens[h], tidx, i, |mem| - i, cs[h][k..], n);
      var e := ReadRecord(lens[h], mem, i);
      assert cs[h][k..][1..] == cs[h][k + 1..];
      Merge.CursorEnd(mem, lens[h], tidx + e.delta, e.next, |mem| - e.next, cs[h][k + 1..], n);
      Merge.CursorInTable(mem, lens[h], tidx, i, |mem| - i, cs[h][k..], n);
    }

    /** The loop of the scan: records up to the first one after `tim`; `iprev`
        is the last one taken, or the end of the chain if there is none. */
    method Advance(h: nat, from: nat, fromTidx: nat, tim: nat, ghost r: nat) returns (iprev: nat, ptidx: nat, ghost stop: nat)
      requires Block() && h < |lens| && RecordAt(h, fromTidx, from, r)
      requires forall k :: 0 <= k < |cs[h]| ==> cs[h][k].tidx < |times|
      ensures stop == StopsAt(cs[h], times, tim, r) && (iprev == |chains[h]| <==> stop == r)
      ensures stop > r ==> RecordAt(h, ptidx, iprev, stop - 1)
    {
      hide RecordAt, ReadRecord;
      var mem := chains[h];
      var i, tidx := from, fromTidx;
      iprev, ptidx, stop := |mem|, 0, r;
      NextRecord(h, tidx, i, r);
      while i < |mem|
        invariant i <= |mem| && r <= stop <= |cs[h]| && (i == |mem| <==> stop == |cs[h]|)
        invariant i < |mem| ==> RecordAt(h, tidx, i, stop)
        invariant StopsAt(cs[h], times, tim, r) == StopsAt(cs[h], times, tim, stop)
        invariant iprev == |mem| <==> stop == r
        invariant stop > r ==> RecordAt(h, ptidx, iprev, stop - 1)
        decreases |mem| - i
      {
        NextRecord(h, tidx, i, stop);
        var tdelta := Merge.PeekDelta(lens[h], mem, i);
        if times[tidx + tdelta] > tim { break; }
        var val, skiplen := Merge.ReadChange(lens[h], mem, i);
        iprev, ptidx := i, tidx;
        tidx, i, stop := tidx + tdelta, i + skiplen, stop + 1;
      }
    }

    /** `a` is what one query of signal `h` finds, `s` being remembered of it. */
    ghost predicate Finds(h: nat, s: Scan, tim: nat, a: Answer) {
      && Block() && h < |lens| && (forall k :: 0 <= k < |cs[h]| ==> cs[h][k].tidx < |times|)
      && (s.valid ==> s.rec < |cs[h]|)
      && a == Value(ValueOf(First(h), cs[h], Query(cs[h], times, begTim, s, tim).0))
    }

    /** That is the signal's value at that time, unless the remembered position
        is stranded after it. */
    lemma FindsLatest(h: nat, s: Scan, tim: nat, a: Answer)
      requires Finds(h, s, tim, a) && (forall i, j :: 0 <= i < j < |times| ==> times[i] <= times[j])
      requires !Stranded(cs[h], times, s, tim)
      ensures a == Value(Latest(First(h), cs[h], times, tim))
    {
      hide Query, Stranded, FullScan, First;
      CursorOrder(h);
      ResumedExactly(cs[h], times, begTim, s, tim);
    }

    lemma CursorOrder(h: nat)
      requires Block() && h < |lens| && (forall i, j :: 0 <= i < j < |times| ==> times[i] <= times[j])
      ensures InTimeOrder(cs[h], times)
    {
      hide Decode;
      DecodedInOrder(lens[h], 0, chains[h], 0, |chains[h]|);
      forall i, j | 0 <= i < j < |cs[h]| ensures times[cs[h][i].tidx] <= times[cs[h][j].tidx] {
        assert cs[h][i].tidx <= cs[h][j].tidx;
      }
    }

    method ExtractFromFrame(h: nat) returns (a: Answer)
      requires Block() && h < |lens|
      ensures a == Value(First(h))
    {
      InFrame(h);
      a := Value(frame[sigOffs[h]..sigOffs[h] + lens[h]]);
    }

    lemma WholeChain(h: nat)
      requires Block() && h < |lens| && cs[h] != []
      ensures RecordAt(h, 0, 0, 0)
    {
      assert cs[h][0..] == cs[h];
    }

    /** Load the chain if it is another signal's that is loaded, and choose where
        to scan from. */
    method Resume(h: nat, tim: nat) returns (from: nat, fromTidx: nat, ghost r: nat)
      requires Valid() && h < |lens| && cs[h] != []
      modifies this
      ensures Valid() && loaded && facidx == h && RecordAt(h, fromTidx, from, r)
      ensures var s := old(Remembered(h));
        if s.valid && tim >= s.time then r == s.rec && Remembered(h) == s
        else r == 0 && Remembered(h) == s.(time := begTim)
    {
      hide RecordAt;
      if !loaded || facidx != h {
        loaded, facidx, posValid := true, h, false;
      }
      if posValid && tim >= posTime {
        from, fromTidx, r := posIdx, posTidx, posRec;
      } else {
        from, fromTidx, r := 0, 0, 0;
        posTime := begTim;
        WholeChain(h);
      }
    }

    /** fstReaderGetValueFromHandleAtTime, the block being the one that covers
        `tim`. */
    method GetValue(handle: nat, tim: nat) returns (a: Answer)
      requires Valid()
      modifies this
      ensures Valid()
      ensures handle == 0 || handle > |lens| ==> a == Unknown
      ensures 1 <= handle <= |lens| ==> Finds(handle - 1, old(Remembered(handle - 1)), tim, a)
      ensures 1 <= handle <= |lens| && cs[handle - 1] != [] ==>
        Remembered(handle - 1) == Query(cs[handle - 1], times, begTim, old(Remembered(handle - 1)), tim).1
    {
      hide Merge.Cursor, RecordAt, First, ReadRecord, StopsAt;
      if handle == 0 || handle > |lens| { return Unknown; }
      var h: nat := handle - 1;
      CursorOf(h);
      RememberedInChain(h);
      if chains[h] == [] {
        a := ExtractFromFrame(h);
        return;
      }
      var from, fromTidx, iprev, ptidx;
      ghost var r, stop;
      from, fromTidx, r := Resume(h, tim);
      iprev, ptidx, stop := Advance(h, from, fromTidx, tim, r);
      if iprev != |chains[h]| {
        posTidx, posIdx, posTime, posValid, posRec := ptidx, iprev, tim, true, stop - 1;
        NextRecord(h, ptidx, iprev, stop - 1);
        var val, skiplen := Merge.ReadChange(lens[h], chains[h], iprev);
        a := Value(val);
        assert val == cs[h][stop - 1].val;
      } else {
        a := ExtractFromFrame(h);
      }
    }

    lemma RememberedInChain(h: nat)
      requires Valid() && h < |lens|
      ensures Remembered(h).valid ==> posRec < |cs[h]|
    {
    }
  }

  /** Time indices never decrease along a chain. */
  lemma {:induction false} DecodedInOrder(len: nat, prev: nat, bytes: seq<byte>, p: nat, end: nat)
    requires 1 <= len && p <= end <= |bytes| && Decode(len, prev, bytes, p, end).Changes?
    ensures var cs := Decode(len, prev, bytes, p, end).cs;
      && (forall i :: 0 <= i < |cs| ==> prev <= cs[i].tidx)
      && (forall i, j :: 0 <= i < j < |cs| ==> cs[i].tidx <= cs[j].tidx)
    decreases end - p
  {
    hide ReadRecord;
    if p < end {
      var e := ReadRecord(len, bytes, p);
      DecodedInOrder(len, prev + e.delta, bytes, e.next, end);
      var rest := Decode(len, prev + e.delta, bytes, e.next, end).cs;
      var cs := Decode(len, prev, bytes, p, end).cs;
      assert forall i :: 0 < i < |cs| ==> cs[i] == rest[i - 1];
    }
  }
}
