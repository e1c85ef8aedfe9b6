/** The time section of a block in src/fst/fstapi.c: each time as the distance
    from the one before it, a 64-bit number that wraps around. */
module TimeTable {
  import opened Bytes
  import Varint

  function Wrap64(x: int): (r: nat)
    ensures r < TWO_64
  {
    x % TWO_64
  }

  /** All times are 64-bit numbers. */
  ghost predicate Words(times: seq<nat>) {
    forall i :: 0 <= i < |times| ==> times[i] < TWO_64
  }

  /** What is written for `times`, the time before them being `prev`. */
  function Deltas(prev: nat, times: seq<nat>): seq<byte>
    decreases |times|
  {
    if times == [] then []
    else Varint.Encode(Wrap64(times[0] - prev)) + Deltas(times[0], times[1..])
  }

  function Last(prev: nat, times: seq<nat>): nat {
    if times == [] then prev else times[|times| - 1]
  }

  /** Times are written one after the other. */
  lemma {:induction false} DeltasSnoc(prev: nat, times: seq<nat>, t: nat)
    ensures Deltas(prev, times + [t]) == Deltas(prev, times) + Varint.Encode(Wrap64(t - Last(prev, times)))
    decreases |times|
  {
    hide Wrap64;
    if times == [] {
      assert ([] + [t])[1..] == [];
    } else {
      assert (times + [t])[1..] == times[1..] + [t];
      DeltasSnoc(times[0], times[1..], t);
    }
  }

  lemma WrapBack(prev: nat, t: nat)
    requires t < TWO_64
    ensures Wrap64(prev + Wrap64(t - prev)) == t
  {
    assert prev + Wrap64(t - prev) == t - TWO_64 * ((t - prev) / TWO_64);
  }

  /** The reader's loop over the time section: it gets back every 64-bit time,
      even when time runs backwards. */
  method ReadTimes(ucdata: seq<byte>, n: nat, ghost times: seq<nat>) returns (table: seq<nat>)
    requires ucdata == Deltas(0, times) && n == |times| && Words(times)
    ensures table == times
  {
    hide Wrap64, Varint.Get, Varint.Skip, Deltas;
    table := [];
    var tpnt: nat, tpval: nat := 0, 0;
    var ti := 0;
    assert times[0..] == times && ucdata[0..] == ucdata;
    while ti < n
      invariant ti <= n && table == times[..ti] && tpval == Last(0, table)
      invariant tpnt <= |ucdata| && ucdata[tpnt..] == Deltas(tpval, times[ti..])
    {
      NextTime(ucdata, tpnt, tpval, times[ti..]);
      var val, skiplen := Varint.GetVarint(ucdata, tpnt, Varint.W64);
      tpval := Wrap64(tpval + val);
      table := table + [tpval];
      tpnt := tpnt + skiplen;
      assert times[ti..][1..] == times[ti + 1..];
      ti := ti + 1;
    }
  }

  lemma NextTime(ucdata: seq<byte>, p: nat, prev: nat, times: seq<nat>)
    requires p <= |ucdata| && ucdata[p..] == Deltas(prev, times) && times != [] && times[0] < TWO_64
    ensures var n := Varint.Skip(ucdata, p);
      && n > 0 && Wrap64(prev + Varint.Get(ucdata, p, Varint.W64)) == times[0]
      && ucdata[p + n..] == Deltas(times[0], times[1..])
  {
    hide Varint.Get, Wrap64;
    var w := Varint.Encode(Wrap64(times[0] - prev));
    var rest := Deltas(times[0], times[1..]);
    forall i {:trigger w[i]} | 0 <= i < |w| ensures ucdata[p + i] == w[i] {
      assert ucdata[p..][i] == w[i];
    }
    Varint.ReadBackFits(ucdata, p, Wrap64(times[0] - prev), Varint.W64);
    WrapBack(prev, times[0]);
    assert ucdata[p + |w|..] == ucdata[p..][|w|..];
  }

  // ----- the writer's clock -----

  /** tchn_handle's bytes, tchn_cnt, tchn_idx, curtime. */
  datatype Clock = Clock(bytes: seq<byte>, cnt: nat, idx: nat, curtime: nat)

  function Emit(c: Clock, v: nat): Clock {
    c.(bytes := c.bytes + Varint.Encode(v), cnt := c.cnt + 1)
  }

  /** The first time change of all. */
  function Start(tim: nat): Clock {
    Emit(Clock([], 0, 0, 0), tim).(curtime := tim)
  }

  /** A later time change; `due` is whether a flush was called for, `empty`
      whether there was nothing to flush, in which case the flush leaves the
      clock alone. */
  function Tick(c: Clock, tim: nat, due: bool, empty: bool): Clock {
    var c1 := if due then Emit(if empty then c else c.(bytes := [], cnt := 0, idx := 0), c.curtime) else c;
    Emit(c1.(idx := c1.idx + 1), Wrap64(tim - c.curtime)).(curtime := tim)
  }

  /** The reader will find the times `times`. */
  ghost predicate Tells(c: Clock, times: seq<nat>) {
    && c.bytes == Deltas(0, times) && c.cnt == |times| && Words(times) && times != []
  }

  /** As many entries as there are time indices, and they add up to the time. */
  ghost predicate InStep(c: Clock, times: seq<nat>) {
    Tells(c, times) && |times| == c.idx + 1 && times[c.idx] == c.curtime
  }

  /** Writing any distance tells of one more time. */
  lemma EmitTells(c: Clock, times: seq<nat>, v: nat)
    requires Tells(c, times) && v < TWO_64
    ensures Tells(Emit(c, v), times + [Wrap64(times[|times| - 1] + v)])
  {
    hide Wrap64, Deltas;
    var last := times[|times| - 1];
    DeltasSnoc(0, times, Wrap64(last + v));
    WrapDelta(last, v);
  }

  lemma WrapDelta(x: nat, v: nat)
    requires v < TWO_64
    ensures Wrap64(Wrap64(x + v) - x) == v
  {
    assert Wrap64(x + v) - x == v - TWO_64 * ((x + v) / TWO_64);
  }

  lemma StartInStep(tim: nat)
    requires tim < TWO_64
    ensures InStep(Start(tim), [tim])
  {
    assert [tim][1..] == [];
    assert Deltas(0, [tim]) == Varint.Encode(tim) + Deltas(tim, []);
  }

  /** The times a section tells of after one more time change. */
  function Ticked(c: Clock, times: seq<nat>, tim: nat, due: bool, empty: bool): (r: seq<nat>)
    requires times != []
    ensures |r| >= 2
  {
    var t := if due then Flushed(c, times, empty) else times;
    t + [Wrap64(t[|t| - 1] + Wrap64(tim - c.curtime))]
  }

  function Flushed(c: Clock, times: seq<nat>, empty: bool): (r: seq<nat>)
    requires times != []
    ensures r != []
  {
    if empty then times + [Wrap64(times[|times| - 1] + c.curtime)] else [c.curtime]
  }

  lemma TickTells(c: Clock, times: seq<nat>, tim: nat, due: bool, empty: bool)
    requires Tells(c, times) && c.curtime < TWO_64
    ensures Tells(Tick(c, tim, due, empty), Ticked(c, times, tim, due, empty))
  {
    hide Wrap64, Deltas;
    var v := Wrap64(tim - c.curtime);
    if due {
      var c1 := Emit(if empty then c else c.(bytes := [], cnt := 0, idx := 0), c.curtime);
      if empty { EmitTells(c, times, c.curtime); } else { StartInStep(c.curtime); }
      EmitTells(c1.(idx := c1.idx + 1), Flushed(c, times, empty), v);
    } else {
      EmitTells(c.(idx := c.idx + 1), times, v);
    }
  }

  /** A time change keeps the clock in step unless a flush is due and there is
      nothing to flush: then the current time is written once more, as if it
      were a distance, and every later index is off by one. */
  lemma TickInStep(c: Clock, times: seq<nat>, tim: nat, due: bool, empty: bool)
    requires InStep(c, times) && tim < TWO_64
    ensures var t := Ticked(c, times, tim, due, empty);
      && Tells(Tick(c, tim, due, empty), t)
      && (InStep(Tick(c, tim, due, empty), t) <==> !(due && empty))
      && (!(due && empty) ==> t == (if due then [c.curtime] else times) + [tim])
  {
    hide Deltas, Wrap64;
    TickTells(c, times, tim, due, empty);
    WrapBack(c.curtime, tim);
  }

  /** Times 5, 7 and 9, a flush asked for, and no value change: the next time,
      12, is read as 21, and what is announced at 12 is read as happening at 18. */
  lemma ExtraEntry()
    ensures var c := Clock(Deltas(0, [5, 7, 9]), 3, 2, 9);
      && InStep(c, [5, 7, 9])
      && Ticked(c, [5, 7, 9], 12, true, true) == [5, 7, 9, 18, 21]
      && Tells(Tick(c, 12, true, true), [5, 7, 9, 18, 21]) && Tick(c, 12, true, true).idx == 3
  {
    var c := Clock(Deltas(0, [5, 7, 9]), 3, 2, 9);
    assert Ticked(c, [5, 7, 9], 12, true, true) == [5, 7, 9, 18, 21];
    TickTells(c, [5, 7, 9], 12, true, true);
  }

  /** Once out of step a section stays so. */
  lemma StaysOut(c: Clock, times: seq<nat>, tim: nat, empty: bool)
    requires Tells(c, times) && |times| > c.idx + 1 && c.curtime < TWO_64 && tim < TWO_64
    ensures |Ticked(c, times, tim, false, empty)| > Tick(c, tim, false, empty).idx + 1
    ensures |Ticked(c, times, tim, true, true)| > Tick(c, tim, true, true).idx + 1
  {
  }

  /** The next flush that has something to write puts the clock back in step. */
  lemma FlushMends(c: Clock, times: seq<nat>, tim: nat)
    requires Tells(c, times) && c.curtime < TWO_64 && tim < TWO_64
    ensures InStep(Tick(c, tim, true, false), [c.curtime, tim])
  {
    hide Deltas, Wrap64;
    StartInStep(c.curtime);
    var c1 := Emit(c.(bytes := [], cnt := 0, idx := 0), c.curtime);
    EmitTells(c1.(idx := 1), [c.curtime], Wrap64(tim - c.curtime));
    WrapBack(c.curtime, tim);
    assert [c.curtime] + [tim] == [c.curtime, tim];
  }
}
