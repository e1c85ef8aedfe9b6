/** src/RegFileTrace.cc: the writes to the register file, sampled at the falling
    clock edge, and the value of a register at a time. */
module RegFileTrace {
  import opened Bytes
  import opened Accesses
  import opened Merge
  import Sampling

  /** The writes among the samples: write enable, address and data are watched
      in this order. */
  function WritesOf(samples: seq<Sampling.Sample>): seq<Access>
    decreases |samples|
  {
    if samples == [] then []
    else
      var s := samples[|samples| - 1];
      WritesOf(samples[..|samples| - 1])
      + if |s.vals| == 3 && s.vals[0] != 0 then [Access(s.time, true, s.vals[1], s.vals[2])] else []
  }

  lemma WritesSnoc(samples: seq<Sampling.Sample>, s: Sampling.Sample)
    ensures WritesOf(samples + [s]) ==
      WritesOf(samples) + if |s.vals| == 3 && s.vals[0] != 0 then [Access(s.time, true, s.vals[1], s.vals[2])] else []
  {
    assert (samples + [s])[..|samples|] == samples;
  }

  lemma {:induction false} WritesInOrder(samples: seq<Sampling.Sample>)
    requires forall j, k :: 0 <= j < k < |samples| ==> samples[j].time <= samples[k].time
    ensures InTimeOrder(WritesOf(samples))
    ensures forall m :: m in WritesOf(samples) ==> samples != [] && m.time <= samples[|samples| - 1].time
    decreases |samples|
  {
    if samples != [] {
      var n := |samples| - 1;
      WritesInOrder(samples[..n]);
      assert n > 0 ==> samples[..n][n - 1].time <= samples[n].time;
    }
  }

  class RegFileTrace {
    const clk: nat
    const memWr: nat
    const memAddr: nat
    const memWrData: nat
    var curMemWr: bool
    var curMemAddr: nat
    var curMemWrData: nat
    var regFileTrace: seq<Access>
    ghost var seen: seq<Event>

    ghost function Probe(): Sampling.Probe {
      Sampling.Probe(clk, [memWr, memAddr, memWrData])
    }

    ghost predicate Valid()
      reads this
    {
      var s := Sampling.Play(Probe(), seen);
      && s.Going? && |s.vals| == 3 && curMemWr == (s.vals[0] != 0) && curMemAddr == s.vals[1] && curMemWrData == s.vals[2]
      && regFileTrace == WritesOf(s.samples)
    }

    constructor (clk: nat, memWr: nat, memAddr: nat, memWrData: nat)
      ensures Valid() && seen == []
      ensures this.clk == clk && this.memWr == memWr && this.memAddr == memAddr && this.memWrData == memWrData
    {
      this.clk, this.memWr, this.memAddr, this.memWrData := clk, memWr, memAddr, memWrData;
      curMemWr, curMemAddr, curMemWrData, regFileTrace, seen := false, 0, 0, [], [];
    }

    /** memChangedCB; an exception of stol ends the program. */
    method MemChanged(time: nat, handle: nat, value: seq<byte>) returns (thrown: bool)
      requires Valid()
      modifies this
      ensures seen == old(seen) + [Event(time, handle, value)]
      ensures thrown <==> Sampling.Play(Probe(), seen).Failed?
      ensures !thrown ==> Valid()
    {
      hide Sampling.Parse, Sampling.Place, WritesOf;
      ghost var s := Sampling.Play(Probe(), seen);
      assert (seen + [Event(time, handle, value)])[..|seen|] == seen;
      seen := seen + [Event(time, handle, value)];
      var valueInt := Sampling.ParseValue(value);
      if valueInt.Unknown? { return false; }
      if valueInt.Throws? { return true; }
      thrown := false;
      PlaceThree(memWr, memAddr, memWrData, handle);
      if handle == memWr {
        curMemWr := valueInt.n != 0;
      } else if handle == memAddr {
        curMemAddr := valueInt.n;
      } else if handle == memWrData {
        curMemWrData := valueInt.n;
      } else if handle == clk && valueInt.n == 0 {
        WritesSnoc(s.samples, Sampling.Sample(time, s.vals));
        if curMemWr {
          regFileTrace := regFileTrace + [Access(time, curMemWr, curMemAddr, curMemWrData)];
        }
      }
    }

    /** init: every callback of the reader. */
    method Init(events: seq<Event>) returns (thrown: bool)
      requires Valid() && seen == []
      modifies this
      ensures thrown <==> Sampling.Play(Probe(), events).Failed?
      ensures !thrown ==> Valid() && seen == events
    {
      hide Sampling.Callback, Valid;
      var i := 0;
      thrown := false;
      while i < |events|
        invariant i <= |events| && seen == events[..i] && Valid()
      {
        assert events[..i + 1] == events[..i] + [events[i]];
        thrown := MemChanged(events[i].time, events[i].handle, events[i].val);
        if thrown {
          Sampling.FailsOn(Probe(), events, i + 1, |events|);
          assert events[..|events|] == events;
          return;
        }
        i := i + 1;
      }
      assert events[..i] == events;
      NotFailed();
    }

    lemma NotFailed()
      requires Valid()
      ensures Sampling.Play(Probe(), seen).Going?
    {
    }

    /** getValue: the last write to the register up to `time`. */
    method GetValue(time: nat, addr: nat) returns (valueValid: bool, value: nat)
      requires InTimeOrder(regFileTrace)
      ensures (if valueValid then Found(value) else Absent) == Replay(Absent, regFileTrace, time, addr)
    {
      var found := Scan(Absent, regFileTrace, time, addr);
      valueValid, value := found.Found?, if found.Found? then found.value else 0;
    }
  }

  lemma PlaceThree(a: nat, b: nat, c: nat, handle: nat)
    ensures Sampling.Place([a, b, c], handle) == if handle == a then 0 else if handle == b then 1 else if handle == c then 2 else 3
  {
    var w := [a, b, c];
    var j := Sampling.Place(w, handle);
    assert w[0] == a && w[1] == b && w[2] == c;
    assert j < 3 ==> w[j] == handle;
  }

  /** The writes are what the signals' own changes say, in whatever order
      callbacks of the same time come. */
  lemma TraceOfLists(p: Sampling.Probe, a: seq<Event>, b: seq<Event>)
    requires Sampling.Distinct(p) && Sampling.Settled(p, a) && Sampling.SameLists(a, b)
    requires Sampling.InTimeOrder(a) && Sampling.InTimeOrder(b)
    ensures var x, y := Sampling.Play(p, a), Sampling.Play(p, b);
      && (x.Failed? <==> y.Failed?)
      && (x.Going? ==>
            && WritesOf(x.samples) == WritesOf(Sampling.SampledAt(p, a, Sampling.ListOf(a, p.clk)))
            && WritesOf(x.samples) == WritesOf(y.samples) && InTimeOrder(WritesOf(x.samples)))
  {
    hide Sampling.Settled, Sampling.InTimeOrder, Sampling.SameLists, WritesOf, InTimeOrder;
    Sampling.OrderIndependent(p, a, b);
    Sampling.PlayIs(p, a);
    if Sampling.Play(p, a).Going? {
      Sampling.SamplesInOrder(p, a);
      WritesInOrder(Sampling.Play(p, a).samples);
    }
  }
}
