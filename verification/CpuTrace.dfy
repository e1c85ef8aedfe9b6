/** src/CpuTrace.cc: the list of retired instructions, sampled at the falling
    clock edge. */
module CpuTrace {
  import opened Bytes
  import opened Merge
  import Sampling

  datatype PcValue = PcValue(time: nat, pc: nat)

  /** The retired instructions among the samples: pc_valid is watched first, the
      pc second. */
  function PcsOf(samples: seq<Sampling.Sample>): seq<PcValue>
    decreases |samples|
  {
    if samples == [] then []
    else
      var s := samples[|samples| - 1];
      PcsOf(samples[..|samples| - 1])
      + if |s.vals| == 2 && s.vals[0] != 0 then [PcValue(s.time, s.vals[1])] else []
  }

  lemma PcsSnoc(samples: seq<Sampling.Sample>, s: Sampling.Sample)
    ensures PcsOf(samples + [s]) ==
      PcsOf(samples) + if |s.vals| == 2 && s.vals[0] != 0 then [PcValue(s.time, s.vals[1])] else []
  {
    assert (samples + [s])[..|samples|] == samples;
  }

  class CpuTrace {
    const clk: nat
    const pcValid: nat
    const pc: nat
    var curPcValidVal: nat
    var curPcVal: nat
    var pcTrace: seq<PcValue>

    /** The callbacks so far. */
    ghost var seen: seq<Event>

    ghost function Probe(): Sampling.Probe {
      Sampling.Probe(clk, [pcValid, pc])
    }

    ghost predicate Valid()
      reads this
    {
      var s := Sampling.Play(Probe(), seen);
      s.Going? && s.vals == [curPcValidVal, curPcVal] && pcTrace == PcsOf(s.samples)
    }

    constructor (clk: nat, pcValid: nat, pc: nat)
      ensures Valid() && seen == [] && this.clk == clk && this.pcValid == pcValid && this.pc == pc
    {
      this.clk, this.pcValid, this.pc := clk, pcValid, pc;
      curPcValidVal, curPcVal, pcTrace, seen := 0, 0, [], [];
    }

    /** pcChangedCB; an exception of stol ends the program. */
    method PcChanged(time: nat, handle: nat, value: seq<byte>) returns (thrown: bool)
      requires Valid()
      modifies this
      ensures seen == old(seen) + [Event(time, handle, value)]
      ensures thrown <==> Sampling.Play(Probe(), seen).Failed?
      ensures !thrown ==> Valid()
    {
      hide Sampling.Parse, Sampling.Place, PcsOf;
      ghost var s := Sampling.Play(Probe(), seen);
      assert (seen + [Event(time, handle, value)])[..|seen|] == seen;
      seen := seen + [Event(time, handle, value)];
      var valueInt := Sampling.ParseValue(value);
      if valueInt.Unknown? { return false; }
      if valueInt.Throws? { return true; }
      thrown := false;
      PlaceTwo(pcValid, pc, handle);
      if handle == pcValid {
        curPcValidVal := valueInt.n;
      } else if handle == pc {
        curPcVal := valueInt.n;
      } else if handle == clk && valueInt.n == 0 {
        PcsSnoc(s.samples, Sampling.Sample(time, s.vals));
        if curPcValidVal != 0 {
          pcTrace := pcTrace + [PcValue(time, curPcVal)];
        }
      }
    }

    /** init: every callback of the reader. */
    method Init(events: seq<Event>) returns (thrown: bool)
      requires Valid() && seen == []
      modifies this
      ensures thrown <==> Sampling.Play(Probe(), events).Failed?
      ensures !thrown ==> Valid() && seen == events
    {
      hide Sampling.Callback, Valid;
      var i := 0;
      thrown := false;
      while i < |events|
        invariant i <= |events| && seen == events[..i] && Valid()
      {
        assert events[..i + 1] == events[..i] + [events[i]];
        thrown := PcChanged(events[i].time, events[i].handle, events[i].val);
        if thrown {
          Sampling.FailsOn(Probe(), events, i + 1, |events|);
          assert events[..|events|] == events;
          return;
        }
        i := i + 1;
      }
      assert events[..i] == events;
      NotFailed();
    }

    lemma NotFailed()
      requires Valid()
      ensures Sampling.Play(Probe(), seen).Going?
    {
    }
  }

  lemma PlaceTwo(a: nat, b: nat, handle: nat)
    ensures Sampling.Place([a, b], handle) == if handle == a then 0 else if handle == b then 1 else 2
  {
    assert [a, b][1..] == [b] && [b][1..] == [];
  }

  /** The trace is what the three signals' own changes say: an instruction for
      every falling clock edge before which pc_valid was last set, with the last
      pc from before the edge. So callbacks of the same time may come in any
      order. */
  lemma TraceOfLists(p: Sampling.Probe, a: seq<Event>, b: seq<Event>)
    requires Sampling.Distinct(p) && Sampling.Settled(p, a) && Sampling.SameLists(a, b)
    requires Sampling.InTimeOrder(a) && Sampling.InTimeOrder(b)
    ensures var x, y := Sampling.Play(p, a), Sampling.Play(p, b);
      && (x.Failed? <==> y.Failed?)
      && (x.Going? ==>
            && PcsOf(x.samples) == PcsOf(Sampling.SampledAt(p, a, Sampling.ListOf(a, p.clk)))
            && PcsOf(x.samples) == PcsOf(y.samples))
  {
    hide Sampling.Settled, Sampling.InTimeOrder, Sampling.SameLists, PcsOf;
    Sampling.OrderIndependent(p, a, b);
    Sampling.PlayIs(p, a);
  }

  /** Retired instructions are listed in time order. */
  lemma {:induction false} PcsInOrder(samples: seq<Sampling.Sample>)
    requires forall j, k :: 0 <= j < k < |samples| ==> samples[j].time <= samples[k].time
    ensures var pcs := PcsOf(samples);
      && (forall j, k :: 0 <= j < k < |pcs| ==> pcs[j].time <= pcs[k].time)
      && (forall v :: v in pcs ==> samples != [] && v.time <= samples[|samples| - 1].time)
    decreases |samples|
  {
    if samples != [] {
      var n := |samples| - 1;
      PcsInOrder(samples[..n]);
      assert n > 0 ==> samples[..n][n - 1].time <= samples[n].time;
    }
  }
}
