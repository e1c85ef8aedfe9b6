/** A run of two instructions from the calls that write it to the registers that the
    debugger of src/gdbstub_sys.cc shows: it meets every condition on the way, and all
    that is to be seen is known. */
module SmallSession {
  import opened Bytes
  import opened Chain
  import opened Course
  import opened KeptTables
  import opened Merge
  import opened RoundTrip
  import opened Extraction
  import Accesses
  import CpuTrace
  import Debugger
  import FastLz
  import Frame
  import Lz
  import Lz4
  import RegFileTrace
  import Sampling
  import Section
  import SmallRun
  import Stored
  import Varint

  /** The clock, pc_valid, a pc of four bits, a register write enable, an address of
      three bits and data of four. */
  const LENS: seq<nat> := [1, 1, 4, 1, 3, 4]
  const SIGNALS: Signals := Signals(1, 2, 3, 4, 5, 6)

  /** Before a falling edge at 5 the pc becomes 8 and register 5 is to be 7; before the
      next one, at 10, the pc becomes 12 and the data 9. */
  const CALLS: seq<Call> :=
    [TimeChange(1), ValueChange(2, [49]), ValueChange(3, [49, 48, 48, 48]), ValueChange(4, [49]), ValueChange(5, [49, 48, 49]),
     ValueChange(6, [48, 49, 49, 49]), TimeChange(5), ValueChange(1, [48]), TimeChange(7), ValueChange(1, [49]),
     ValueChange(3, [49, 49, 48, 48]), ValueChange(6, [49, 48, 48, 49]), TimeChange(10), ValueChange(1, [48])]

  const EVENTS: seq<Event> :=
    [Event(1, 2, [49]), Event(1, 3, [49, 48, 48, 48]), Event(1, 4, [49]), Event(1, 5, [49, 48, 49]), Event(1, 6, [48, 49, 49, 49]),
     Event(5, 1, [48]), Event(7, 1, [49]), Event(7, 3, [49, 49, 48, 48]), Event(7, 6, [49, 48, 48, 49]), Event(10, 1, [48])]

  // ----- the run -----

  /** What the first `i` calls mean. */
  ghost predicate Has(i: nat, now: nat, k: nat)
    requires i <= |CALLS| && k <= |EVENTS|
  {
    var m := Run(Start(LENS), CALLS[..i]);
    m.started && !m.given && |m.vals| == |m.initial| == 6 && m.now == now && m.events == EVENTS[..k]
  }

  lemma RunSnoc(m: Meaning, calls: seq<Call>, i: nat)
    requires i < |calls|
    ensures Run(m, calls[..i + 1]) == Step(Run(m, calls[..i]), calls[i])
  {
    assert calls[..i + 1][..i] == calls[..i];
  }

  lemma ValueTold(i: nat, now: nat, k: nat)
    requires i < |CALLS| && k < |EVENTS| && Has(i, now, k)
    requires CALLS[i] == ValueChange(EVENTS[k].handle, EVENTS[k].val) && EVENTS[k].time == now && 1 <= EVENTS[k].handle <= 6
    ensures Has(i + 1, now, k + 1)
  {
    hide Run;
    RunSnoc(Start(LENS), CALLS, i);
    assert EVENTS[..k + 1] == EVENTS[..k] + [EVENTS[k]];
  }

  lemma TimeTold(i: nat, now: nat, k: nat)
    requires i < |CALLS| && k <= |EVENTS| && Has(i, now, k) && CALLS[i].TimeChange?
    ensures Has(i + 1, CALLS[i].tim, k)
  {
    hide Run;
    RunSnoc(Start(LENS), CALLS, i);
  }

  lemma Opening()
    ensures Has(1, 1, 0)
  {
    RunSnoc(Start(LENS), CALLS, 0);
    assert CALLS[..0] == [] && EVENTS[..0] == [];
  }

  lemma TwoTold()
    ensures Has(3, 1, 2)
  {
    hide Has;
    Opening();
    ValueTold(1, 1, 0);
    ValueTold(2, 1, 1);
  }

  lemma FirstTold()
    ensures Has(6, 1, 5)
  {
    hide Has;
    TwoTold();
    ValueTold(3, 1, 2);
    ValueTold(4, 1, 3);
    ValueTold(5, 1, 4);
  }

  lemma NextTold()
    ensures Has(10, 7, 7)
  {
    hide Has;
    FirstTold();
    TimeTold(6, 1, 5);
    ValueTold(7, 5, 5);
    TimeTold(8, 5, 6);
    ValueTold(9, 7, 6);
  }

  lemma AllTold()
    ensures Has(14, 10, 10)
  {
    hide Has;
    NextTold();
    ValueTold(10, 7, 7);
    ValueTold(11, 7, 8);
    TimeTold(12, 7, 9);
    ValueTold(13, 10, 9);
  }

  lemma Meant(breakSize: nat)
    ensures var m := Follow(breakSize, LENS, CALLS).m;
      m.started && !m.given && |m.vals| == |m.initial| == 6 && m.events == EVENTS
  {
    hide Run, Follow;
    AllTold();
    assert CALLS[..14] == CALLS && EVENTS[..10] == EVENTS;
    assert Follow(breakSize, LENS, CALLS).m == Run(Start(LENS), CALLS);
  }

  lemma IsReported(breakSize: nat)
    ensures Reported(Follow(breakSize, LENS, CALLS)) == EVENTS
  {
    hide Follow, Canonical, Final;
    Meant(breakSize);
    var events := EVENTS;
    forall k | 0 <= k < |events| ensures Spell(events[k]) == events[k] {
      Letters(48, events[k].val);
      Letters(49, events[k].val);
    }
    assert Spelled(events) == events;
  }

  // ----- its conditions -----

  lemma {:induction false} SmallWeights(calls: seq<Call>)
    requires forall k :: 0 <= k < |calls| ==> calls[k].ValueChange? ==> |calls[k].val| <= 4
    ensures Weights(calls) <= 14 * |calls|
    decreases |calls|
  {
    if calls != [] { SmallWeights(calls[..|calls| - 1]); }
  }

  lemma CanBeWritten(breakSize: nat)
    requires breakSize >= 1000
    ensures Roomy(breakSize, LENS, CALLS) && forall k :: 0 <= k < |CALLS| ==> Acceptable(LENS, CALLS[k])
    ensures TimeGoesOn(CALLS) && |Final(Follow(breakSize, LENS, CALLS))| <= 1
  {
    hide Follow, Roomy, Final;
    SmallWeights(CALLS);
    SmallIsRoomy(breakSize, LENS, CALLS);
    OneSection(breakSize, LENS, CALLS);
  }

  lemma WidthsFit()
    ensures 1 + 10 * |LENS| + Frame.Offset(LENS, |LENS|) <= 0x4000_0000
  {
    assert Frame.Offset(LENS, 6) == 14 by {
      assert Frame.Offset(LENS, 3) == 6;
    }
  }

  /** Few changes of a narrow signal make a short chain. */
  lemma {:induction false} ShortChain(len: nat, prev: nat, cs: seq<Change>)
    requires 1 <= len && Ordered(len, prev, cs)
    ensures |Encode(len, prev, cs)| <= (5 + len) * |cs|
    decreases |cs|
  {
    hide Record;
    if cs != [] {
      OrderedTail(len, prev, cs);
      ShortRecord(cs[0].tidx - prev, cs[0].val);
      ShortChain(len, cs[0].tidx, cs[1..]);
    }
  }

  lemma ShortRecord(delta: nat, val: seq<byte>)
    requires val != []
    ensures |Record(delta, val)| <= 5 + |val|
  {
    Varint.WordLengths(Packed(delta, val));
  }

  lemma FewChanges(breakSize: nat, h: nat)
    requires breakSize >= 1000 && h < 6
    ensures forall k :: 0 <= k < |Final(Follow(breakSize, LENS, CALLS))| ==>
      var p := Final(Follow(breakSize, LENS, CALLS))[k]; h < |p.log| && |p.log[h]| <= 3
  {
    hide Follow, Final, Of, Made, Told;
    var d := Follow(breakSize, LENS, CALLS);
    CanBeWritten(breakSize);
    Meant(breakSize);
    IndexedAlong(breakSize, LENS, CALLS);
    TellsAlong(breakSize, LENS, CALLS);
    FinalTells(d, h);
    FinalAt(d);
    FewEvents(h);
    if Final(d) != [] {
      assert Final(d) == [Final(d)[0]];
      ToldOne(Final(d)[0], h);
      MadeMany(Final(d)[0], h);
    }
  }

  lemma MadeMany(p: Part, h: nat)
    requires AllAt(p) && h < |p.log|
    ensures |Made(p, h)| == |p.log[h]|
  {
    assert AllInTable(p.log[h], |p.announced|);
  }

  lemma FewEvents(h: nat)
    ensures |Of(EVENTS, h)| <= 3
  {
    hide Of;
    assert Of(EVENTS[..0], h) == [] by { NoEvents(h); }
    NextEvent(0, h);
    NextEvent(1, h);
    NextEvent(2, h);
    NextEvent(3, h);
    NextEvent(4, h);
    NextEvent(5, h);
    NextEvent(6, h);
    NextEvent(7, h);
    NextEvent(8, h);
    NextEvent(9, h);
    assert EVENTS[..10] == EVENTS;
  }

  lemma NoEvents(h: nat)
    ensures Of(EVENTS[..0], h) == []
  {
  }

  lemma NextEvent(k: nat, h: nat)
    requires k < 10
    ensures |Of(EVENTS[..k + 1], h)| == |Of(EVENTS[..k], h)| + if EVENTS[k].handle == h + 1 then 1 else 0
  {
    OfSnoc(EVENTS[..k], EVENTS[k], h);
    assert EVENTS[..k + 1] == EVENTS[..k] + [EVENTS[k]];
  }

  lemma ChainsApart(breakSize: nat, mask: seq<bool>)
    requires breakSize >= 1000 && |mask| == 6
    ensures Undisturbed(LENS, mask, Final(Follow(breakSize, LENS, CALLS)))
  {
    hide Follow, Final, Separate;
    CanBeWritten(breakSize);
    var parts := Final(Follow(breakSize, LENS, CALLS));
    forall k | 0 <= k < |parts| ensures Separate(LENS, mask, parts[k]) {
      SectionApart(breakSize, mask, k);
    }
  }

  lemma SectionApart(breakSize: nat, mask: seq<bool>, k: nat)
    requires breakSize >= 1000 && |mask| == 6 && k < |Final(Follow(breakSize, LENS, CALLS))|
    ensures Separate(LENS, mask, Final(Follow(breakSize, LENS, CALLS))[k])
  {
    hide Follow, Final, ChainOf, FastLz.Restores, Lz4.Restores;
    var p := Final(Follow(breakSize, LENS, CALLS))[k];
    forall h | 0 <= h < 6 ensures |ChainOf(LENS, p, h)| <= 32 {
      FewChanges(breakSize, h);
      ShortOf(p, h);
    }
  }

  lemma ShortOf(p: Part, h: nat)
    requires h < 6 && h < |p.log| && |p.log[h]| <= 3
    ensures |ChainOf(LENS, p, h)| <= 32
  {
    hide Encode;
    if Ordered(LENS[h], 0, p.log[h]) { ShortChain(LENS[h], 0, p.log[h]); }
  }

  lemma TimesRight(breakSize: nat, mask: seq<bool>)
    requires breakSize >= 1000 && |mask| == 6
    ensures Timed(LENS, mask, Final(Follow(breakSize, LENS, CALLS)))
  {
    hide Follow, Final, Fit, InStep, IdleAt, SectionAt, Acceptable;
    CanBeWritten(breakSize);
    FinalInStep(breakSize, LENS, CALLS);
    forall i | 0 <= i < |CALLS| ensures !IdleAt(breakSize, LENS, CALLS, i) {
      NoRequests(breakSize, LENS, CALLS, i);
    }
    var parts := Final(Follow(breakSize, LENS, CALLS));
    forall k, h | 0 <= k < |parts| && 0 <= h < |mask| && mask[h] ensures Fit(LENS, parts[k], h) {
      ShortRunFits(breakSize, LENS, CALLS, k, h);
    }
  }

  lemma {:induction false} HeardIn(p: Sampling.Probe, events: seq<Event>)
    ensures forall e :: e in Heard(p, events) ==> e in events
    decreases |events|
  {
    if events != [] { HeardIn(p, events[..|events| - 1]); }
  }

  /** No other signal changes when the clock falls. */
  lemma IsSettled(p: Sampling.Probe)
    requires p.clk == 1 && 1 !in p.watched
    ensures Sampling.Settled(p, Heard(p, EVENTS))
  {
    hide Sampling.Parse, Heard;
    HeardIn(p, EVENTS);
    Numbers();
  }

  lemma IsTraceable(breakSize: nat)
    requires breakSize >= 1000
    ensures Traceable(CpuProbe(SIGNALS), breakSize, LENS, CALLS) && Untroubled(CpuProbe(SIGNALS), breakSize, LENS, CALLS)
    ensures Traceable(RegProbe(SIGNALS), breakSize, LENS, CALLS) && Untroubled(RegProbe(SIGNALS), breakSize, LENS, CALLS)
  {
    hide Follow, Final, Timed, Undisturbed, Reported, Sampling.Settled, Heard, TimeGoesOn, MaskFor;
    CanBeWritten(breakSize);
    IsReported(breakSize);
    IsSettled(CpuProbe(SIGNALS));
    IsSettled(RegProbe(SIGNALS));
    TimesRight(breakSize, MaskFor(CpuProbe(SIGNALS), 6));
    TimesRight(breakSize, MaskFor(RegProbe(SIGNALS), 6));
    ChainsApart(breakSize, MaskFor(CpuProbe(SIGNALS), 6));
    ChainsApart(breakSize, MaskFor(RegProbe(SIGNALS), 6));
  }

  // ----- its traces -----

  /** What the values of the run are as numbers. */
  lemma Numbers()
    ensures Sampling.Weighed([48], 0) == 0 && Sampling.Weighed([49], 0) == 1 && Sampling.Weighed([49, 48, 49], 0) == 5
    ensures Sampling.Parse([48]) == Sampling.Number(0) && Sampling.Parse([49]) == Sampling.Number(1)
  {
  }

  lemma LargerNumbers()
    ensures Sampling.Weighed([48, 49, 49, 49], 0) == 7 && Sampling.Weighed([49, 48, 48, 48], 0) == 8
    ensures Sampling.Weighed([49, 49, 48, 48], 0) == 12 && Sampling.Weighed([49, 48, 48, 49], 0) == 9
  {
  }

  /** Where the extractor stands after the first `k` events. */
  ghost predicate Stands(p: Sampling.Probe, k: nat, vals: seq<nat>, samples: seq<Sampling.Sample>)
    requires k <= |EVENTS|
  {
    Sampling.Play(p, Heard(p, EVENTS[..k])) == Sampling.Going(vals, samples)
  }

  ghost predicate Usual(p: Sampling.Probe) {
    p.clk == 1 && 1 !in p.watched && forall i, j :: 0 <= i < j < |p.watched| ==> p.watched[i] != p.watched[j]
  }

  lemma HeardNext(p: Sampling.Probe, k: nat)
    requires k < 10
    ensures Heard(p, EVENTS[..k + 1]) == Heard(p, EVENTS[..k]) + if Selected(p, EVENTS[k].handle) then [EVENTS[k]] else []
  {
    hide Selected;
    assert EVENTS[..k + 1][..k] == EVENTS[..k];
  }

  lemma NotHeard(p: Sampling.Probe, k: nat, vals: seq<nat>, samples: seq<Sampling.Sample>)
    requires k < 10 && Stands(p, k, vals, samples) && EVENTS[k].handle != p.clk && EVENTS[k].handle !in p.watched
    ensures Stands(p, k + 1, vals, samples)
  {
    hide Heard, Sampling.Play;
    HeardNext(p, k);
    assert Heard(p, EVENTS[..k]) + [] == Heard(p, EVENTS[..k]);
  }

  lemma ClockFalls(p: Sampling.Probe, k: nat, vals: seq<nat>, samples: seq<Sampling.Sample>, more: seq<Sampling.Sample>)
    requires k < 10 && Usual(p) && Stands(p, k, vals, samples) && EVENTS[k].handle == 1 && EVENTS[k].val == [48]
    requires more == samples + [Sampling.Sample(EVENTS[k].time, vals)]
    ensures Stands(p, k + 1, vals, more)
  {
    hide Heard, Sampling.Play, Sampling.Weighed;
    HeardNext(p, k);
    Sampling.OneMore(p, Heard(p, EVENTS[..k]), EVENTS[k]);
  }

  lemma ClockRises(p: Sampling.Probe, k: nat, vals: seq<nat>, samples: seq<Sampling.Sample>)
    requires k < 10 && Usual(p) && Stands(p, k, vals, samples) && EVENTS[k].handle == 1 && EVENTS[k].val == [49]
    ensures Stands(p, k + 1, vals, samples)
  {
    hide Heard, Sampling.Play, Sampling.Weighed;
    HeardNext(p, k);
    Sampling.OneMore(p, Heard(p, EVENTS[..k]), EVENTS[k]);
  }

  lemma NumberHeard(p: Sampling.Probe, k: nat, vals: seq<nat>, samples: seq<Sampling.Sample>, j: nat, n: nat, after: seq<nat>)
    requires k < 10 && Usual(p) && Stands(p, k, vals, samples) && j < |vals| == |p.watched| && EVENTS[k].handle == p.watched[j]
    requires Sampling.Weighed(EVENTS[k].val, 0) == n < 16 && after == vals[j := n]
    ensures Stands(p, k + 1, after, samples)
  {
    hide Heard, Sampling.Play, Sampling.Weighed;
    HeardNext(p, k);
    Sampling.OneMore(p, Heard(p, EVENTS[..k]), EVENTS[k]);
  }

  lemma NoneHeard(p: Sampling.Probe, vals: seq<nat>)
    requires vals == seq(|p.watched|, _ => 0)
    ensures Stands(p, 0, vals, [])
  {
    assert EVENTS[..0] == [];
  }

  const CPU: Sampling.Probe := CpuProbe(SIGNALS)
  const REGS: Sampling.Probe := RegProbe(SIGNALS)

  const PCS: seq<Sampling.Sample> := [Sampling.Sample(5, [1, 8]), Sampling.Sample(10, [1, 12])]
  const WRITES: seq<Sampling.Sample> := [Sampling.Sample(5, [1, 5, 7]), Sampling.Sample(10, [1, 5, 9])]

  lemma FirstNumbers()
    ensures Stands(CPU, 2, [1, 8], [])
  {
    hide Stands, Sampling.Weighed, Sampling.Parse;
    Numbers();
    LargerNumbers();
    NoneHeard(CPU, [0, 0]);
    NumberHeard(CPU, 0, [0, 0], [], 0, 1, [1, 0]);
    NumberHeard(CPU, 1, [1, 0], [], 1, 8, [1, 8]);
  }

  lemma FirstInstruction()
    ensures Stands(CPU, 7, [1, 8], PCS[..1])
  {
    hide Stands;
    FirstNumbers();
    NotHeard(CPU, 2, [1, 8], []);
    NotHeard(CPU, 3, [1, 8], []);
    NotHeard(CPU, 4, [1, 8], []);
    ClockFalls(CPU, 5, [1, 8], [], PCS[..1]);
    ClockRises(CPU, 6, [1, 8], PCS[..1]);
  }

  lemma Instructions()
    ensures Stands(CPU, 10, [1, 12], PCS)
  {
    hide Stands, Sampling.Weighed;
    LargerNumbers();
    FirstInstruction();
    NumberHeard(CPU, 7, [1, 8], PCS[..1], 1, 12, [1, 12]);
    NotHeard(CPU, 8, [1, 12], PCS[..1]);
    ClockFalls(CPU, 9, [1, 12], PCS[..1], PCS);
  }

  lemma WriteNumbers()
    ensures Stands(REGS, 5, [1, 5, 7], [])
  {
    hide Stands, Sampling.Weighed, Sampling.Parse;
    Numbers();
    LargerNumbers();
    NoneHeard(REGS, [0, 0, 0]);
    NotHeard(REGS, 0, [0, 0, 0], []);
    NotHeard(REGS, 1, [0, 0, 0], []);
    NumberHeard(REGS, 2, [0, 0, 0], [], 0, 1, [1, 0, 0]);
    NumberHeard(REGS, 3, [1, 0, 0], [], 1, 5, [1, 5, 0]);
    NumberHeard(REGS, 4, [1, 5, 0], [], 2, 7, [1, 5, 7]);
  }

  lemma FirstWrite()
    ensures Stands(REGS, 7, [1, 5, 7], WRITES[..1])
  {
    hide Stands;
    WriteNumbers();
    ClockFalls(REGS, 5, [1, 5, 7], [], WRITES[..1]);
    ClockRises(REGS, 6, [1, 5, 7], WRITES[..1]);
  }

  lemma Writes()
    ensures Stands(REGS, 10, [1, 5, 9], WRITES)
  {
    hide Stands, Sampling.Weighed;
    LargerNumbers();
    FirstWrite();
    NotHeard(REGS, 7, [1, 5, 7], WRITES[..1]);
    NumberHeard(REGS, 8, [1, 5, 7], WRITES[..1], 2, 9, [1, 5, 9]);
    ClockFalls(REGS, 9, [1, 5, 9], WRITES[..1], WRITES);
  }

  /** The two instructions and the two writes of register 5. */
  lemma TracesOf(breakSize: nat)
    ensures var cpu, regs := SamplesOf(CPU, breakSize, LENS, CALLS), SamplesOf(REGS, breakSize, LENS, CALLS);
      && cpu.Going? && CpuTrace.PcsOf(cpu.samples) == [CpuTrace.PcValue(5, 8), CpuTrace.PcValue(10, 12)]
      && regs.Going? && RegFileTrace.WritesOf(regs.samples) == [Accesses.Access(5, true, 5, 7), Accesses.Access(10, true, 5, 9)]
  {
    hide Follow, Reported, Heard, Sampling.Play;
    IsReported(breakSize);
    Instructions();
    Writes();
    assert EVENTS[..10] == EVENTS;
    TwoPcs();
    TwoWrites();
  }

  lemma TwoPcs()
    ensures CpuTrace.PcsOf(PCS) == [CpuTrace.PcValue(5, 8), CpuTrace.PcValue(10, 12)]
  {
    hide CpuTrace.PcsOf;
    assert CpuTrace.PcsOf([]) == [] by { NoPcs(); }
    CpuTrace.PcsSnoc([], PCS[0]);
    CpuTrace.PcsSnoc([PCS[0]], PCS[1]);
    assert [] + [PCS[0]] == [PCS[0]] && [PCS[0]] + [PCS[1]] == PCS;
  }

  lemma NoPcs()
    ensures CpuTrace.PcsOf([]) == [] && RegFileTrace.WritesOf([]) == []
  {
  }

  lemma TwoWrites()
    ensures RegFileTrace.WritesOf(WRITES) == [Accesses.Access(5, true, 5, 7), Accesses.Access(10, true, 5, 9)]
  {
    hide RegFileTrace.WritesOf;
    assert RegFileTrace.WritesOf([]) == [] by { NoPcs(); }
    RegFileTrace.WritesSnoc([], WRITES[0]);
    RegFileTrace.WritesSnoc([WRITES[0]], WRITES[1]);
    assert [] + [WRITES[0]] == [WRITES[0]] && [WRITES[0]] + [WRITES[1]] == WRITES;
  }

  // ----- the debugger -----

  /** What is to be seen at the first instruction and at the second: the pc, register
      5, and registers never written. */
  ghost predicate SeenAt(v: View, it: nat) {
    && v.Shows? && v.it == it && |v.registers| == 33
    && v.registers[32] == (if it == 0 then 8 else 12) && v.registers[5] == (if it == 0 then 7 else 9)
    && forall i :: 0 <= i < 32 && i != 5 ==> v.registers[i] == 0xdead_beef
  }

  lemma SeenIs(breakSize: nat, commands: seq<Debugger.Command>, v: View, it: nat)
    requires ShowsRun(v, SamplesOf(CPU, breakSize, LENS, CALLS), SamplesOf(REGS, breakSize, LENS, CALLS), commands)
    requires var pcs := [CpuTrace.PcValue(5, 8), CpuTrace.PcValue(10, 12)];
      Debugger.Session(pcs, Debugger.View(0, {}), commands).it == it
    ensures SeenAt(v, it)
  {
    hide SamplesOf, CpuTrace.PcsOf, RegFileTrace.WritesOf, Debugger.Session;
    TracesOf(breakSize);
    forall i: nat | i < 32 { RegistersAt(i); }
  }

  lemma RegistersAt(i: nat)
    ensures var writes := [Accesses.Access(5, true, 5, 7), Accesses.Access(10, true, 5, 9)];
      && Debugger.RegisterAt(writes, 5, i) == (if i == 5 then 7 else 0xdead_beef)
      && Debugger.RegisterAt(writes, 10, i) == (if i == 5 then 9 else 0xdead_beef)
  {
    var a, b := Accesses.Access(5, true, 5, 7), Accesses.Access(10, true, 5, 9);
    assert [] + [a] == [a] && [a] + [b] == [a, b];
    Debugger.RegisterShows([], a, 5, i);
    Debugger.RegisterShows([], a, 10, i);
    Debugger.RegisterShows([a], b, 5, i);
    Debugger.RegisterShows([a], b, 10, i);
  }

  /** The cursor after a step, two steps, and continuing with a breakpoint. */
  lemma CursorAt(addr: nat)
    ensures var pcs, v := [CpuTrace.PcValue(5, 8), CpuTrace.PcValue(10, 12)], Debugger.View(0, {});
      && Debugger.Session(pcs, v, []).it == 0 && Debugger.Session(pcs, v, [Debugger.Step]).it == 1
      && Debugger.Session(pcs, v, [Debugger.Step, Debugger.Step]).it == 1
      && Debugger.Session(pcs, v, [Debugger.AddBreakpoint(addr), Debugger.Continue]).it == if addr == 8 then 0 else 1
  {
    hide Debugger.Session;
    var pcs, v := [CpuTrace.PcValue(5, 8), CpuTrace.PcValue(10, 12)], Debugger.View(0, {});
    assert Debugger.Session(pcs, v, []) == v by { NoCommands(pcs, v); }
    assert [] + [Debugger.Step] == [Debugger.Step] && [Debugger.Step] + [Debugger.Step] == [Debugger.Step, Debugger.Step];
    Debugger.SessionCursor(pcs, v, [], Debugger.Step);
    Debugger.SessionCursor(pcs, v, [Debugger.Step], Debugger.Step);
    var add := Debugger.AddBreakpoint(addr);
    assert [] + [add] == [add] && [add] + [Debugger.Continue] == [add, Debugger.Continue];
    Debugger.SessionCursor(pcs, v, [], add);
    Debugger.SessionCursor(pcs, v, [add], Debugger.Continue);
    Debugger.SessionBreakpoints(pcs, v, [add], addr);
    Debugger.SessionBreakpoints(pcs, v, [add], 8);
    assert Debugger.AddedAt([add], addr, 0);
    assert pcs[0].pc == 8;
  }

  lemma NoCommands(pcs: seq<CpuTrace.PcValue>, v: Debugger.View)
    requires v.it < |pcs|
    ensures Debugger.Session(pcs, v, []) == v
  {
  }

  /** The run written to a file, read back and debugged. */
  method Shown(mode: Stored.Mode, hash: nat -> Lz.Slot, jhash: seq<byte> -> nat, breakSize: nat,
               commands: seq<Debugger.Command>, ghost it: nat)
    returns (v: View)
    requires breakSize >= 1000
    requires Debugger.Session([CpuTrace.PcValue(5, 8), CpuTrace.PcValue(10, 12)], Debugger.View(0, {}), commands).it == it
    ensures SeenAt(v, it)
  {
    hide Debugger.Session, SamplesOf, ShowsRun, SeenAt, Traceable, Untroubled, Roomy, Acceptable, Frame.Offset, Section.Sound,
      Follow, Final, TimeGoesOn, CpuProbe, RegProbe, SmallRun.Plain;
    CanBeWritten(breakSize);
    WidthsFit();
    PlainSound();
    IsTraceable(breakSize);
    v := DebugRun(SmallRun.Plain(), mode, hash, jhash, 1, breakSize, LENS, [], CALLS, SIGNALS, commands);
    SeenIs(breakSize, commands, v, it);
  }

  lemma PlainSound()
    ensures Section.Sound(SmallRun.Plain())
  {
  }

  /** At first the pc is 8 and register 5 is 7; after a step, or two, the pc is 12 and
      register 5 is 9; continuing with a breakpoint set at `addr` stays at the first
      instruction exactly if that is 8. */
  method Debugged(mode: Stored.Mode, hash: nat -> Lz.Slot, jhash: seq<byte> -> nat, breakSize: nat, addr: nat)
    returns (first: View, stepped: View, twice: View, continued: View)
    requires breakSize >= 1000
    ensures SeenAt(first, 0) && SeenAt(stepped, 1) && SeenAt(twice, 1) && SeenAt(continued, if addr == 8 then 0 else 1)
  {
    hide Debugger.Session, SeenAt;
    CursorAt(addr);
    first := Shown(mode, hash, jhash, breakSize, [], 0);
    stepped := Shown(mode, hash, jhash, breakSize, [Debugger.Step], 1);
    twice := Shown(mode, hash, jhash, breakSize, [Debugger.Step, Debugger.Step], 1);
    continued := Shown(mode, hash, jhash, breakSize, [Debugger.AddBreakpoint(addr), Debugger.Continue], if addr == 8 then 0 else 1);
  }
}
