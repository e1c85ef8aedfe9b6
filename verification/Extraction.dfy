/** From the calls that wrote a trace file to what the debugger shows: extracting
    the traces from the file gives what extracting them from the run itself would. */
module Extraction {
  import opened Bytes
  import opened Course
  import opened KeptTables
  import opened Merge
  import opened RoundTrip
  import opened TraceFile
  import opened Writer
  import Accesses
  import CpuTrace
  import Debugger
  import Frame
  import Lz
  import MemTrace
  import RegFileTrace
  import Sampling
  import Section
  import Session
  import Stored

  // ----- selecting signals -----

  predicate Selected(p: Sampling.Probe, handle: nat) {
    handle == p.clk || handle in p.watched
  }

  /** fstReaderSetFacProcessMask for the clock and the signals watched. */
  function MaskFor(p: Sampling.Probe, n: nat): (mask: seq<bool>)
    ensures |mask| == n && forall h :: 0 <= h < n ==> (mask[h] <==> Selected(p, h + 1))
  {
    seq(n, h requires 0 <= h < n => Selected(p, h + 1))
  }

  /** The clock and the signals watched are all there. */
  ghost predicate Assigned(p: Sampling.Probe, n: nat) {
    forall handle: nat :: Selected(p, handle) ==> 1 <= handle <= n
  }

  /** The events of the signals a trace is made from. */
  function Heard(p: Sampling.Probe, events: seq<Event>): seq<Event>
    decreases |events|
  {
    if events == [] then []
    else
      var e := events[|events| - 1];
      Heard(p, events[..|events| - 1]) + if Selected(p, e.handle) then [e] else []
  }

  lemma OfMaybe(events: seq<Event>, e: Event, taken: bool, h: nat)
    ensures Of(events + if taken then [e] else [], h) == Of(events, h) + if taken && e.handle == h + 1 then [e] else []
  {
    hide Of;
    OfSnoc(events, e, h);
    assert events + [] == events;
  }

  lemma {:induction false} HeardOf(p: Sampling.Probe, events: seq<Event>, h: nat)
    ensures Of(Heard(p, events), h) == if Selected(p, h + 1) then Of(events, h) else []
    decreases |events|
  {
    if events == [] {
      assert Of([], h) == [];
    } else {
      hide Selected, Of;
      var front, e := events[..|events| - 1], events[|events| - 1];
      HeardOf(p, front, h);
      OfMaybe(Heard(p, front), e, Selected(p, e.handle), h);
      OfSnoc(front, e, h);
      assert front + [e] == events;
    }
  }

  lemma {:induction false} HeardInOrder(p: Sampling.Probe, events: seq<Event>)
    requires Sampling.InTimeOrder(events)
    ensures Sampling.InTimeOrder(Heard(p, events))
    ensures forall e :: e in Heard(p, events) ==> Selected(p, e.handle) && events != [] && e.time <= events[|events| - 1].time
    decreases |events|
  {
    hide Selected;
    if events != [] {
      var n := |events| - 1;
      HeardInOrder(p, events[..n]);
      assert n > 0 ==> events[..n][n - 1].time <= events[n].time;
    }
  }

  // ----- samples -----

  lemma ListsAgree(p: Sampling.Probe, n: nat, d: Course, events: seq<Event>, handle: nat)
    requires GivesBack(events, MaskFor(p, n), d) && KnownHandles(events, n) && Assigned(p, n) && handle > 0
    ensures Sampling.ListOf(Heard(p, Reported(d)), handle) == Sampling.ListOf(events, handle)
  {
    hide Of, Selected, Heard, KnownHandles, Reported;
    HeardOf(p, Reported(d), handle - 1);
    if handle > n {
      NothingOf(events, n, handle);
    } else {
      assert MaskFor(p, n)[handle - 1] <==> Selected(p, handle);
    }
  }

  lemma NothingOf(events: seq<Event>, n: nat, handle: nat)
    requires KnownHandles(events, n) && handle > n
    ensures Sampling.ListOf(events, handle) == []
  {
    if Sampling.ListOf(events, handle) != [] {
      Sampling.ListMembers(events, handle, Sampling.ListOf(events, handle)[0]);
    }
  }

  lemma SomeHandles(p: Sampling.Probe, heard: seq<Event>, events: seq<Event>, n: nat)
    requires (forall e :: e in heard ==> Selected(p, e.handle)) && Assigned(p, n) && KnownHandles(events, n)
    ensures forall e :: e in heard || e in events ==> e.handle > 0
  {
    hide Selected;
  }

  /** A file written by a run and read back makes the same samples, and so the
      same instruction, register and memory traces, as the run itself. */
  lemma SamplesOfFile(p: Sampling.Probe, breakSize: nat, lens: seq<nat>, calls: seq<Call>, events: seq<Event>)
    requires Sampling.Distinct(p) && Assigned(p, |lens|) && TimeGoesOn(calls)
    requires GivesBack(events, MaskFor(p, |lens|), Follow(breakSize, lens, calls)) && KnownHandles(events, |lens|)
    requires Sampling.InTimeOrder(events) && Sampling.Settled(p, Heard(p, Reported(Follow(breakSize, lens, calls))))
    ensures var a, b := Sampling.Play(p, Heard(p, Reported(Follow(breakSize, lens, calls)))), Sampling.Play(p, events);
      (a.Failed? <==> b.Failed?) && (a.Going? ==> a.samples == b.samples)
  {
    hide Follow, Reported, GivesBack, KnownHandles, Assigned, Selected, Heard, MaskFor,
      Sampling.Settled, Sampling.InTimeOrder, Sampling.Play, Sampling.Distinct, Sampling.ListOf;
    var d := Follow(breakSize, lens, calls);
    var heard := Heard(p, Reported(d));
    InOrderOf(breakSize, lens, calls);
    HeardInOrder(p, Reported(d));
    forall handle: nat | handle > 0 ensures Sampling.ListOf(heard, handle) == Sampling.ListOf(events, handle) {
      ListsAgree(p, |lens|, d, events, handle);
    }
    SomeHandles(p, heard, events, |lens|);
    Sampling.OrderIndependent(p, heard, events);
  }

  lemma InOrderOf(breakSize: nat, lens: seq<nat>, calls: seq<Call>)
    requires TimeGoesOn(calls)
    ensures Sampling.InTimeOrder(Reported(Follow(breakSize, lens, calls)))
  {
    hide Follow, Reported;
    ReportedInOrder(breakSize, lens, calls);
  }

  // ----- the traces of a run -----

  /** What the extractors need of a run: all their signals are there, different,
      and settled at the falling clock edge, and the file can tell their times. */
  ghost predicate Traceable(p: Sampling.Probe, breakSize: nat, lens: seq<nat>, calls: seq<Call>) {
    && Sampling.Distinct(p) && Assigned(p, |lens|) && TimeGoesOn(calls)
    && Timed(lens, MaskFor(p, |lens|), Final(Follow(breakSize, lens, calls)))
    && Sampling.Settled(p, Heard(p, Reported(Follow(breakSize, lens, calls))))
  }

  /** What they need of the file: the reader's tables are right for their signals. */
  ghost predicate Clear(p: Sampling.Probe, lens: seq<nat>, blocks: seq<Block>) {
    CleanRun(ZeroTables(|lens|), MaskFor(p, |lens|), blocks)
  }

  /** Which the sections of the run say, if they are undisturbed. */
  ghost predicate Untroubled(p: Sampling.Probe, breakSize: nat, lens: seq<nat>, calls: seq<Call>) {
    Undisturbed(lens, MaskFor(p, |lens|), Final(Follow(breakSize, lens, calls)))
  }

  lemma UntroubledClear(z: Section.Zlib, p: Sampling.Probe, breakSize: nat, lens: seq<nat>, calls: seq<Call>,
                        file: seq<byte>, start: nat, blocks: seq<Block>)
    requires Recorded(z, breakSize, lens, calls, file, start, blocks) && Untroubled(p, breakSize, lens, calls)
    ensures Clear(p, lens, blocks)
  {
    hide Holds, Readable, AllOk, Session.BlocksOf, Follow, Final, Undisturbed;
    RunClean(lens, MaskFor(p, |lens|), blocks, Final(Follow(breakSize, lens, calls)));
  }

  /** The samples that the run itself would make. */
  ghost function SamplesOf(p: Sampling.Probe, breakSize: nat, lens: seq<nat>, calls: seq<Call>): Sampling.State {
    Sampling.Play(p, Heard(p, Reported(Follow(breakSize, lens, calls))))
  }

  /** getValueChanges: every callback of the selected signals. */
  method ValueChanges(z: Section.Zlib, file: seq<byte>, start: nat, lens: seq<nat>, ghost p: Sampling.Probe, mask: seq<bool>,
                      ghost breakSize: nat, ghost calls: seq<Call>, ghost blocks: seq<Block>)
    returns (events: seq<Event>)
    requires Section.Sound(z) && Recorded(z, breakSize, lens, calls, file, start, blocks)
    requires Traceable(p, breakSize, lens, calls) && Clear(p, lens, blocks) && mask == MaskFor(p, |lens|)
    ensures Sampling.InTimeOrder(events)
    ensures var a, b := SamplesOf(p, breakSize, lens, calls), Sampling.Play(p, events);
      (a.Failed? <==> b.Failed?) && (a.Going? ==> a.samples == b.samples)
  {
    hide Section.Sound, Recorded, Timed, CleanRun, GivesBack, Follow, Final, KnownHandles, Reported, Heard, Assigned, MaskFor,
      Sampling.Distinct, Sampling.Settled, Sampling.Play, TimeGoesOn;
    events := Read(z, file, start, lens, mask, breakSize, calls, blocks);
    SamplesOfFile(p, breakSize, lens, calls, events);
  }

  method CpuOf(z: Section.Zlib, file: seq<byte>, start: nat, lens: seq<nat>, clk: nat, pcValid: nat, pc: nat,
               ghost breakSize: nat, ghost calls: seq<Call>, ghost blocks: seq<Block>)
    returns (cpu: CpuTrace.CpuTrace, thrown: bool)
    requires Section.Sound(z) && Recorded(z, breakSize, lens, calls, file, start, blocks)
    requires Traceable(Sampling.Probe(clk, [pcValid, pc]), breakSize, lens, calls)
    requires Clear(Sampling.Probe(clk, [pcValid, pc]), lens, blocks)
    ensures fresh(cpu)
    ensures var s := SamplesOf(Sampling.Probe(clk, [pcValid, pc]), breakSize, lens, calls);
      && (thrown <==> s.Failed?) && (!thrown ==> cpu.pcTrace == CpuTrace.PcsOf(s.samples))
    ensures !thrown ==> forall j, k :: 0 <= j < k < |cpu.pcTrace| ==> cpu.pcTrace[j].time <= cpu.pcTrace[k].time
  {
    hide Section.Sound, Recorded, Traceable, Clear, SamplesOf, MaskFor, CpuTrace.PcsOf, Sampling.Play, Sampling.InTimeOrder;
    var p := Sampling.Probe(clk, [pcValid, pc]);
    var events := ValueChanges(z, file, start, lens, p, MaskFor(p, |lens|), breakSize, calls, blocks);
    cpu := new CpuTrace.CpuTrace(clk, pcValid, pc);
    thrown := cpu.Init(events);
    if !thrown {
      Sampling.SamplesInOrder(p, events);
      CpuTrace.PcsInOrder(Sampling.Play(p, events).samples);
    }
  }

  method RegsOf(z: Section.Zlib, file: seq<byte>, start: nat, lens: seq<nat>, clk: nat, memWr: nat, memAddr: nat, memWrData: nat,
                ghost breakSize: nat, ghost calls: seq<Call>, ghost blocks: seq<Block>)
    returns (regs: RegFileTrace.RegFileTrace, thrown: bool)
    requires Section.Sound(z) && Recorded(z, breakSize, lens, calls, file, start, blocks)
    requires Traceable(Sampling.Probe(clk, [memWr, memAddr, memWrData]), breakSize, lens, calls)
    requires Clear(Sampling.Probe(clk, [memWr, memAddr, memWrData]), lens, blocks)
    ensures fresh(regs)
    ensures var s := SamplesOf(Sampling.Probe(clk, [memWr, memAddr, memWrData]), breakSize, lens, calls);
      && (thrown <==> s.Failed?) && (!thrown ==> regs.regFileTrace == RegFileTrace.WritesOf(s.samples))
    ensures !thrown ==> Accesses.InTimeOrder(regs.regFileTrace)
  {
    hide Section.Sound, Recorded, Traceable, Clear, SamplesOf, MaskFor, RegFileTrace.WritesOf, Sampling.Play, Sampling.InTimeOrder,
      Accesses.InTimeOrder;
    var p := Sampling.Probe(clk, [memWr, memAddr, memWrData]);
    var events := ValueChanges(z, file, start, lens, p, MaskFor(p, |lens|), breakSize, calls, blocks);
    regs := new RegFileTrace.RegFileTrace(clk, memWr, memAddr, memWrData);
    thrown := regs.Init(events);
    if !thrown {
      Sampling.SamplesInOrder(p, events);
      RegFileTrace.WritesInOrder(Sampling.Play(p, events).samples);
    }
  }

  // ----- the debugger -----

  /** Handles of the signals the debugger's traces are made from. */
  datatype Signals = Signals(clk: nat, pcValid: nat, pc: nat, memWr: nat, memAddr: nat, memWrData: nat)

  function CpuProbe(s: Signals): Sampling.Probe {
    Sampling.Probe(s.clk, [s.pcValid, s.pc])
  }

  function RegProbe(s: Signals): Sampling.Probe {
    Sampling.Probe(s.clk, [s.memWr, s.memAddr, s.memWrData])
  }

  /** Which instruction the debugger is at, and the registers it shows; or an
      exception, or no instruction to be at. */
  datatype View = Shows(it: nat, registers: seq<nat>) | Thrown | NoTrace

  /** What it is to show after some commands. */
  ghost predicate ShowsRun(v: View, cpu: Sampling.State, regs: Sampling.State, commands: seq<Debugger.Command>) {
    if cpu.Failed? || regs.Failed? then v == Thrown
    else
      var pcs, writes := CpuTrace.PcsOf(cpu.samples), RegFileTrace.WritesOf(regs.samples);
      if pcs == [] then v == NoTrace
      else
        && v.Shows? && v.it == Debugger.Session(pcs, Debugger.View(0, {}), commands).it && |v.registers| == 33
        && v.registers[32] == Debugger.AddressOf(pcs[v.it].pc)
        && forall i :: 0 <= i < 32 ==> v.registers[i] == Debugger.RegisterAt(writes, pcs[v.it].time, i)
  }

  /** Open the debugger on a trace file and give it commands. */
  method DebugFile(z: Section.Zlib, file: seq<byte>, start: nat, lens: seq<nat>, s: Signals, commands: seq<Debugger.Command>,
                   ghost breakSize: nat, ghost calls: seq<Call>, ghost blocks: seq<Block>)
    returns (v: View)
    requires Section.Sound(z) && Recorded(z, breakSize, lens, calls, file, start, blocks)
    requires Traceable(CpuProbe(s), breakSize, lens, calls) && Traceable(RegProbe(s), breakSize, lens, calls)
    requires Clear(CpuProbe(s), lens, blocks) && Clear(RegProbe(s), lens, blocks)
    ensures ShowsRun(v, SamplesOf(CpuProbe(s), breakSize, lens, calls), SamplesOf(RegProbe(s), breakSize, lens, calls), commands)
  {
    hide Section.Sound, Recorded, Traceable, Clear, SamplesOf, CpuTrace.PcsOf, RegFileTrace.WritesOf, Accesses.InTimeOrder,
      Accesses.Replay, Debugger.Session;
    var cpu, thrown := CpuOf(z, file, start, lens, s.clk, s.pcValid, s.pc, breakSize, calls, blocks);
    if thrown { return Thrown; }
    var regs;
    regs, thrown := RegsOf(z, file, start, lens, s.clk, s.memWr, s.memAddr, s.memWrData, breakSize, calls, blocks);
    if thrown { return Thrown; }
    if cpu.pcTrace == [] { return NoTrace; }
    var d := new Debugger.Debugger(cpu, regs);
    d.Execute(commands);
    v := Shows(d.pcTraceIt, d.registers[..]);
  }

  /** From the calls that wrote the file to the registers the debugger shows: after
      any commands it is at the instruction, and shows the registers, that the
      run's own value changes say. */
  method DebugRun(z: Section.Zlib, mode: Stored.Mode, hash: nat -> Lz.Slot, jhash: seq<byte> -> nat, size: nat,
                  breakSize: nat, lens: seq<nat>, pre: seq<byte>, calls: seq<Call>, s: Signals, commands: seq<Debugger.Command>)
    returns (v: View)
    requires Section.Sound(z) && size > 0 && |lens| < 0x3fff_ffff && forall h :: 0 <= h < |lens| ==> lens[h] >= 1
    requires Roomy(breakSize, lens, calls) && 1 + 10 * |lens| + Frame.Offset(lens, |lens|) <= 0x4000_0000
    requires forall k :: 0 <= k < |calls| ==> Acceptable(lens, calls[k])
    requires Traceable(CpuProbe(s), breakSize, lens, calls) && Traceable(RegProbe(s), breakSize, lens, calls)
    requires Untroubled(CpuProbe(s), breakSize, lens, calls) && Untroubled(RegProbe(s), breakSize, lens, calls)
    ensures ShowsRun(v, SamplesOf(CpuProbe(s), breakSize, lens, calls), SamplesOf(RegProbe(s), breakSize, lens, calls), commands)
  {
    hide Section.Sound, Recorded, Traceable, Clear, Untroubled, SamplesOf, ShowsRun, Frame.Offset, Acceptable, Follow;
    var file;
    ghost var blocks;
    file, blocks := Write(z, mode, hash, jhash, size, breakSize, lens, pre, calls);
    UntroubledClear(z, CpuProbe(s), breakSize, lens, calls, file, |pre|, blocks);
    UntroubledClear(z, RegProbe(s), breakSize, lens, calls, file, |pre|, blocks);
    v := DebugFile(z, file, |pre|, lens, s, commands, breakSize, calls, blocks);
  }

  /** The byte in memory that the debugger reads at a time, from the nine signals
      of the memory bus. */
  method MemoryByte(z: Section.Zlib, file: seq<byte>, start: nat, lens: seq<nat>, clk: nat, handles: seq<nat>,
                    base: nat, contents: seq<byte>, time: nat, addr: nat,
                    ghost breakSize: nat, ghost calls: seq<Call>, ghost blocks: seq<Block>)
    returns (thrown: bool, valueValid: bool, value: byte)
    requires Section.Sound(z) && Recorded(z, breakSize, lens, calls, file, start, blocks) && |handles| == 8 && base < TWO_32
    requires Traceable(Sampling.Probe(clk, handles), breakSize, lens, calls)
    requires Clear(Sampling.Probe(clk, handles), lens, blocks)
    ensures var s := SamplesOf(Sampling.Probe(clk, handles), breakSize, lens, calls);
      && (thrown <==> s.Failed?)
      && (!thrown ==>
            var initial := if base <= addr < base + |contents| then Accesses.Found(contents[addr - base]) else Accesses.Absent;
            var m := MemTrace.MemoryAt(initial, s.samples, time, addr);
            valueValid == m.Found? && value as int == if m.Found? then m.value % 256 else 0)
  {
    hide Section.Sound, Recorded, Traceable, Clear, SamplesOf, MaskFor, MemTrace.MemoryAt, Sampling.Play, Sampling.InTimeOrder;
    var p := Sampling.Probe(clk, handles);
    var events := ValueChanges(z, file, start, lens, p, MaskFor(p, |lens|), breakSize, calls, blocks);
    var mem := new MemTrace.MemTrace(base, contents, clk, handles);
    thrown := mem.Init(events);
    valueValid, value := false, 0;
    if !thrown {
      valueValid, value := mem.GetValue(time, addr);
    }
  }
}
