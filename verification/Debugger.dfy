/** src/gdbstub_sys.cc: a debugger that walks the list of retired instructions
    forward, stops at breakpoints, and shows the registers as they were. */
module Debugger {
  import opened Bytes
  import opened Accesses
  import opened CpuTrace
  import RegFileTrace

  const DEADBEEF: nat := 0xdead_beef
  const SIGTRAP: nat := 5

  /** An address is an unsigned int, a pc of the trace 64 bits wide. */
  function AddressOf(pc: nat): nat {
    pc % 0x1_0000_0000
  }

  // ----- where the cursor goes -----

  /** Index of the current instruction, and the breakpoints. */
  datatype View = View(it: nat, breakpoints: set<nat>)

  datatype Command = Continue | Step | AddBreakpoint(addr: nat) | DeleteBreakpoint(addr: nat)

  /** The first instruction from `k` on that has a breakpoint, or the end. */
  function NextBreak(pcs: seq<PcValue>, breakpoints: set<nat>, k: nat): (r: nat)
    requires k <= |pcs|
    ensures k <= r <= |pcs|
    ensures forall i :: k <= i < r ==> AddressOf(pcs[i].pc) !in breakpoints
    ensures r < |pcs| ==> AddressOf(pcs[r].pc) in breakpoints
    decreases |pcs| - k
  {
    if k < |pcs| && AddressOf(pcs[k].pc) !in breakpoints then NextBreak(pcs, breakpoints, k + 1) else k
  }

  function Clamp(pcs: seq<PcValue>, it: nat): nat
    requires pcs != []
  {
    if it >= |pcs| then |pcs| - 1 else it
  }

  function After(pcs: seq<PcValue>, v: View, c: Command): View
    requires v.it < |pcs|
  {
    match c
    case Continue => v.(it := Clamp(pcs, NextBreak(pcs, v.breakpoints, v.it)))
    case Step => v.(it := Clamp(pcs, v.it + 1))
    case AddBreakpoint(addr) => v.(breakpoints := v.breakpoints + {addr})
    case DeleteBreakpoint(addr) => v.(breakpoints := v.breakpoints - {addr})
  }

  function Session(pcs: seq<PcValue>, v: View, cs: seq<Command>): (r: View)
    requires v.it < |pcs|
    ensures v.it <= r.it < |pcs|
    decreases |cs|
  {
    if cs == [] then v else After(pcs, Session(pcs, v, cs[..|cs| - 1]), cs[|cs| - 1])
  }

  /** Continuing goes to the least index at or after the cursor that has a
      breakpoint, and to the last instruction if there is none. */
  lemma ContinueStops(pcs: seq<PcValue>, v: View)
    requires v.it < |pcs|
    ensures var r := After(pcs, v, Continue).it;
      && v.it <= r < |pcs| && (forall i :: v.it <= i < r ==> AddressOf(pcs[i].pc) !in v.breakpoints)
      && (AddressOf(pcs[r].pc) in v.breakpoints || r == |pcs| - 1)
  {
  }

  /** At the end of the trace, and only there, continuing again stays. */
  lemma ContinueAgain(pcs: seq<PcValue>, v: View)
    requires v.it < |pcs|
    ensures var r := After(pcs, v, Continue);
      After(pcs, r, Continue) == r && (r.it == v.it <==> AddressOf(pcs[v.it].pc) in v.breakpoints || v.it == |pcs| - 1)
  {
    var r := After(pcs, v, Continue);
    assert NextBreak(pcs, v.breakpoints, r.it) == r.it || r.it == |pcs| - 1;
  }

  lemma SessionSnoc(pcs: seq<PcValue>, v: View, cs: seq<Command>, c: Command)
    requires v.it < |pcs|
    ensures Session(pcs, v, cs + [c]) == After(pcs, Session(pcs, v, cs), c)
  {
    assert (cs + [c])[..|cs|] == cs;
  }

  /** Where one more command leaves the cursor: a step at the next instruction if
      there is one; continuing at the first one from here on with a breakpoint, else
      the last; and breakpoint commands where it was. */
  lemma SessionCursor(pcs: seq<PcValue>, v: View, cs: seq<Command>, c: Command)
    requires v.it < |pcs|
    ensures var a, b := Session(pcs, v, cs), Session(pcs, v, cs + [c]);
      && (c == Step ==> b.it == if a.it + 1 < |pcs| then a.it + 1 else a.it)
      && (c.AddBreakpoint? || c.DeleteBreakpoint? ==> b.it == a.it)
      && (c == Continue ==>
            && a.it <= b.it < |pcs| && (forall i :: a.it <= i < b.it ==> pcs[i].pc % 0x1_0000_0000 !in a.breakpoints)
            && (pcs[b.it].pc % 0x1_0000_0000 in a.breakpoints || b.it + 1 == |pcs|))
  {
    SessionSnoc(pcs, v, cs, c);
  }

  /** An address has a breakpoint exactly if it was added, or was there, and has not
      been deleted since. */
  lemma {:induction false} SessionBreakpoints(pcs: seq<PcValue>, v: View, cs: seq<Command>, addr: nat)
    requires v.it < |pcs|
    ensures addr in Session(pcs, v, cs).breakpoints <==> LastAdded(cs, addr) || (addr in v.breakpoints && DeleteBreakpoint(addr) !in cs)
    decreases |cs|
  {
    if cs != [] {
      var n := |cs| - 1;
      SessionBreakpoints(pcs, v, cs[..n], addr);
      assert cs == cs[..n] + [cs[n]];
      if cs[n] == AddBreakpoint(addr) {
        assert AddedAt(cs, addr, n);
      } else {
        AddedBefore(cs, addr);
      }
    }
  }

  ghost predicate AddedAt(cs: seq<Command>, addr: nat, i: nat) {
    i < |cs| && cs[i] == AddBreakpoint(addr) && forall j :: i < j < |cs| ==> cs[j] != DeleteBreakpoint(addr)
  }

  ghost predicate LastAdded(cs: seq<Command>, addr: nat) {
    exists i: nat :: AddedAt(cs, addr, i)
  }

  lemma AddedBefore(cs: seq<Command>, addr: nat)
    requires cs != [] && cs[|cs| - 1] != AddBreakpoint(addr)
    ensures LastAdded(cs, addr) <==> LastAdded(cs[..|cs| - 1], addr) && cs[|cs| - 1] != DeleteBreakpoint(addr)
  {
    var n := |cs| - 1;
    if i: nat :| AddedAt(cs[..n], addr, i) {
      if cs[n] != DeleteBreakpoint(addr) { assert AddedAt(cs, addr, i); }
    }
    if i: nat :| AddedAt(cs, addr, i) {
      assert cs[..n][i] == cs[i];
      assert AddedAt(cs[..n], addr, i);
    }
  }

  /** Five instructions and one step: the second. */
  lemma OneStep(pcs: seq<PcValue>)
    requires |pcs| == 5
    ensures Session(pcs, View(0, {}), [Step]) == View(1, {})
  {
    assert [Step][..0] == [];
  }

  // ----- what the registers show -----

  /** A register holds its last write by time `t`, cut to 32 bits. */
  function RegisterAt(trace: seq<Access>, t: nat, i: nat): nat {
    var m := Replay(Absent, trace, t, i);
    if m.Found? then m.value % 0x1_0000_0000 else DEADBEEF
  }

  /** Before any write a register shows 0xdeadbeef. One more write is shown from its own
      time on, cut to 32 bits, and in its own register only. */
  lemma RegisterShows(trace: seq<Access>, m: Access, t: nat, i: nat)
    ensures RegisterAt([], t, i) == 0xdead_beef
    ensures RegisterAt(trace + [m], t, i) ==
      if m.time <= t && m.wr && m.addr == i then m.value % 0x1_0000_0000 else RegisterAt(trace, t, i)
  {
    assert (trace + [m])[..|trace|] == trace;
  }

  lemma {:induction false} WrittenStays(trace: seq<Access>, t: nat, u: nat, i: nat)
    requires t <= u && Replay(Absent, trace, t, i).Found?
    ensures Replay(Absent, trace, u, i).Found?
    decreases |trace|
  {
    if trace != [] {
      var m := trace[|trace| - 1];
      if !(m.time <= t && m.wr && m.addr == i) {
        WrittenStays(trace[..|trace| - 1], t, u, i);
      }
    }
  }

  class Debugger {
    const pcTrace: seq<PcValue>
    const regs: RegFileTrace.RegFileTrace
    var pcTraceIt: nat
    var breakpoints: map<nat, bool>
    const registers: array<nat>
    var signum: nat

    ghost function Now(): View
      reads this`pcTraceIt, this`breakpoints
    {
      View(pcTraceIt, breakpoints.Keys)
    }

    ghost predicate Sorted()
      reads regs
    {
      && registers.Length == 33 && InTimeOrder(regs.regFileTrace)
      && forall j, k :: 0 <= j < k < |pcTrace| ==> pcTrace[j].time <= pcTrace[k].time
    }

    /** The registers are those of time `t`. */
    ghost predicate Shows(t: nat)
      requires registers.Length == 33
      reads regs, registers
    {
      forall i :: 0 <= i < 32 ==> registers[i] == RegisterAt(regs.regFileTrace, t, i)
    }

    ghost predicate Valid()
      reads this, regs, registers
    {
      && Sorted() && pcTraceIt < |pcTrace| && Shows(pcTrace[pcTraceIt].time)
      && registers[32] == AddressOf(pcTrace[pcTraceIt].pc)
    }

    /** dbg_sys_init, up to the command loop. */
    constructor (cpu: CpuTrace, regs: RegFileTrace.RegFileTrace)
      requires cpu.pcTrace != [] && InTimeOrder(regs.regFileTrace)
      requires forall j, k :: 0 <= j < k < |cpu.pcTrace| ==> cpu.pcTrace[j].time <= cpu.pcTrace[k].time
      ensures Valid() && fresh(registers) && pcTrace == cpu.pcTrace && this.regs == regs
      ensures Now() == View(0, {})
    {
      pcTrace, this.regs := cpu.pcTrace, regs;
      pcTraceIt, breakpoints, signum := 0, map[], 0;
      registers := new nat[33](_ => DEADBEEF);
      new;
      UpdateState(false, 0);
    }

    /** dbg_sys_update_state: registers without a write so far are left as they
        are. */
    method UpdateState(ghost shown: bool, ghost since: nat)
      requires Sorted() && pcTraceIt < |pcTrace|
      requires if shown then since <= pcTrace[pcTraceIt].time && Shows(since) else forall i :: 0 <= i < 32 ==> registers[i] == DEADBEEF
      modifies registers
      ensures Valid()
    {
      hide Replay, InTimeOrder;
      ghost var before := registers[..];
      var now := pcTrace[pcTraceIt].time;
      for i := 0 to 32
        invariant forall j :: 0 <= j < 32 ==>
          registers[j] == if j < i then RegisterAt(regs.regFileTrace, now, j) else before[j]
      {
        var valueValid, value := regs.GetValue(now, i);
        if valueValid {
          registers[i] := value % 0x1_0000_0000;
        } else if shown && Replay(Absent, regs.regFileTrace, since, i).Found? {
          WrittenStays(regs.regFileTrace, since, now, i);
        }
      }
      registers[32] := AddressOf(pcTrace[pcTraceIt].pc);
    }

    /** dbg_sys_continue. */
    method DoContinue() returns (ret: int)
      requires Valid()
      modifies this`pcTraceIt, this`signum, registers
      ensures Valid() && ret == 0 && signum == 5
      ensures Now() == After(pcTrace, old(Now()), Continue)
    {
      hide Shows;
      ghost var start := pcTraceIt;
      while pcTraceIt != |pcTrace|
        invariant start <= pcTraceIt <= |pcTrace|
        invariant NextBreak(pcTrace, breakpoints.Keys, start) == NextBreak(pcTrace, breakpoints.Keys, pcTraceIt)
        modifies this`pcTraceIt
        decreases |pcTrace| - pcTraceIt
      {
        var curAddr := AddressOf(pcTrace[pcTraceIt].pc);
        if curAddr in breakpoints { break; }
        pcTraceIt := pcTraceIt + 1;
      }
      if pcTraceIt == |pcTrace| {
        pcTraceIt := |pcTrace| - 1;
      }
      signum := SIGTRAP;
      UpdateState(true, pcTrace[start].time);
      ret := 0;
    }

    /** dbg_sys_step: at the end of the trace it returns -1, and the registers,
        not updated, are still those of the last instruction. */
    method DoStep() returns (ret: int)
      requires Valid()
      modifies this`pcTraceIt, this`signum, registers
      ensures Valid() && Now() == After(pcTrace, old(Now()), Step)
      ensures ret == (if old(pcTraceIt) == |pcTrace| - 1 then -1 else 0) && (ret == 0 ==> signum == 5)
    {
      hide Shows;
      ghost var start := pcTraceIt;
      if pcTraceIt != |pcTrace| {
        pcTraceIt := pcTraceIt + 1;
      }
      if pcTraceIt == |pcTrace| {
        pcTraceIt := |pcTrace| - 1;
        return -1;
      } else {
        signum := SIGTRAP;
      }
      UpdateState(true, pcTrace[start].time);
      ret := 0;
    }

    /** dbg_sys_add_breakpoint. */
    method DoAddBreakpoint(addr: nat) returns (ret: int)
      requires Valid()
      modifies this`breakpoints
      ensures Valid() && ret == 0 && Now() == After(pcTrace, old(Now()), AddBreakpoint(addr))
    {
      if addr !in breakpoints {
        breakpoints := breakpoints[addr := true];
      }
      ret := 0;
    }

    /** dbg_sys_delete_breakpoint. */
    method DoDeleteBreakpoint(addr: nat) returns (ret: int)
      requires Valid()
      modifies this`breakpoints
      ensures Valid() && ret == 0 && Now() == After(pcTrace, old(Now()), DeleteBreakpoint(addr))
    {
      if addr in breakpoints {
        breakpoints := breakpoints - {addr};
      }
      ret := 0;
    }

    /** Any run of commands: the cursor stays in the trace and never goes back,
        and the registers are always those of the current instruction. */
    method Execute(cs: seq<Command>)
      requires Valid()
      modifies this`pcTraceIt, this`signum, this`breakpoints, registers
      ensures Valid() && Now() == Session(pcTrace, old(Now()), cs) && pcTraceIt >= old(pcTraceIt)
    {
      hide Valid, After;
      ItInRange();
      ghost var start := Now();
      var i := 0;
      assert cs[..0] == [];
      while i < |cs|
        invariant i <= |cs| && Valid() && Now() == Session(pcTrace, start, cs[..i])
      {
        assert cs[..i + 1][..i] == cs[..i];
        ItInRange();
        var ret;
        match cs[i] {
          case Continue => ret := DoContinue();
          case Step => ret := DoStep();
          case AddBreakpoint(addr) => ret := DoAddBreakpoint(addr);
          case DeleteBreakpoint(addr) => ret := DoDeleteBreakpoint(addr);
        }
        i := i + 1;
      }
      assert cs[..i] == cs;
    }

    lemma ItInRange()
      requires Valid()
      ensures pcTraceIt < |pcTrace|
    {
    }
  }
}
