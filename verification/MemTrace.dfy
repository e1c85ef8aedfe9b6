/** src/MemTrace.cc: the bytes written to memory, sampled at the falling clock
    edge, and the byte at an address at a time. */
module MemTrace {
  import opened Bytes
  import opened Accesses
  import opened Merge
  import Sampling

  // ----- byte lanes -----

  const POW2: seq<nat> := [1, 2, 4, 8]
  const POW256: seq<nat> := [1, 0x100, 0x1_0000, 0x100_0000]

  /** The lanes a store enables, as bits: one, two from the address on, or all. */
  function ByteEna(addr: nat, size: nat): nat {
    if size == 0 then POW2[addr % 4] else if size == 1 then 3 * POW2[addr % 4] else 15
  }

  /** Whether a lane's bit is set. */
  predicate Enabled(ena: nat, lane: nat)
    requires lane < 4
  {
    ena / POW2[lane] % 2 == 1
  }

  /** The byte of a word in a lane. */
  function LaneByte(data: nat, lane: nat): byte
    requires lane < 4
  {
    data / POW256[lane] % 256
  }

  /** The address of a lane: that of the word, and the lane. */
  function LaneAddr(addr: nat, lane: nat): nat
    requires lane < 4
  {
    addr - addr % 4 + lane
  }

  /** The accesses of one store, lanes from `lane` on. */
  function LanesFrom(time: nat, addr: nat, size: nat, data: nat, lane: nat): seq<Access>
    requires lane <= 4
    decreases 4 - lane
  {
    if lane == 4 then []
    else
      (if Enabled(ByteEna(addr, size), lane) then [Access(time, true, LaneAddr(addr, lane), LaneByte(data, lane))] else [])
      + LanesFrom(time, addr, size, data, lane + 1)
  }

  /** Does a store to `addr` write the byte at `x`? A byte store writes that byte,
      a half-word store also the next one, though never past the word, and any
      larger store writes the whole word. */
  predicate Covers(addr: nat, size: nat, x: nat) {
    && x / 4 == addr / 4
    && if size == 0 then x == addr else if size == 1 then x == addr || x == addr + 1 else true
  }

  lemma LanesStep(done: seq<Access>, time: nat, addr: nat, size: nat, data: nat, lane: nat)
    requires lane < 4
    ensures done + LanesFrom(time, addr, size, data, lane) ==
      (if Enabled(ByteEna(addr, size), lane) then done + [Access(time, true, LaneAddr(addr, lane), LaneByte(data, lane))] else done)
      + LanesFrom(time, addr, size, data, lane + 1)
  {
    hide LaneByte, LaneAddr, Enabled, ByteEna;
  }

  lemma LanesEnd(time: nat, addr: nat, size: nat, data: nat)
    ensures LanesFrom(time, addr, size, data, 4) == []
  {
  }

  lemma EnabledIff(addr: nat, size: nat, lane: nat)
    requires lane < 4
    ensures Enabled(ByteEna(addr, size), lane) <==> Covers(addr, size, LaneAddr(addr, lane))
  {
    var r := addr % 4;
    assert addr == addr / 4 * 4 + r && LaneAddr(addr, lane) == addr / 4 * 4 + lane;
    EnabledCases(r, size, lane);
  }

  lemma EnabledCases(r: nat, size: nat, lane: nat)
    requires r < 4 && lane < 4
    ensures Enabled(ByteEna(r, size), lane) <==>
      if size == 0 then lane == r else if size == 1 then lane == r || lane == r + 1 else true
  {
    match r
    case 0 => match lane { case 0 => case 1 => case 2 => case _ => }
    case 1 => match lane { case 0 => case 1 => case 2 => case _ => }
    case 2 => match lane { case 0 => case 1 => case 2 => case _ => }
    case _ => match lane { case 0 => case 1 => case 2 => case _ => }
  }

  /** Replaying the lanes of a store writes exactly the bytes it covers, each
      with the byte of the data that is in its lane. */
  lemma {:induction false} StoreWrites(before: Lookup, time: nat, addr: nat, size: nat, data: nat, lane: nat, t: nat, x: nat)
    requires lane <= 4
    ensures Replay(before, LanesFrom(time, addr, size, data, lane), t, x) ==
      if time <= t && Covers(addr, size, x) && lane <= x % 4 then Found(LaneByte(data, x % 4)) else before
    decreases 4 - lane
  {
    hide LaneByte, ByteEna, Enabled, Covers, LaneAddr, Replay;
    LanesEnd(time, addr, size, data);
    if lane == 4 {
      ReplayNone(before, t, x);
    } else {
      var rest := LanesFrom(time, addr, size, data, lane + 1);
      var m := Access(time, true, LaneAddr(addr, lane), LaneByte(data, lane));
      EnabledIff(addr, size, lane);
      StoreWrites(Replay(before, [m], t, x), time, addr, size, data, lane + 1, t, x);
      StoreWrites(before, time, addr, size, data, lane + 1, t, x);
      ReplayConcat(before, [m], rest, t, x);
      ReplayOne(before, m, t, x);
      SameLane(addr, lane, x);
      CoversWord(addr, size, x);
      assert [] + rest == rest;
    }
  }

  lemma ReplayOne(before: Lookup, m: Access, t: nat, x: nat)
    ensures Replay(before, [m], t, x) == if m.time <= t && m.wr && m.addr == x then Found(m.value) else before
  {
    assert [m][..0] == [];
  }

  lemma ReplayNone(before: Lookup, t: nat, x: nat)
    ensures Replay(before, [], t, x) == before
  {
  }

  lemma CoversWord(addr: nat, size: nat, x: nat)
    ensures Covers(addr, size, x) ==> x / 4 == addr / 4
  {
  }

  lemma SameLane(addr: nat, lane: nat, x: nat)
    requires lane < 4
    ensures LaneAddr(addr, lane) == x <==> x / 4 == addr / 4 && x % 4 == lane
  {
  }

  // ----- the trace -----

  /** cmd valid, ready, address, size, write, write data, rsp valid and data are
      watched in this order. */
  predicate IsStore(s: Sampling.Sample) {
    |s.vals| == 8 && s.vals[0] != 0 && s.vals[1] != 0 && s.vals[4] != 0
  }

  function Lanes(s: Sampling.Sample): seq<Access> {
    if IsStore(s) then LanesFrom(s.time, s.vals[2], s.vals[3], s.vals[5], 0) else []
  }

  function BytesOf(samples: seq<Sampling.Sample>): seq<Access>
    decreases |samples|
  {
    if samples == [] then [] else BytesOf(samples[..|samples| - 1]) + Lanes(samples[|samples| - 1])
  }

  lemma BytesSnoc(samples: seq<Sampling.Sample>, s: Sampling.Sample)
    ensures BytesOf(samples + [s]) == BytesOf(samples) + Lanes(s)
  {
    assert (samples + [s])[..|samples|] == samples;
  }

  lemma {:induction false} LanesTime(time: nat, addr: nat, size: nat, data: nat, lane: nat)
    requires lane <= 4
    ensures forall m :: m in LanesFrom(time, addr, size, data, lane) ==> m.time == time
    decreases 4 - lane
  {
    if lane < 4 { LanesTime(time, addr, size, data, lane + 1); }
  }

  lemma {:induction false} BytesInOrder(samples: seq<Sampling.Sample>)
    requires forall j, k :: 0 <= j < k < |samples| ==> samples[j].time <= samples[k].time
    ensures InTimeOrder(BytesOf(samples))
    ensures forall m :: m in BytesOf(samples) ==> samples != [] && m.time <= samples[|samples| - 1].time
    decreases |samples|
  {
    hide LanesFrom;
    if samples != [] {
      var n := |samples| - 1;
      BytesInOrder(samples[..n]);
      assert n > 0 ==> samples[..n][n - 1].time <= samples[n].time;
      var s := samples[n];
      if IsStore(s) { LanesTime(s.time, s.vals[2], s.vals[3], s.vals[5], 0); }
      OrderConcat(BytesOf(samples[..n]), Lanes(s), s.time);
    }
  }

  lemma OrderConcat(a: seq<Access>, b: seq<Access>, time: nat)
    requires InTimeOrder(a) && (forall m :: m in a ==> m.time <= time) && (forall m :: m in b ==> m.time == time)
    ensures InTimeOrder(a + b) && forall m :: m in a + b ==> m.time <= time
  {
  }

  /** Memory as a program sees it: the byte at `x` once every store sampled up to
      time `t` has been done, in order, to the initial memory. */
  function MemoryAt(initial: Lookup, samples: seq<Sampling.Sample>, t: nat, x: nat): Lookup
    decreases |samples|
  {
    if samples == [] then initial
    else
      var s := samples[|samples| - 1];
      if IsStore(s) && s.time <= t && Covers(s.vals[2], s.vals[3], x) then Found(LaneByte(s.vals[5], x % 4))
      else MemoryAt(initial, samples[..|samples| - 1], t, x)
  }

  /** Replaying the list of bytes gives that memory. */
  lemma {:induction false} ReplayIsMemory(initial: Lookup, samples: seq<Sampling.Sample>, t: nat, x: nat)
    ensures Replay(initial, BytesOf(samples), t, x) == MemoryAt(initial, samples, t, x)
    decreases |samples|
  {
    hide LanesFrom, LaneByte, Covers;
    if samples != [] {
      var n := |samples| - 1;
      var s := samples[n];
      ReplayIsMemory(initial, samples[..n], t, x);
      ReplayConcat(initial, BytesOf(samples[..n]), Lanes(s), t, x);
      if IsStore(s) {
        StoreWrites(Replay(initial, BytesOf(samples[..n]), t, x), s.time, s.vals[2], s.vals[3], s.vals[5], 0, t, x);
      }
    }
  }

  // ----- in plain numbers -----

  /** Valid, ready and a write: the sample stores. */
  predicate Storing(s: Sampling.Sample) {
    |s.vals| == 8 && s.vals[0] != 0 && s.vals[1] != 0 && s.vals[4] != 0
  }

  /** The number in memory at `x`, or 0. */
  function NumberAt(initial: Lookup, samples: seq<Sampling.Sample>, t: nat, x: nat): nat {
    var m := MemoryAt(initial, samples, t, x);
    if m.Found? then m.value else 0
  }

  predicate HasByte(initial: Lookup, samples: seq<Sampling.Sample>, t: nat, x: nat) {
    MemoryAt(initial, samples, t, x).Found? && NumberAt(initial, samples, t, x) < 256
  }

  lemma MemorySnoc(initial: Lookup, samples: seq<Sampling.Sample>, s: Sampling.Sample, t: nat, x: nat)
    ensures MemoryAt(initial, samples + [s], t, x) ==
      if Storing(s) && s.time <= t && Covers(s.vals[2], s.vals[3], x) then Found(LaneByte(s.vals[5], x % 4))
      else MemoryAt(initial, samples, t, x)
  {
    hide Covers, LaneByte;
    assert (samples + [s])[..|samples|] == samples;
  }

  lemma LaneIs(data: nat, lane: nat)
    requires lane < 4
    ensures LaneByte(data, lane) ==
      if lane == 0 then data % 256 else if lane == 1 then data / 256 % 256
      else if lane == 2 then data / 0x1_0000 % 256 else data / 0x100_0000 % 256
  {
  }

  /** After a store of a word its four bytes from the aligned address on, the little
      end first, are the data modulo 2^32. */
  lemma WordStored(initial: Lookup, samples: seq<Sampling.Sample>, s: Sampling.Sample, t: nat)
    requires Storing(s) && s.time <= t && s.vals[3] >= 2
    ensures var a := s.vals[2] - s.vals[2] % 4;
      var after := samples + [s];
      && HasByte(initial, after, t, a) && HasByte(initial, after, t, a + 1)
      && HasByte(initial, after, t, a + 2) && HasByte(initial, after, t, a + 3)
      && NumberAt(initial, after, t, a) + 256 * NumberAt(initial, after, t, a + 1) + 0x1_0000 * NumberAt(initial, after, t, a + 2)
           + 0x100_0000 * NumberAt(initial, after, t, a + 3) == s.vals[5] % 0x1_0000_0000
  {
    hide MemoryAt, LaneByte;
    var a, data := s.vals[2] - s.vals[2] % 4, s.vals[5];
    WordByte(initial, samples, s, t, 0);
    WordByte(initial, samples, s, t, 1);
    WordByte(initial, samples, s, t, 2);
    WordByte(initial, samples, s, t, 3);
    LaneIs(data, 0);
    LaneIs(data, 1);
    LaneIs(data, 2);
    LaneIs(data, 3);
    FourBytes(data);
  }

  lemma WordByte(initial: Lookup, samples: seq<Sampling.Sample>, s: Sampling.Sample, t: nat, i: nat)
    requires Storing(s) && s.time <= t && s.vals[3] >= 2 && i < 4
    ensures MemoryAt(initial, samples + [s], t, s.vals[2] - s.vals[2] % 4 + i) == Found(LaneByte(s.vals[5], i))
  {
    hide MemoryAt, LaneByte;
    MemorySnoc(initial, samples, s, t, s.vals[2] - s.vals[2] % 4 + i);
    InWord(s.vals[2], i);
  }

  lemma InWord(addr: nat, i: nat)
    requires i < 4
    ensures (addr - addr % 4 + i) % 4 == i && (addr - addr % 4 + i) / 4 == addr / 4
  {
    assert addr == 4 * (addr / 4) + addr % 4;
  }

  lemma FourBytes(v: nat)
    ensures v % 256 + 256 * (v / 256 % 256) + 0x1_0000 * (v / 0x1_0000 % 256) + 0x100_0000 * (v / 0x100_0000 % 256)
         == v % 0x1_0000_0000
  {
    assert v / 0x1_0000 == v / 256 / 256 && v / 0x100_0000 == v / 0x1_0000 / 256 && v / 0x1_0000_0000 == v / 0x100_0000 / 256;
  }

  lemma TwoBytes(v: nat)
    ensures v % 256 + 256 * (v / 256 % 256) == v % 0x1_0000
    ensures v / 256 % 256 + 256 * (v / 0x1_0000 % 256) == v / 256 % 0x1_0000
    ensures v / 0x1_0000 % 256 + 256 * (v / 0x100_0000 % 256) == v / 0x1_0000 % 0x1_0000
  {
    assert v / 0x1_0000 == v / 256 / 256 && v / 0x100_0000 == v / 0x1_0000 / 256;
    LowBytes(v);
    LowBytes(v / 256);
    LowBytes(v / 0x1_0000);
  }

  lemma LowBytes(v: nat)
    ensures v % 256 + 256 * (v / 256 % 256) == v % 0x1_0000
  {
    var q := v / 256;
    Remainder(v, q / 256, v % 256 + 256 * (q % 256));
  }

  lemma Remainder(v: nat, k: nat, r: nat)
    requires v == 0x1_0000 * k + r && r < 0x1_0000
    ensures v % 0x1_0000 == r
  {
  }

  /** After a store of a half-word, unless it begins at the last byte of a word, its two
      bytes are the sixteen bits of the data that are in their lanes. */
  lemma HalfStored(initial: Lookup, samples: seq<Sampling.Sample>, s: Sampling.Sample, t: nat)
    requires Storing(s) && s.time <= t && s.vals[3] == 1 && s.vals[2] % 4 != 3
    ensures var a, after := s.vals[2], samples + [s];
      && HasByte(initial, after, t, a) && HasByte(initial, after, t, a + 1)
      && NumberAt(initial, after, t, a) + 256 * NumberAt(initial, after, t, a + 1) ==
           (if a % 4 == 0 then s.vals[5] % 0x1_0000 else if a % 4 == 1 then s.vals[5] / 256 % 0x1_0000
            else s.vals[5] / 0x1_0000 % 0x1_0000)
  {
    hide MemoryAt, LaneByte;
    var a, data := s.vals[2], s.vals[5];
    MemorySnoc(initial, samples, s, t, a);
    MemorySnoc(initial, samples, s, t, a + 1);
    assert (a + 1) % 4 == a % 4 + 1 && (a + 1) / 4 == a / 4;
    LaneIs(data, a % 4);
    LaneIs(data, a % 4 + 1);
    TwoBytes(data);
  }

  /** After a store of a byte, or of a half-word at the last byte of a word, that byte
      is the eight bits of the data that are in its lane. */
  lemma ByteStored(initial: Lookup, samples: seq<Sampling.Sample>, s: Sampling.Sample, t: nat)
    requires Storing(s) && s.time <= t && (s.vals[3] == 0 || (s.vals[3] == 1 && s.vals[2] % 4 == 3))
    ensures MemoryAt(initial, samples + [s], t, s.vals[2]) ==
      Found(if s.vals[2] % 4 == 0 then s.vals[5] % 256 else if s.vals[2] % 4 == 1 then s.vals[5] / 256 % 256
            else if s.vals[2] % 4 == 2 then s.vals[5] / 0x1_0000 % 256 else s.vals[5] / 0x100_0000 % 256)
  {
    hide MemoryAt, LaneByte;
    MemorySnoc(initial, samples, s, t, s.vals[2]);
    LaneIs(s.vals[5], s.vals[2] % 4);
  }

  /** Nothing else is touched: not by what is no store or comes later, not in another
      word, and beside a byte or half-word not in its own. */
  lemma NotStored(initial: Lookup, samples: seq<Sampling.Sample>, s: Sampling.Sample, t: nat, x: nat)
    requires !Storing(s) || s.time > t || x / 4 != s.vals[2] / 4
          || (s.vals[3] == 0 && x != s.vals[2]) || (s.vals[3] == 1 && x != s.vals[2] && x != s.vals[2] + 1)
    ensures MemoryAt(initial, samples + [s], t, x) == MemoryAt(initial, samples, t, x)
  {
    hide MemoryAt, LaneByte;
    MemorySnoc(initial, samples, s, t, x);
  }

  /** Before any store there is what there was at first. */
  lemma NothingStored(initial: Lookup, t: nat, x: nat)
    ensures MemoryAt(initial, [], t, x) == initial
  {
  }

  // ----- initial contents -----

  /** vector<char>: a byte of 128 or more is negative, and becomes a large
      uint64_t. */
  function Widened(b: byte): nat {
    if b < 128 then b else TWO_64 - 256 + b
  }

  class MemTrace {
    const memInitStartAddr: nat
    const memInitContents: seq<byte>
    const clk: nat
    const cmdValid: nat
    const cmdReady: nat
    const cmdAddr: nat
    const cmdSize: nat
    const cmdWr: nat
    const cmdWrData: nat
    const rspValid: nat
    const rspData: nat

    var curMemCmdValid: bool
    var curMemCmdReady: bool
    var curMemCmdAddr: nat
    var curMemCmdSize: nat
    var curMemCmdWr: bool
    var curMemCmdWrData: nat
    var curMemRspValid: bool
    var curMemRspData: nat
    var memTrace: seq<Access>
    ghost var seen: seq<Event>

    ghost function Probe(): Sampling.Probe {
      Sampling.Probe(clk, [cmdValid, cmdReady, cmdAddr, cmdSize, cmdWr, cmdWrData, rspValid, rspData])
    }

    ghost predicate Current(vals: seq<nat>)
      reads this`curMemCmdValid, this`curMemCmdReady, this`curMemCmdAddr, this`curMemCmdSize
      reads this`curMemCmdWr, this`curMemCmdWrData, this`curMemRspValid, this`curMemRspData
    {
      && |vals| == 8 && curMemCmdValid == (vals[0] != 0) && curMemCmdReady == (vals[1] != 0) && curMemCmdAddr == vals[2]
      && curMemCmdSize == vals[3] && curMemCmdWr == (vals[4] != 0) && curMemCmdWrData == vals[5]
      && curMemRspValid == (vals[6] != 0) && curMemRspData == vals[7]
    }

    ghost predicate Valid()
      reads this
    {
      var s := Sampling.Play(Probe(), seen);
      s.Going? && Current(s.vals) && memTrace == BytesOf(s.samples)
    }

    constructor (start: nat, contents: seq<byte>, clk: nat, handles: seq<nat>)
      requires |handles| == 8 && start < TWO_32
      ensures Valid() && seen == [] && memInitStartAddr == start && memInitContents == contents
      ensures Probe() == Sampling.Probe(clk, handles)
    {
      memInitStartAddr, memInitContents, this.clk := start, contents, clk;
      cmdValid, cmdReady, cmdAddr, cmdSize := handles[0], handles[1], handles[2], handles[3];
      cmdWr, cmdWrData, rspValid, rspData := handles[4], handles[5], handles[6], handles[7];
      curMemCmdValid, curMemCmdReady, curMemCmdAddr, curMemCmdSize := false, false, 0, 0;
      curMemCmdWr, curMemCmdWrData, curMemRspValid, curMemRspData, memTrace, seen := false, 0, false, 0, [], [];
    }

    /** The loop over the four byte lanes. */
    method StoreLanes(time: nat)
      modifies this`memTrace
      ensures memTrace == old(memTrace) + LanesFrom(time, curMemCmdAddr, curMemCmdSize, curMemCmdWrData, 0)
    {
      hide LanesFrom, LaneByte, LaneAddr, Enabled, ByteEna;
      LanesEnd(time, curMemCmdAddr, curMemCmdSize, curMemCmdWrData);
      var byteEna := ByteEna(curMemCmdAddr, curMemCmdSize);
      var byteNr := 0;
      while byteNr < 4
        invariant byteNr <= 4
        invariant memTrace + LanesFrom(time, curMemCmdAddr, curMemCmdSize, curMemCmdWrData, byteNr)
               == old(memTrace) + LanesFrom(time, curMemCmdAddr, curMemCmdSize, curMemCmdWrData, 0)
      {
        LanesStep(memTrace, time, curMemCmdAddr, curMemCmdSize, curMemCmdWrData, byteNr);
        if Enabled(byteEna, byteNr) {
          memTrace := memTrace + [Access(time, true, LaneAddr(curMemCmdAddr, byteNr), LaneByte(curMemCmdWrData, byteNr))];
        }
        byteNr := byteNr + 1;
      }
    }

    /** processSignalChanged; an exception of stol ends the program. */
    method ProcessSignalChanged(time: nat, handle: nat, value: seq<byte>) returns (thrown: bool)
      requires Valid()
      modifies this
      ensures seen == old(seen) + [Event(time, handle, value)]
      ensures thrown <==> Sampling.Play(Probe(), seen).Failed?
      ensures !thrown ==> Valid()
    {
      hide Sampling.Parse, Sampling.Place, BytesOf, Current;
      ghost var s := Sampling.Play(Probe(), seen);
      assert (seen + [Event(time, handle, value)])[..|seen|] == seen;
      seen := seen + [Event(time, handle, value)];
      var valueInt := Sampling.ParseValue(value);
      if valueInt.Unknown? { return false; }
      if valueInt.Throws? { return true; }
      thrown := false;
      var known := Remember(handle, valueInt.n, s.vals);
      if !known && handle == clk && valueInt.n == 0 {
        FallingEdge(time, s.vals, s.samples);
      }
    }

    /** The signals whose numbers are kept. */
    method Remember(handle: nat, valueInt: nat, ghost vals: seq<nat>) returns (known: bool)
      requires Current(vals)
      modifies this`curMemCmdValid, this`curMemCmdReady, this`curMemCmdAddr, this`curMemCmdSize
      modifies this`curMemCmdWr, this`curMemCmdWrData, this`curMemRspValid, this`curMemRspData
      ensures known <==> Sampling.Place(Probe().watched, handle) < 8
      ensures Current(if known then vals[Sampling.Place(Probe().watched, handle) := valueInt] else vals)
    {
      hide Sampling.Place;
      PlaceEight(Probe().watched, handle);
      known := true;
      if handle == cmdValid {
        curMemCmdValid := valueInt != 0;
      } else if handle == cmdReady {
        curMemCmdReady := valueInt != 0;
      } else if handle == cmdAddr {
        curMemCmdAddr := valueInt;
      } else if handle == cmdSize {
        curMemCmdSize := valueInt;
      } else if handle == cmdWr {
        curMemCmdWr := valueInt != 0;
      } else if handle == cmdWrData {
        curMemCmdWrData := valueInt;
      } else if handle == rspValid {
        curMemRspValid := valueInt != 0;
      } else if handle == rspData {
        curMemRspData := valueInt;
      } else {
        known := false;
      }
    }

    method FallingEdge(time: nat, ghost vals: seq<nat>, ghost samples: seq<Sampling.Sample>)
      requires Current(vals) && memTrace == BytesOf(samples)
      modifies this`memTrace
      ensures Current(vals) && memTrace == BytesOf(samples + [Sampling.Sample(time, vals)])
    {
      hide LanesFrom;
      BytesSnoc(samples, Sampling.Sample(time, vals));
      if curMemCmdValid && curMemCmdReady {
        if curMemCmdWr {
          StoreLanes(time);
        }
      }
    }

    /** init: every callback of the reader. */
    method Init(events: seq<Event>) returns (thrown: bool)
      requires Valid() && seen == []
      modifies this
      ensures thrown <==> Sampling.Play(Probe(), events).Failed?
      ensures !thrown ==> Valid() && seen == events
    {
      hide Sampling.Callback, Valid;
      var i := 0;
      thrown := false;
      while i < |events|
        invariant i <= |events| && seen == events[..i] && Valid()
      {
        assert events[..i + 1] == events[..i] + [events[i]];
        thrown := ProcessSignalChanged(events[i].time, events[i].handle, events[i].val);
        if thrown {
          Sampling.FailsOn(Probe(), events, i + 1, |events|);
          assert events[..|events|] == events;
          return;
        }
        i := i + 1;
      }
      assert events[..i] == events;
      NotFailed();
    }

    lemma NotFailed()
      requires Valid()
      ensures Sampling.Play(Probe(), seen).Going?
    {
    }

    /** The initial byte at `addr`. */
    function Initial(addr: nat): Lookup {
      if memInitStartAddr <= addr < memInitStartAddr + |memInitContents| then
        Found(memInitContents[addr - memInitStartAddr])
      else Absent
    }

    /** getValue: the byte in memory at that time; zero if nothing is known. */
    method GetValue(time: nat, addr: nat) returns (valueValid: bool, value: byte)
      requires Valid() && Sampling.InTimeOrder(seen)
      ensures var m := MemoryAt(Initial(addr), Sampling.Play(Probe(), seen).samples, time, addr);
        valueValid == m.Found? && value as int == if m.Found? then m.value % 256 else 0
    {
      hide BytesOf, MemoryAt, Sampling.Play;
      ghost var samples := Sampling.Play(Probe(), seen).samples;
      Sampling.SamplesInOrder(Probe(), seen);
      BytesInOrder(samples);
      var initial := Absent;
      if memInitStartAddr <= addr < memInitStartAddr + |memInitContents| {
        initial := Found(Widened(memInitContents[addr - memInitStartAddr]));
      }
      var val := Scan(initial, memTrace, time, addr);
      valueValid := val.Found?;
      value := if val.Found? then val.value % 256 else 0;
      ReplayIsMemory(initial, samples, time, addr);
      MemoryNarrow(initial, Initial(addr), samples, time, addr);
    }
  }

  /** Narrowing to a char undoes the widening. */
  lemma {:induction false} MemoryNarrow(a: Lookup, b: Lookup, samples: seq<Sampling.Sample>, t: nat, x: nat)
    requires a.Found? == b.Found? && (a.Found? ==> a.value % 256 == b.value % 256)
    ensures var ma, mb := MemoryAt(a, samples, t, x), MemoryAt(b, samples, t, x);
      ma.Found? == mb.Found? && (ma.Found? ==> ma.value % 256 == mb.value % 256)
    decreases |samples|
  {
    hide LaneByte, Covers, IsStore;
    if samples != [] { MemoryNarrow(a, b, samples[..|samples| - 1], t, x); }
  }

  lemma PlaceEight(w: seq<nat>, handle: nat)
    requires |w| == 8
    ensures Sampling.Place(w, handle) ==
      if handle == w[0] then 0 else if handle == w[1] then 1 else if handle == w[2] then 2 else if handle == w[3] then 3
      else if handle == w[4] then 4 else if handle == w[5] then 5 else if handle == w[6] then 6 else if handle == w[7] then 7 else 8
  {
    var j := Sampling.Place(w, handle);
    assert j < 8 ==> w[j] == handle;
  }

  /** The bytes written are what the signals' own changes say, in whatever order
      callbacks of the same time come. */
  lemma TraceOfLists(p: Sampling.Probe, a: seq<Event>, b: seq<Event>)
    requires Sampling.Distinct(p) && Sampling.Settled(p, a) && Sampling.SameLists(a, b)
    requires Sampling.InTimeOrder(a) && Sampling.InTimeOrder(b)
    ensures var x, y := Sampling.Play(p, a), Sampling.Play(p, b);
      && (x.Failed? <==> y.Failed?)
      && (x.Going? ==>
            && BytesOf(x.samples) == BytesOf(Sampling.SampledAt(p, a, Sampling.ListOf(a, p.clk)))
            && BytesOf(x.samples) == BytesOf(y.samples))
  {
    hide Sampling.Settled, Sampling.InTimeOrder, Sampling.SameLists, BytesOf;
    Sampling.OrderIndependent(p, a, b);
    Sampling.PlayIs(p, a);
  }
}
