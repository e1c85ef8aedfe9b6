/** Runs of the writer of src/fst/fstapi.c that its reader does not give back in
    full. */
module LostRuns {
  import opened Chain
  import opened Course
  import opened KeptTables
  import opened Merge
  import opened RoundTrip
  import opened TraceFile
  import opened Writer
  import Bytes
  import ChainIndex
  import ChainStore
  import ChainWriter
  import Frame
  import Lz
  import Reader
  import Section
  import Session
  import Stored
  import TimeTable
  import Varint
  import WriterState

  /** A signal set to 1 before a first time change at 0, and another one changed
      after it: the reader never mentions the first. */
  lemma Unreported(breakSize: nat)
    ensures var d := Follow(breakSize, [1, 1], [ValueChange(1, [49]), TimeChange(0), ValueChange(2, [48])]);
      d.m.vals == [[49], [48]] && |Final(d)| == 1 && Reported(d) == [Event(0, 2, [48])]
  {
    var calls := [ValueChange(1, [49]), TimeChange(0), ValueChange(2, [48])];
    ThreeCalls(breakSize, [1, 1], calls);
    var d := Follow(breakSize, [1, 1], calls);
    assert d.m.vals == [[49], [48]];
    assert d.open.log[1] == [Change(0, [48])];
    EmptyMeans(d);
    assert Spelled(d.m.events) == [Event(0, 2, [48])];
  }

  lemma ThreeCalls(breakSize: nat, lens: seq<nat>, calls: seq<Call>)
    requires |calls| == 3
    ensures Follow(breakSize, lens, calls) ==
      Advance(breakSize, Advance(breakSize, Advance(breakSize, Outset(lens), calls[0]), calls[1]), calls[2])
  {
    hide Advance;
    assert calls[..0] == [] && calls[..3] == calls;
    FollowSnoc(breakSize, lens, calls, 0);
    FollowSnoc(breakSize, lens, calls, 1);
    FollowSnoc(breakSize, lens, calls, 2);
  }

  /** With an empty buffer a time change is an idle flush exactly if one is
      pending. */
  lemma EmptyTick(breakSize: nat, d: Course, tim: nat)
    requires Sane(d) && d.m.started && breakSize > 1 && Filled(d) == 1
    ensures var r := Advance(breakSize, d, TimeChange(tim));
      && r.index == d.index + 1 && !r.pending && r.parts == d.parts && r.open.log == d.open.log && Filled(r) == 1
      && r.m == Step(d.m, TimeChange(tim)) && r.open.announced == d.open.announced + [tim]
      && r.open.times == TimeTable.Ticked(TimeTable.Clock([], 0, 0, d.m.now), d.open.times, tim, d.pending, true)
  {
    hide TimeTable.Ticked, WriterState.Taken;
  }

  /** Times 5, 7 and 9, a flush request, time 12, and only then a change: it is
      announced at 12, and its index in the table stands for 18. */
  lemma LateReport(breakSize: nat)
    requires breakSize > 1
    ensures var d := Follow(breakSize, [1],
        [TimeChange(5), TimeChange(7), TimeChange(9), FlushContext, TimeChange(12), ValueChange(1, [49])]);
      && d.open.announced == [5, 7, 9, 12] && d.open.times == [5, 7, 9, 18, 21] && d.open.log == [[Change(3, [49])]]
      && d.m.events == [Event(12, 1, [49])]
  {
    hide Advance, TimeTable.Ticked, WriterState.Taken;
    var calls := [TimeChange(5), TimeChange(7), TimeChange(9), FlushContext, TimeChange(12), ValueChange(1, [49])];
    ThreeCalls(breakSize, [1], calls[..3]);
    assert calls[..3] == [TimeChange(5), TimeChange(7), TimeChange(9)] && calls[..6] == calls;
    FollowSnoc(breakSize, [1], calls, 3);
    FollowSnoc(breakSize, [1], calls, 4);
    FollowSnoc(breakSize, [1], calls, 5);
    var a := FirstTime(breakSize, 5);
    EmptyTick(breakSize, a, 7);
    var b := Advance(breakSize, a, TimeChange(7));
    EmptyTick(breakSize, b, 9);
    var c := Advance(breakSize, b, TimeChange(9));
    AskFlush(breakSize, c);
    var e := Advance(breakSize, c, FlushContext);
    EmptyTick(breakSize, e, 12);
    TheTimes();
    OneChange(breakSize, Advance(breakSize, e, TimeChange(12)));
  }

  lemma TheTimes()
    ensures var clock := (t: nat) => TimeTable.Clock([], 0, 0, t);
      && TimeTable.Ticked(clock(5), [5], 7, false, true) == [5, 7] && TimeTable.Ticked(clock(7), [5, 7], 9, false, true) == [5, 7, 9]
      && TimeTable.Ticked(clock(9), [5, 7, 9], 12, true, true) == [5, 7, 9, 18, 21]
  {
  }

  lemma FirstTime(breakSize: nat, tim: nat) returns (d: Course)
    ensures d == Advance(breakSize, Outset([1]), TimeChange(tim)) && Sane(d) && Filled(d) == 1
    ensures d.m.started && d.m.now == tim && d.index == 0 && !d.pending && d.open.announced == d.open.times == [tim]
    ensures d.open.log == [[]] && d.m.events == [] && |d.m.vals| == 1
  {
    d := Advance(breakSize, Outset([1]), TimeChange(tim));
    EmptyMeans(d);
  }

  lemma AskFlush(breakSize: nat, d: Course)
    requires Sane(d) && d.index > 1
    ensures Advance(breakSize, d, FlushContext) == d.(pending := true)
  {
  }

  lemma OneChange(breakSize: nat, d: Course)
    requires Sane(d) && d.m.started && d.open.log == [[]] && |d.m.vals| == 1 && d.m.events == []
    ensures var r := Advance(breakSize, d, ValueChange(1, [49]));
      && r.open.log == [[Change(d.index, [49])]] && r.m.events == [Event(d.m.now, 1, [49])]
      && r.open.announced == d.open.announced && r.open.times == d.open.times
  {
    assert d.open.log[0] + [Change(d.index, [49])] == [Change(d.index, [49])];
  }

  // ----- a signal given another one's chain -----

  /** Three one-bit signals: the first and the third change, a flush is asked for,
      and after it only the second changes. */
  function StaleCalls(): seq<Call> {
    [TimeChange(0), ValueChange(1, [49]), ValueChange(3, [48]), TimeChange(1), TimeChange(2), FlushContext, TimeChange(10),
     ValueChange(2, [49])]
  }

  lemma OneRecord(val: seq<Bytes.byte>)
    requires |val| == 1
    ensures ChainWriter.RawBytes(0, [Change(0, val)]) == 6 && ChainWriter.RawBytes(0, []) == 0
  {
    assert Varint.Encode(0) == [0];
    assert ChainWriter.RawSize(0, val) == 6;
    assert [Change(0, val)][1..] == [];
  }

  /** How full the buffer is with one change each of some of three signals. */
  lemma ThreeTaken(log: seq<seq<Change>>)
    requires |log| == 3
    ensures WriterState.Taken(log, 3) ==
      ChainWriter.RawBytes(0, log[0]) + ChainWriter.RawBytes(0, log[1]) + ChainWriter.RawBytes(0, log[2])
  {
    hide ChainWriter.RawBytes;
    assert WriterState.Taken(log, 1) == ChainWriter.RawBytes(0, log[0]);
    assert WriterState.Taken(log, 2) == ChainWriter.RawBytes(0, log[0]) + ChainWriter.RawBytes(0, log[1]);
  }

  /** A time change that calls for no flush. */
  lemma Tick(breakSize: nat, d: Course, tim: nat)
    requires Sane(d) && d.m.started && !Due(breakSize, d)
    ensures var r := Advance(breakSize, d, TimeChange(tim));
      && Sane(r) && r.m == d.m.(now := tim) && r.index == d.index + 1 && !r.pending && r.parts == d.parts
      && r.open.log == d.open.log && Filled(r) == Filled(d)
  {
    hide TimeTable.Ticked, WriterState.Taken;
  }

  /** A time change that flushes. */
  lemma Flush(breakSize: nat, d: Course, tim: nat)
    requires Sane(d) && d.m.started && d.pending && !Empty(d)
    ensures var r := Advance(breakSize, d, TimeChange(tim));
      && Sane(r) && r.m == d.m.(now := tim) && r.index == 1 && !r.pending && r.parts == d.parts + [d.open]
      && r.open.log == NoChanges(|d.m.vals|)
  {
    hide TimeTable.Ticked, WriterState.Taken;
  }

  /** The first value change of a signal in a section. */
  lemma OneValue(breakSize: nat, d: Course, handle: nat, val: seq<Bytes.byte>)
    requires Sane(d) && d.m.started && 1 <= handle <= |d.m.vals| && d.open.log[handle - 1] == []
    ensures var r := Advance(breakSize, d, ValueChange(handle, val));
      && Sane(r) && r.m.started && |r.m.vals| == |d.m.vals| && r.index == d.index && r.pending == d.pending && r.parts == d.parts
      && r.open.log == d.open.log[handle - 1 := [Change(d.index, val)]]
  {
    assert [] + [Change(d.index, val)] == [Change(d.index, val)];
  }

  /** The course after the first `n` calls. */
  ghost function Stale(breakSize: nat, n: nat): (d: Course)
    requires n <= 8
    ensures Sane(d)
  {
    Follow(breakSize, [1, 1, 1], StaleCalls()[..n])
  }

  lemma StaleStep(breakSize: nat, n: nat)
    requires n < 8
    ensures Stale(breakSize, n + 1) == Advance(breakSize, Stale(breakSize, n), StaleCalls()[n])
  {
    hide Advance, Follow;
    FollowSnoc(breakSize, [1, 1, 1], StaleCalls(), n);
  }

  const FIRST_LOG: seq<seq<Change>> := [[Change(0, [49])], [], [Change(0, [48])]]
  const SECOND_LOG: seq<seq<Change>> := [[], [Change(1, [49])], []]

  lemma StaleOutset(breakSize: nat)
    ensures Stale(breakSize, 0).open.log == [[], [], []]
    ensures var d := Stale(breakSize, 1);
      d.m.started && |d.m.vals| == 3 && d.index == 0 && !d.pending && d.parts == [] && d.open.log == [[], [], []]
  {
    StaleStep(breakSize, 0);
    assert StaleCalls()[..0] == [];
    assert Stale(breakSize, 0) == Outset([1, 1, 1]);
  }

  /** Where the course stands among changes at one index. */
  ghost predicate Stands(d: Course, index: nat, parts: nat, log: seq<seq<Change>>) {
    && Sane(d) && d.m.started && |d.m.vals| == 3 && d.index == index && !d.pending && |d.parts| == parts && d.open.log == log
    && Filled(d) <= 13
  }

  lemma StaleFilled(d: Course)
    requires |d.open.log| == 3 && (d.open.log == [[], [], []] || d.open.log == [[Change(0, [49])], [], []]
                                   || d.open.log == FIRST_LOG || d.open.log == SECOND_LOG)
    ensures Filled(d) <= 13 && (d.open.log == FIRST_LOG ==> !Empty(d)) && (d.open.log == SECOND_LOG ==> !Empty(d))
  {
    hide WriterState.Taken, ChainWriter.RawBytes;
    OneRecord([49]);
    OneRecord([48]);
    OneLater();
    ThreeTaken(d.open.log);
  }

  /** The first three calls: two changes at index 0. */
  lemma StaleBegins(breakSize: nat)
    ensures Filled(Stale(breakSize, 0)) <= 13
    ensures Stands(Stale(breakSize, 1), 0, 0, [[], [], []]) && Stands(Stale(breakSize, 2), 0, 0, [[Change(0, [49])], [], []])
    ensures Stands(Stale(breakSize, 3), 0, 0, FIRST_LOG)
  {
    hide Advance, Filled, Empty, Stale;
    StaleOutset(breakSize);
    StaleStep(breakSize, 1);
    StaleStep(breakSize, 2);
    StaleFilled(Stale(breakSize, 0));
    StaleFilled(Stale(breakSize, 1));
    OneValue(breakSize, Stale(breakSize, 1), 1, [49]);
    StaleFilled(Stale(breakSize, 2));
    OneValue(breakSize, Stale(breakSize, 2), 3, [48]);
    StaleFilled(Stale(breakSize, 3));
  }

  /** Two more times and the request. */
  lemma StaleAsks(breakSize: nat)
    requires breakSize > 13
    ensures Stands(Stale(breakSize, 4), 1, 0, FIRST_LOG) && Stands(Stale(breakSize, 5), 2, 0, FIRST_LOG)
    ensures Stale(breakSize, 6) == Stale(breakSize, 5).(pending := true)
  {
    hide Advance, Filled, Stale;
    StaleBegins(breakSize);
    StaleStep(breakSize, 3);
    Tick(breakSize, Stale(breakSize, 3), 1);
    StaleStep(breakSize, 4);
    Tick(breakSize, Stale(breakSize, 4), 2);
    StaleStep(breakSize, 5);
    AskFlush(breakSize, Stale(breakSize, 5));
  }

  /** The flush and the last change. */
  lemma StaleEnds(breakSize: nat)
    requires breakSize > 13
    ensures Stands(Stale(breakSize, 7), 1, 1, [[], [], []]) && Stands(Stale(breakSize, 8), 1, 1, SECOND_LOG)
    ensures Filled(Stale(breakSize, 6)) <= 13
    ensures Stale(breakSize, 7).parts == Stale(breakSize, 8).parts == [Stale(breakSize, 5).open]
  {
    hide Advance, Filled, Empty, Stale;
    StaleAsks(breakSize);
    StaleFilled(Stale(breakSize, 6));
    StaleStep(breakSize, 6);
    Flush(breakSize, Stale(breakSize, 6), 10);
    assert NoChanges(3) == [[], [], []];
    StaleFilled(Stale(breakSize, 7));
    StaleStep(breakSize, 7);
    OneValue(breakSize, Stale(breakSize, 7), 2, [49]);
    StaleFilled(Stale(breakSize, 8));
  }

  /** The sections. */
  lemma StaleSections(breakSize: nat)
    requires breakSize > 13
    ensures var parts := Final(Follow(breakSize, [1, 1, 1], StaleCalls()));
      |parts| == 2 && parts[0].log == FIRST_LOG && parts[1].log == SECOND_LOG
    ensures forall n :: 0 <= n <= 8 ==> Filled(Stale(breakSize, n)) <= 13
  {
    hide Advance, Filled, Empty, Follow;
    StaleBegins(breakSize);
    StaleAsks(breakSize);
    StaleEnds(breakSize);
    StaleFilled(Stale(breakSize, 8));
    assert StaleCalls()[..8] == StaleCalls();
  }

  lemma OneLater()
    ensures ChainWriter.RawBytes(0, [Change(1, [49])]) == 6
  {
    assert Varint.Encode(1) == [1];
    assert ChainWriter.RawSize(1, [49]) == 6;
    assert [Change(1, [49])][1..] == [];
  }

  /** One change of a one-bit signal is a chain of one byte. */
  lemma OneByte(idx: nat, bit: nat) returns (b: Bytes.byte)
    requires idx < 2 && bit < 2
    ensures var cs := [Change(idx, [48 + bit])];
      Ordered(1, 0, cs) && Encode(1, 0, cs) == [b] && b as int == 4 * idx + 2 * bit
  {
    var cs := [Change(idx, [48 + bit])];
    assert cs[1..] == [];
    assert Record(idx, [48 + bit]) == Varint.Encode(Packed(idx, [48 + bit]));
    b := 4 * idx + 2 * bit;
    assert Encode(1, idx, []) == [];
  }

  lemma FirstEntries(b: Block, p: Part)
    requires BlockOk([1, 1, 1], b) && Session.BlockOf(b, p) && p.log == FIRST_LOG
    ensures b.contents.entries == [1, 0, 3] && |b.section.area| == 5
  {
    hide BlockOk, Session.BlockOf, ChainIndex.NextPos, Encode;
    var lens, c := [1, 1, 1], b.contents;
    var one := OneByte(0, 1);
    var zero := OneByte(0, 0);
    forall h | 0 <= h < 3
      ensures h < |c.chains| && c.chains[h] == ChainOf(lens, p, h) && h < |c.entries| && (c.entries[h] != 0 <==> HasChanges(p, h))
    {
      ChainIsOf(lens, b, p, h);
    }
    FirstAt(lens, b, 0);
    ShortStored(lens, b, 0);
    ShortStored(lens, b, 2);
    assert c.entries[0] == 1 && c.entries[1] == 0 && c.chains[0] == [one] && c.chains[2] == [zero];
    assert c.entries[2] > 0;
    TwoPositions(c.entries, |b.section.area|);
  }

  lemma TwoPositions(entries: seq<int>, total: nat)
    requires |entries| == 3
    ensures entries[1] == 0 && entries[2] > 0 ==> ChainIndex.NextPos(entries, 0, total) == entries[2]
    ensures entries[2] == 0 ==> ChainIndex.NextPos(entries, 1, total) == total
    ensures ChainIndex.NextPos(entries, 2, total) == total
  {
    assert ChainIndex.NextPos(entries, 1, total) == if entries[2] > 0 then entries[2] else ChainIndex.NextPos(entries, 2, total);
  }

  lemma SecondEntries(b: Block, p: Part)
    requires BlockOk([1, 1, 1], b) && Session.BlockOf(b, p) && p.log == SECOND_LOG
    ensures b.contents.entries == [0, 1, 0] && |b.section.area| == 3
  {
    hide BlockOk, Session.BlockOf, ChainIndex.NextPos, Encode;
    var lens, c := [1, 1, 1], b.contents;
    var one := OneByte(1, 1);
    forall h | 0 <= h < 3
      ensures h < |c.chains| && c.chains[h] == ChainOf(lens, p, h) && h < |c.entries| && (c.entries[h] != 0 <==> HasChanges(p, h))
    {
      ChainIsOf(lens, b, p, h);
    }
    FirstAt(lens, b, 1);
    ShortStored(lens, b, 1);
    assert c.chains[1] == [one];
    TwoPositions(c.entries, |b.section.area|);
  }

  /** Whatever file is made of the run: the reader's table leads the third signal,
      which does not change in the second block, to the chain of the second. */
  lemma GivenAnothers(breakSize: nat, blocks: seq<Block>)
    requires breakSize > 13 && AllOk([1, 1, 1], blocks)
    requires Session.BlocksOf(blocks, Final(Follow(breakSize, [1, 1, 1], StaleCalls())))
    ensures |blocks| == 2 && blocks[0].contents.entries == [1, 0, 3] && blocks[1].contents.entries == [0, 1, 0]
    ensures blocks[1].contents.log == SECOND_LOG
    ensures var s := Reader.After(ZeroTables(3), [1, 0, 3], |blocks[0].section.area|);
      ChainIndex.StateOk(s, 3) && ChainIndex.Tables(s, [0, 1, 0], |blocks[1].section.area|).0[2] == ChainIndex.Where([0, 1, 0], 1)
    ensures !CleanRun(ZeroTables(3), [true, true, true], blocks)
  {
    hide Follow, Final, BlockOk, ChainIndex.Tables, ChainIndex.Loaded, ChainIndex.Mistaken;
    StaleSections(breakSize);
    var parts := Final(Follow(breakSize, [1, 1, 1], StaleCalls()));
    assert BlockOk([1, 1, 1], blocks[0]) && BlockOk([1, 1, 1], blocks[1]);
    assert Session.BlockOf(blocks[0], parts[0]) && Session.BlockOf(blocks[1], parts[1]);
    FirstEntries(blocks[0], parts[0]);
    SecondEntries(blocks[1], parts[1]);
    var s := AfterFirst();
    ChainIndex.StaleTables();
    assert blocks[1..][0] == blocks[1];
    assert [true, true, true][2];
  }

  lemma AfterFirst() returns (s: ChainIndex.State)
    ensures s == Reader.After(ZeroTables(3), [1, 0, 3], 5) == ChainIndex.State([1, 0, 3, 5], [2, 0, 2, 0], 0, 2, 0, 0)
  {
    hide ChainIndex.Tables, ChainIndex.Loaded;
    ChainIndex.FirstBlockTables();
    s := Reader.After(ZeroTables(3), [1, 0, 3], 5);
    assert ZeroTables(3) == ChainIndex.State([0, 0, 0, 0], [0, 0, 0, 0], 0, 0, 0, 0);
  }

  /** The run can be written. */
  method StaleFile(z: Section.Zlib, mode: Stored.Mode, hash: nat -> Lz.Slot, jhash: seq<Bytes.byte> -> nat, size: nat, breakSize: nat)
    returns (file: seq<Bytes.byte>, ghost blocks: seq<Block>)
    requires size > 0 && breakSize > 13
    ensures Recorded(z, breakSize, [1, 1, 1], StaleCalls(), file, 0, blocks)
    ensures !CleanRun(ZeroTables(3), [true, true, true], blocks)
  {
    hide Follow, Recorded, Filled;
    StaleSections(breakSize);
    assert forall i :: 0 <= i <= 8 ==> Stale(breakSize, i) == Follow(breakSize, [1, 1, 1], StaleCalls()[..i]);
    file, blocks := Write(z, mode, hash, jhash, size, breakSize, [1, 1, 1], [], StaleCalls());
    StaleRecorded(z, breakSize, file, blocks);
  }

  lemma StaleRecorded(z: Section.Zlib, breakSize: nat, file: seq<Bytes.byte>, blocks: seq<Block>)
    requires breakSize > 13 && Recorded(z, breakSize, [1, 1, 1], StaleCalls(), file, 0, blocks)
    ensures !CleanRun(ZeroTables(3), [true, true, true], blocks)
  {
    hide Follow, Final, Holds, Readable, BlockOk, CleanRun, ChainIndex.Tables;
    GivenAnothers(breakSize, blocks);
  }
}
