/** One file of the writer of src/fst/fstapi.c, byte by byte. */
module SampleFile {
  import opened Bytes
  import opened Chain
  import opened Course
  import opened KeptTables
  import opened RoundTrip
  import opened SmallRun
  import opened Writer
  import ChainIndex
  import ChainStore
  import ChainWriter
  import Frame
  import Lz
  import Reader
  import Section
  import Session
  import Stored
  import TimeTable
  import TraceFile
  import Varint
  import WriterState

  const LENS: seq<nat> := [1, 9, 1, 1]

  /** A binary value of nine bits, and one with an x in it. */
  const BITS: seq<byte> := [49, 48, 49, 48, 48, 48, 48, 48, 49]
  const WITH_X: seq<byte> := [49, 120, 48, 48, 48, 48, 48, 48, 48]

  /** At time 3 the first and the third signal become 1 and the second 101000001; at
      time 300 the second becomes 1x0000000. The fourth never changes. */
  function SampleCalls(): seq<Call> {
    [TimeChange(3), ValueChange(1, [49]), ValueChange(2, BITS), ValueChange(3, [49]), TimeChange(300), ValueChange(2, WITH_X)]
  }

  ghost function At(breakSize: nat, n: nat): (d: Course)
    requires n <= 6
    ensures Sane(d)
  {
    Follow(breakSize, LENS, SampleCalls()[..n])
  }

  lemma AtStep(breakSize: nat, n: nat)
    requires n < 6
    ensures At(breakSize, n + 1) == Advance(breakSize, At(breakSize, n), SampleCalls()[n])
  {
    hide Advance, Follow;
    FollowSnoc(breakSize, LENS, SampleCalls(), n);
  }

  // ----- the run -----

  /** What the records of the two kinds take up in the buffer. */
  lemma RawOf(tidx: nat, val: seq<byte>, prev: nat)
    requires prev <= tidx < prev + 128
    ensures ChainWriter.RawBytes(prev, [Change(tidx, val)]) == 5 + |val|
  {
    assert Varint.Encode(tidx - prev) == [tidx - prev];
    assert [Change(tidx, val)][1..] == [];
  }

  lemma RawOfTwo()
    ensures ChainWriter.RawBytes(0, [Change(0, BITS), Change(1, WITH_X)]) == 28
  {
    RawOf(1, WITH_X, 0);
    assert Varint.Encode(0) == [0];
    assert [Change(0, BITS), Change(1, WITH_X)][1..] == [Change(1, WITH_X)];
  }

  lemma FourTaken(log: seq<seq<Change>>)
    requires |log| == 4
    ensures WriterState.Taken(log, 4) == ChainWriter.RawBytes(0, log[0]) + ChainWriter.RawBytes(0, log[1])
                                       + ChainWriter.RawBytes(0, log[2]) + ChainWriter.RawBytes(0, log[3])
  {
    hide ChainWriter.RawBytes;
    assert WriterState.Taken(log, 2) == WriterState.Taken(log, 1) + ChainWriter.RawBytes(0, log[1]);
    assert WriterState.Taken(log, 3) == WriterState.Taken(log, 2) + ChainWriter.RawBytes(0, log[2]);
    assert WriterState.Taken(log, 1) == WriterState.Taken(log, 0) + ChainWriter.RawBytes(0, log[0]);
  }

  const LOG0: seq<seq<Change>> := [[], [], [], []]
  const LOG1: seq<seq<Change>> := [[Change(0, [49])], [], [], []]
  const LOG2: seq<seq<Change>> := [[Change(0, [49])], [Change(0, BITS)], [], []]
  const LOG3: seq<seq<Change>> := [[Change(0, [49])], [Change(0, BITS)], [Change(0, [49])], []]
  const LOG4: seq<seq<Change>> := [[Change(0, [49])], [Change(0, BITS), Change(1, WITH_X)], [Change(0, [49])], []]

  lemma FilledAt(d: Course)
    requires d.open.log == LOG0 || d.open.log == LOG1 || d.open.log == LOG2 || d.open.log == LOG3 || d.open.log == LOG4
    ensures Filled(d) <= 41 && (d.open.log == LOG4 ==> !Empty(d))
  {
    hide WriterState.Taken, ChainWriter.RawBytes;
    assert ChainWriter.RawBytes(0, []) == 0 by { NoBytes(); }
    RawOf(0, [49], 0);
    RawOf(0, BITS, 0);
    RawOfTwo();
    FourTaken(d.open.log);
  }

  lemma NoBytes()
    ensures ChainWriter.RawBytes(0, []) == 0
  {
  }

  /** Where the course stands in its only section. */
  ghost predicate Stands(d: Course, index: nat, announced: seq<nat>, log: seq<seq<Change>>) {
    && Sane(d) && d.m.started && !d.m.given && |d.m.vals| == 4 && d.index == index && !d.pending && d.parts == []
    && d.open.log == log && d.open.announced == d.open.times == announced && announced != [] && d.m.now == announced[|announced| - 1]
    && d.open.begTim == 3 && d.open.endTim == d.m.now && d.open.first == AllUnknown(LENS)
  }

  lemma ValueAt(breakSize: nat, d: Course, handle: nat, val: seq<byte>, index: nat, announced: seq<nat>, log: seq<seq<Change>>)
    requires Stands(d, index, announced, log) && 1 <= handle <= 4
    ensures Stands(Advance(breakSize, d, ValueChange(handle, val)), index, announced,
                   log[handle - 1 := log[handle - 1] + [Change(index, val)]])
  {
  }

  lemma TimeAt(breakSize: nat, d: Course, tim: nat, log: seq<seq<Change>>)
    requires Stands(d, 0, [3], log) && Filled(d) < breakSize && 3 <= tim < TWO_64
    ensures Stands(Advance(breakSize, d, TimeChange(tim)), 1, [3, tim], log)
  {
    hide WriterState.Taken;
  }

  lemma FirstCall(breakSize: nat)
    ensures At(breakSize, 0).open.log == LOG0 && Stands(At(breakSize, 1), 0, [3], LOG0)
  {
    AtStep(breakSize, 0);
    assert SampleCalls()[..0] == [];
    assert At(breakSize, 0) == Outset(LENS);
  }

  lemma FirstFour(breakSize: nat)
    ensures At(breakSize, 0).open.log == LOG0 && Stands(At(breakSize, 1), 0, [3], LOG0) && Stands(At(breakSize, 2), 0, [3], LOG1)
    ensures Stands(At(breakSize, 3), 0, [3], LOG2) && Stands(At(breakSize, 4), 0, [3], LOG3)
  {
    hide At, Advance, Stands;
    FirstCall(breakSize);
    AtStep(breakSize, 1);
    AtStep(breakSize, 2);
    AtStep(breakSize, 3);
    Logs();
    ValueAt(breakSize, At(breakSize, 1), 1, [49], 0, [3], LOG0);
    ValueAt(breakSize, At(breakSize, 2), 2, BITS, 0, [3], LOG1);
    ValueAt(breakSize, At(breakSize, 3), 3, [49], 0, [3], LOG2);
  }

  lemma Logs()
    ensures LOG0[0 := LOG0[0] + [Change(0, [49])]] == LOG1 && LOG1[1 := LOG1[1] + [Change(0, BITS)]] == LOG2
    ensures LOG2[2 := LOG2[2] + [Change(0, [49])]] == LOG3 && LOG3[1 := LOG3[1] + [Change(1, WITH_X)]] == LOG4
  {
    assert [] + [Change(0, [49])] == [Change(0, [49])] && [] + [Change(0, BITS)] == [Change(0, BITS)];
    assert [Change(0, BITS)] + [Change(1, WITH_X)] == [Change(0, BITS), Change(1, WITH_X)];
  }

  /** The one section the file has. */
  lemma SampleSection(breakSize: nat)
    requires breakSize > 41
    ensures forall n :: 0 <= n <= 6 ==> Filled(At(breakSize, n)) <= 41
    ensures var parts := Final(Follow(breakSize, LENS, SampleCalls()));
      && |parts| == 1 && parts[0].begTim == 3 && parts[0].endTim == 300 && parts[0].announced == parts[0].times == [3, 300]
      && parts[0].first == AllUnknown(LENS) && parts[0].log == LOG4
  {
    hide Advance, Filled, Follow, Empty;
    FirstFour(breakSize);
    FilledAt(At(breakSize, 0));
    FilledAt(At(breakSize, 1));
    FilledAt(At(breakSize, 2));
    FilledAt(At(breakSize, 3));
    FilledAt(At(breakSize, 4));
    AtStep(breakSize, 4);
    TimeAt(breakSize, At(breakSize, 4), 300, LOG3);
    FilledAt(At(breakSize, 5));
    AtStep(breakSize, 5);
    Logs();
    ValueAt(breakSize, At(breakSize, 5), 2, WITH_X, 1, [3, 300], LOG3);
    FilledAt(At(breakSize, 6));
    assert SampleCalls()[..6] == SampleCalls();
  }

  // ----- its chains -----

  lemma OneChange(b: byte)
    requires b == 49
    ensures Ordered(1, 0, [Change(0, [b])]) && Encode(1, 0, [Change(0, [b])]) == [2]
  {
    hide Record;
    ScalarRecord(0, b);
    assert Varint.Encode(2) == [2];
    assert [Change(0, [b])][1..] == [];
    assert Encode(1, 0, []) == [];
  }

  lemma TwoChanges()
    ensures Ordered(9, 0, [Change(0, BITS), Change(1, WITH_X)])
    ensures Encode(9, 0, [Change(0, BITS), Change(1, WITH_X)]) == [0, 160, 128, 3] + WITH_X
  {
    hide Record;
    TwoRecords();
    assert [Change(0, BITS), Change(1, WITH_X)][1..] == [Change(1, WITH_X)] && [Change(1, WITH_X)][1..] == [];
    assert Encode(9, 1, []) == [];
    assert Encode(9, 0, [Change(1, WITH_X)]) == [3] + WITH_X;
    assert [0, 160, 128] + ([3] + WITH_X) == [0, 160, 128, 3] + WITH_X;
  }

  lemma TwoRecords()
    ensures Record(0, BITS) == [0, 160, 128] && Record(1, WITH_X) == [3] + WITH_X
  {
    hide Record, PackBits;
    VectorRecord(0, BITS);
    VectorRecord(1, WITH_X);
    PackedByte(BITS, 0);
    PackedByte(BITS, 1);
    assert Varint.Encode(0) == [0] && Varint.Encode(3) == [3];
    assert WITH_X[1] == 120;
    assert PackBits(BITS) == [160, 128];
  }

  // ----- its bytes -----

  /** Every byte of the file: the mode's letter is 70 or 52. */
  function SampleBytes(letter: byte): seq<byte> {
    HEADER + (FRAME + ([4] + (SampleChainBytes(letter) + ([3, 5, 127, 2] + ([0, 0, 0, 0, 0, 0, 0, 4] + TIMES)))))
  }

  /** A block of value changes, 104 bytes from here on, from time 3 to time 300, with 15
      bytes in all its chains. */
  const HEADER: seq<byte> :=
    [8, 0, 0, 0, 0, 0, 0, 0, 104, 0, 0, 0, 0, 0, 0, 0, 3, 0, 0, 0, 0, 0, 0, 1, 44, 0, 0, 0, 0, 0, 0, 0, 15]

  /** Twelve bytes, stored as twelve, of four signals: nothing but x. */
  const FRAME: seq<byte> := [12, 12, 4, 120, 120, 120, 120, 120, 120, 120, 120, 120, 120, 120, 120]

  /** At 1 a chain stored as it is, a one at index 0; at 3 another, with nine bits in two
      bytes at index 0 and nine characters one index later. */
  function SampleChainBytes(letter: byte): seq<byte> {
    [letter, 0, 2, 0, 0, 160, 128, 3, 49, 120, 48, 48, 48, 48, 48, 48, 48]
  }

  /** Time 3 and 297 later, in three bytes stored as three, two of them. */
  const TIMES: seq<byte> := [3, 169, 2, 0, 0, 0, 0, 0, 0, 0, 3, 0, 0, 0, 0, 0, 0, 0, 3, 0, 0, 0, 0, 0, 0, 0, 2]

  /** The chains, and where they are. */
  lemma SampleChains(b: Block, p: Part)
    requires BlockOk(LENS, b) && Session.BlockOf(b, p) && p.log == LOG4
    ensures var c := b.contents;
      && c.chains == [[2], [0, 160, 128, 3] + WITH_X, [2], []] && c.entries == [1, 3, -1, 0] && |b.section.area| == 17
      && |c.forms| == 4 && c.forms[0] == Stored.Raw([2]) && c.forms[1] == Stored.Raw([0, 160, 128, 3] + WITH_X)
  {
    hide BlockOk, Session.BlockOf, ChainIndex.NextPos, Encode, ChainOf, HasChanges, ChainStore.Laid;
    var c := b.contents;
    ChainsAre(p);
    LaidOf(LENS, b);
    ChainIsOf(LENS, b, p, 0);
    ChainIsOf(LENS, b, p, 1);
    ChainIsOf(LENS, b, p, 2);
    ChainIsOf(LENS, b, p, 3);
    ShortStored(LENS, b, 0);
    ShortStored(LENS, b, 1);
    ShortStored(LENS, b, 2);
    FirstAt(LENS, b, 0);
    Twice(b);
    FourPositions(c.entries, |b.section.area|);
    assert c.entries[0] == 1 && c.entries[1] == 3 && c.entries[2] == -1 && c.entries[3] == 0;
  }

  lemma ChainsAre(p: Part)
    requires p.log == LOG4
    ensures ChainOf(LENS, p, 0) == ChainOf(LENS, p, 2) == [2] && ChainOf(LENS, p, 1) == [0, 160, 128, 3] + WITH_X
    ensures ChainOf(LENS, p, 3) == [] && !HasChanges(p, 3) && HasChanges(p, 0) && HasChanges(p, 1) && HasChanges(p, 2)
  {
    hide Encode, Ordered;
    OneChange(49);
    TwoChanges();
    NoChain(p);
  }

  lemma NoChain(p: Part)
    requires p.log == LOG4
    ensures ChainOf(LENS, p, 3) == [] && !HasChanges(p, 3)
  {
  }

  /** The third signal's chain is not stored again. */
  lemma Twice(b: Block)
    requires BlockOk(LENS, b)
    ensures ChainStore.NothingTwice(b.contents.entries, b.contents.forms)
  {
    hide ChainStore.Laid, Reader.Logged, Frame.FrameOf, TimeTable.Deltas, ChainIndex.Encode, ChainStore.Total, ChainStore.NothingTwice,
      Encode;
  }

  lemma FourPositions(entries: seq<int>, total: nat)
    requires |entries| == 4
    ensures entries[1] > 0 ==> ChainIndex.NextPos(entries, 0, total) == entries[1]
    ensures entries[2] <= 0 && entries[3] <= 0 ==> ChainIndex.NextPos(entries, 1, total) == total
  {
    assert ChainIndex.NextPos(entries, 3, total) == total;
    assert ChainIndex.NextPos(entries, 2, total) == if entries[3] > 0 then entries[3] else ChainIndex.NextPos(entries, 3, total);
  }

  lemma SampleArea(b: Block, p: Part)
    requires BlockOk(LENS, b) && Session.BlockOf(b, p) && p.log == LOG4
    ensures b.section.area == [Stored.PackType(b.contents.mode), 0, 2, 0, 0, 160, 128, 3] + WITH_X
    ensures b.section.index == [3, 5, 127, 2]
  {
    hide BlockOk, Session.BlockOf, ChainIndex.NextPos, ChainIndex.Encode, Stored.Wire, Bytes.At;
    SampleChains(b, p);
    LaidOf(LENS, b);
    var c, area := b.contents, b.section.area;
    assert ChainStore.Slot(c.mode, area, c.entries, c.forms, c.chains, 0);
    assert ChainStore.Slot(c.mode, area, c.entries, c.forms, c.chains, 1);
    WireOf([2]);
    WireOf([0, 160, 128, 3] + WITH_X);
    PartAt(area, 1, [0] + [2]);
    PartAt(area, 3, [0] + ([0, 160, 128, 3] + WITH_X));
    AreaBegins(b);
    SampleIndex();
    assert area == [area[0]] + area[1..3] + area[3..17];
  }

  lemma WireOf(chain: seq<byte>)
    ensures Stored.Wire(Stored.Raw(chain)) == [0] + chain
  {
    assert Varint.Encode(0) == [0];
  }

  lemma PartAt(area: seq<byte>, p: nat, part: seq<byte>)
    requires Bytes.At(area, p, part)
    ensures p + |part| <= |area| && area[p..p + |part|] == part
  {
    AtSlice(area, p, part);
  }

  lemma AreaBegins(b: Block)
    requires BlockOk(LENS, b)
    ensures |b.section.area| > 0 && b.section.area[0] == Stored.PackType(b.contents.mode)
    ensures b.section.index == ChainIndex.Encode(b.contents.entries)
  {
    hide ChainStore.Laid, Reader.Logged, Frame.FrameOf, TimeTable.Deltas, ChainIndex.Encode, ChainStore.Total, Encode;
  }

  /** A position, another two on, a reference, and one signal without a chain. */
  lemma SampleIndex()
    ensures ChainIndex.Encode([1, 3, -1, 0]) == [3, 5, 127, 2]
  {
    hide ChainIndex.EncodeFrom, ChainIndex.Item, ChainIndex.ZeroRun;
    var e := [1, 3, -1, 0];
    IndexStep(e, 0, 0, 0, 0);
    IndexStep(e, 1, 0, 1, 0);
    IndexStep(e, 2, 0, 3, 0);
    IndexStep(e, 3, 0, 3, -1);
    IndexStep(e, 4, 1, 3, -1);
    SampleItems();
  }

  lemma IndexStep(e: seq<int>, i: nat, zeros: nat, prevpos: nat, prevAlias: int)
    requires i <= |e|
    ensures ChainIndex.EncodeFrom(e, i, zeros, prevpos, prevAlias) ==
      if i == |e| then ChainIndex.ZeroRun(zeros)
      else if e[i] == 0 then ChainIndex.EncodeFrom(e, i + 1, zeros + 1, prevpos, prevAlias)
      else
        ChainIndex.ZeroRun(zeros) + ChainIndex.Item(e[i], prevpos, prevAlias)
        + ChainIndex.EncodeFrom(e, i + 1, 0, if e[i] > 0 then e[i] else prevpos, if e[i] < 0 then e[i] else prevAlias)
  {
    hide ChainIndex.Item, ChainIndex.ZeroRun;
  }

  lemma SampleItems()
    ensures ChainIndex.ZeroRun(0) == [] && ChainIndex.ZeroRun(1) == [2]
    ensures ChainIndex.Item(1, 0, 0) == [3] && ChainIndex.Item(3, 1, 0) == [5] && ChainIndex.Item(-1, 3, 0) == [127]
  {
    assert Varint.Encode(2) == [2];
    assert Varint.EncodeSigned(3) == [3] && Varint.EncodeSigned(5) == [5] && Varint.EncodeSigned(-1) == [127];
  }

  /** A position, the same reference twice, two signals without chains, and a position
      199 further on. */
  lemma ReferenceTwice()
    ensures ChainIndex.Encode([1, -1, -1, 0, 0, 200]) == [3, 127, 1, 4, 143, 3]
  {
    hide ChainIndex.EncodeFrom, ChainIndex.Item, ChainIndex.ZeroRun;
    var e := [1, -1, -1, 0, 0, 200];
    IndexStep(e, 0, 0, 0, 0);
    IndexStep(e, 1, 0, 1, 0);
    IndexStep(e, 2, 0, 1, -1);
    IndexStep(e, 3, 0, 1, -1);
    IndexStep(e, 4, 1, 1, -1);
    IndexStep(e, 5, 2, 1, -1);
    IndexStep(e, 6, 0, 200, -1);
    SampleItems();
    MoreItems();
  }

  lemma MoreItems()
    ensures ChainIndex.ZeroRun(2) == [4] && ChainIndex.Item(-1, 1, 0) == [127] && ChainIndex.Item(-1, 1, -1) == [1]
    ensures ChainIndex.Item(200, 1, -1) == [143, 3]
  {
    assert Varint.Encode(4) == [4] && Varint.EncodeSigned(-1) == [127] && Varint.EncodeSigned(1) == [1];
    assert Varint.EncodeSigned(3) == [3];
    assert Varint.EncodeSigned(399) == [143] + [3];
  }

  /** The frame, the time table and the memory. */
  lemma SampleRest(b: Block, p: Part)
    requires BlockOk(LENS, b) && Session.BlockOf(b, p) && p.log == LOG4 && p.first == AllUnknown(LENS) && p.times == [3, 300]
    ensures b.section.frame == [120, 120, 120, 120, 120, 120, 120, 120, 120, 120, 120, 120] && b.section.maxhandle == 4
    ensures b.section.timeData == [3, 169, 2] && b.section.nTimes == 2 && b.section.memReq == 15
  {
    hide BlockOk, Session.BlockOf, Encode;
    SampleChains(b, p);
    FieldsOf(b);
    SampleFrame();
    SampleTimes();
    SampleTotal();
    assert b.contents.first == AllUnknown(LENS) && b.contents.times == [3, 300] by { SameFields(b, p); }
  }

  lemma SampleTotal()
    ensures ChainStore.Total([[2], [0, 160, 128, 3] + WITH_X, [2], []]) == 15
  {
    hide ChainStore.Total;
    var x: seq<byte> := [0, 160, 128, 3] + WITH_X;
    TotalOf([], [2]);
    TotalOf([[2]], x);
    TotalOf([[2], x], [2]);
    TotalOf([[2], x, [2]], []);
    assert [] + [[2]] == [[2]] && [[2]] + [x] == [[2], x] && [[2], x] + [[2]] == [[2], x, [2]];
    assert [[2], x, [2]] + [[]] == [[2], x, [2], []];
  }

  lemma TotalOf(chains: seq<seq<byte>>, chain: seq<byte>)
    ensures ChainStore.Total(chains + [chain]) == ChainStore.Total(chains) + |chain| && ChainStore.Total([]) == 0
  {
    ChainStore.TotalSnoc(chains, chain);
  }

  lemma SameFields(b: Block, p: Part)
    requires Session.BlockOf(b, p)
    ensures b.contents.first == p.first && b.contents.times == p.times && b.section.begTim == p.begTim && b.section.endTim == p.endTim
  {
  }

  lemma FieldsOf(b: Block)
    requires BlockOk(LENS, b)
    ensures b.section.frame == Frame.FrameOf(b.contents.first) && b.section.maxhandle == 4
    ensures b.section.timeData == TimeTable.Deltas(0, b.contents.times) && b.section.nTimes == |b.contents.times|
    ensures b.section.memReq == ChainStore.Total(b.contents.chains)
  {
    hide ChainStore.Laid, Reader.Logged, Frame.FrameOf, TimeTable.Deltas, ChainIndex.Encode, ChainStore.Total, Encode;
  }

  lemma SampleFrame()
    ensures Frame.FrameOf(AllUnknown(LENS)) == [120, 120, 120, 120, 120, 120, 120, 120, 120, 120, 120, 120]
  {
    hide Frame.FrameOf;
    var v := AllUnknown(LENS);
    assert Unknown(1) == [120] && Unknown(9) == [120, 120, 120, 120, 120, 120, 120, 120, 120];
    assert v == [[120], [120, 120, 120, 120, 120, 120, 120, 120, 120], [120], [120]];
    FrameSnoc([], v[0]);
    FrameSnoc([v[0]], v[1]);
    FrameSnoc([v[0], v[1]], v[2]);
    FrameSnoc([v[0], v[1], v[2]], v[3]);
    assert [] + [v[0]] == [v[0]] && [v[0]] + [v[1]] == [v[0], v[1]] && [v[0], v[1]] + [v[2]] == [v[0], v[1], v[2]];
    assert [v[0], v[1], v[2]] + [v[3]] == v;
  }

  lemma FrameSnoc(vals: seq<seq<byte>>, val: seq<byte>)
    ensures Frame.FrameOf(vals + [val]) == Frame.FrameOf(vals) + val && Frame.FrameOf([]) == []
  {
    assert (vals + [val])[..|vals|] == vals;
  }

  lemma SampleTimes()
    ensures TimeTable.Deltas(0, [3, 300]) == [3, 169, 2]
  {
    assert Varint.Encode(3) == [3];
    assert Varint.Encode(297) == [169] + Varint.Encode(2);
    assert [3, 300][1..] == [300] && [300][1..] == [];
    assert TimeTable.Deltas(3, [300]) == Varint.Encode(297) + TimeTable.Deltas(300, []);
  }

  /** The block's bytes, with compression that changes nothing. */
  lemma SampleWire(b: Block, p: Part)
    requires BlockOk(LENS, b) && Session.BlockOf(b, p) && p.log == LOG4 && p.first == AllUnknown(LENS) && p.times == [3, 300]
    requires p.begTim == 3 && p.endTim == 300
    ensures Section.Wire(Plain(), b.section) == SampleBytes(Stored.PackType(b.contents.mode))
  {
    hide BlockOk, Session.BlockOf, Section.Wire;
    SampleArea(b, p);
    SampleRest(b, p);
    SameFields(b, p);
    var letter := Stored.PackType(b.contents.mode);
    assert b.section.area == SampleChainBytes(letter);
    BytesOf(b.section, letter);
  }

  lemma BytesOf(s: Section.Section, letter: byte)
    requires s.begTim == 3 && s.endTim == 300 && s.memReq == 15 && s.maxhandle == 4 && s.area == SampleChainBytes(letter)
    requires s.frame == [120, 120, 120, 120, 120, 120, 120, 120, 120, 120, 120, 120]
    requires s.index == [3, 5, 127, 2] && s.timeData == [3, 169, 2] && s.nTimes == 2
    ensures Section.Wire(Plain(), s) == SampleBytes(letter)
  {
    hide Section.U64, Varint.Encode, Section.Frame, Section.Chains, Section.Header;
    FrameBytes(s.frame);
    ChainBytes(s);
    HeaderBytes();
    assert |Section.Frame(Plain(), s.frame, 4)| == 15 && |Section.Chains(Plain(), s)| == 57;
    assert Section.Length(Plain(), s) == 104;
  }

  lemma FrameBytes(frame: seq<byte>)
    requires frame == [120, 120, 120, 120, 120, 120, 120, 120, 120, 120, 120, 120]
    ensures Section.Frame(Plain(), frame, 4) == FRAME
  {
    hide Varint.Encode;
    SmallNumbers();
    assert Section.Pack(Plain(), frame) == frame;
  }

  lemma HeaderBytes()
    ensures Section.Header(8, 104, 3, 300, 15) == HEADER
  {
    hide Section.U64;
    SmallNumbers();
  }

  lemma ChainBytes(s: Section.Section)
    requires s.maxhandle == 4 && |s.area| == 17 && s.index == [3, 5, 127, 2] && s.timeData == [3, 169, 2] && s.nTimes == 2
    ensures Section.Chains(Plain(), s) == [4] + (s.area + ([3, 5, 127, 2] + ([0, 0, 0, 0, 0, 0, 0, 4] + TIMES)))
  {
    hide Section.U64, Varint.Encode, Section.Times;
    SmallNumbers();
    TimeBytes(s);
  }

  lemma TimeBytes(s: Section.Section)
    requires s.timeData == [3, 169, 2] && s.nTimes == 2
    ensures Section.Times(Plain(), s) == TIMES
  {
    hide Section.U64;
    SmallNumbers();
    assert Section.Pack(Plain(), s.timeData) == s.timeData;
  }

  lemma SmallNumbers()
    ensures Varint.Encode(12) == [12] && Varint.Encode(4) == [4]
    ensures Section.U64(104) == [0, 0, 0, 0, 0, 0, 0, 104] && Section.U64(3) == [0, 0, 0, 0, 0, 0, 0, 3]
    ensures Section.U64(300) == [0, 0, 0, 0, 0, 0, 1, 44] && Section.U64(15) == [0, 0, 0, 0, 0, 0, 0, 15]
    ensures Section.U64(4) == [0, 0, 0, 0, 0, 0, 0, 4] && Section.U64(2) == [0, 0, 0, 0, 0, 0, 0, 2]
  {
  }

  lemma SampleRecorded(mode: Stored.Mode, breakSize: nat, file: seq<byte>, blocks: seq<Block>)
    requires breakSize > 41 && Recorded(Plain(), breakSize, LENS, SampleCalls(), file, 0, blocks)
    requires forall k :: 0 <= k < |blocks| ==> blocks[k].contents.mode == mode
    ensures |blocks| == 1
    ensures |file| >= 105 && file[..105] == SampleBytes(if mode.FourPack? then 52 else 70)
    ensures |file| == 105 || file[105] == 255
  {
    hide Follow, Final, BlockOk, Section.Wire, TraceFile.Readable, SampleBytes;
    SampleSection(breakSize);
    var parts := Final(Follow(breakSize, LENS, SampleCalls()));
    assert BlockOk(LENS, blocks[0]) && Session.BlockOf(blocks[0], parts[0]);
    SampleWire(blocks[0], parts[0]);
    OneWritten(blocks);
    HowMany(Stored.PackType(mode));
    PartAt(file, 0, SampleBytes(Stored.PackType(mode)));
  }

  lemma OneWritten(blocks: seq<Block>)
    requires |blocks| == 1
    ensures TraceFile.WrittenFrom(Plain(), blocks) == Section.Wire(Plain(), blocks[0].section)
  {
    hide Section.Wire;
    assert blocks[1..] == [];
  }

  lemma HowMany(letter: byte)
    ensures |SampleBytes(letter)| == 105
  {
  }

  /** The run is written as these bytes, whatever the hash functions. */
  method WriteSample(mode: Stored.Mode, hash: nat -> Lz.Slot, jhash: seq<byte> -> nat, size: nat, breakSize: nat)
    returns (file: seq<byte>)
    requires size > 0 && breakSize > 41
    ensures |file| >= 105 && file[..105] == SampleBytes(if mode.FourPack? then 52 else 70)
    ensures |file| == 105 || file[105] == 255
  {
    hide Follow, Recorded, Filled, SampleBytes;
    SampleSection(breakSize);
    assert forall i :: 0 <= i <= 6 ==> At(breakSize, i) == Follow(breakSize, LENS, SampleCalls()[..i]);
    ghost var blocks;
    file, blocks := Write(Plain(), mode, hash, jhash, size, breakSize, LENS, [], SampleCalls());
    SampleRecorded(mode, breakSize, file, blocks);
  }
}
