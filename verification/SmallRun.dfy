/** A run of the writer of src/fst/fstapi.c small enough to be followed by hand: all
    conditions of writing and reading are met, and what comes back is known. */
module SmallRun {
  import opened Bytes
  import opened Chain
  import opened Course
  import opened KeptTables
  import opened Merge
  import opened RoundTrip
  import ChainWriter
  import Frame
  import Lz
  import Section
  import Session
  import Stored
  import ValueAt
  import ValueFile
  import ValueOfRun
  import Varint
  import WriterState
  import Writer

  /** Time 3, a one-bit signal becomes `b`, time 8. */
  function Calls(b: byte): seq<Call> {
    [TimeChange(3), ValueChange(1, [b]), TimeChange(8)]
  }

  /** Compression that changes nothing. */
  function Plain(): Section.Zlib {
    Section.Zlib(x => x, (x: seq<byte>, n: nat) => x)
  }

  ghost function Upto(b: byte, i: nat): Course
    requires i <= 3
  {
    Follow(1000, [1], Calls(b)[..i])
  }

  lemma Steps(b: byte)
    ensures Upto(b, 0) == Outset([1]) && Upto(b, 1) == Advance(1000, Upto(b, 0), Calls(b)[0])
    ensures Upto(b, 2) == Advance(1000, Upto(b, 1), Calls(b)[1]) && Upto(b, 3) == Advance(1000, Upto(b, 2), Calls(b)[2])
  {
    hide Advance;
    var calls := Calls(b);
    assert calls[..0] == [];
    FollowSnoc(1000, [1], calls, 0);
    FollowSnoc(1000, [1], calls, 1);
    FollowSnoc(1000, [1], calls, 2);
  }

  lemma TakenBy(b: byte)
    ensures WriterState.Taken([[]], 1) == 0 && WriterState.Taken([[Change(0, [b])]], 1) == 6
  {
    assert Varint.Encode(0) == [0];
    assert ChainWriter.RawSize(0, [b]) == 6;
    assert [Change(0, [b])][1..] == [];
    assert ChainWriter.RawBytes(0, [Change(0, [b])]) == 6;
    assert WriterState.Taken([[]], 0) == 0 && WriterState.Taken([[Change(0, [b])]], 0) == 0;
  }

  lemma Sections(b: byte)
    ensures forall i :: 0 <= i <= 3 ==> Upto(b, i).parts == [] && Filled(Upto(b, i)) <= 7
    ensures var d := Upto(b, 3);
      && d.m.events == [Event(3, 1, [b])] && d.m.started && !d.m.given && |d.m.vals| == |d.m.initial| == 1
      && d.open.log == [[Change(0, [b])]] && d.open.announced == d.open.times == [3, 8] && Filled(d) == 7
      && d.open.begTim == 3 && d.open.endTim == 8
  {
    hide Upto, Advance;
    Opening(b);
    OneChange(b);
    Steps(b);
    TimeEight(Upto(b, 2));
  }

  /** Before the first time change and after it. */
  lemma Opening(b: byte)
    ensures Upto(b, 0).parts == [] && Filled(Upto(b, 0)) == 1 && Upto(b, 1).parts == [] && Filled(Upto(b, 1)) == 1
    ensures var d := Upto(b, 1);
      && d.m.started && !d.m.given && d.m.now == 3 && |d.m.vals| == |d.m.initial| == 1 && d.m.events == [] && d.index == 0
      && !d.pending && d.open.log == [[]] && d.open.announced == d.open.times == [3] && d.open.begTim == 3
  {
    hide WriterState.Taken;
    Steps(b);
    TakenBy(b);
    assert Upto(b, 0).open.log == [[]];
  }

  lemma OneChange(b: byte)
    ensures var d := Upto(b, 2);
      && d.m.started && !d.m.given && d.m.now == 3 && |d.m.vals| == |d.m.initial| == 1 && d.m.events == [Event(3, 1, [b])]
      && !d.pending && d.open.log == [[Change(0, [b])]] && d.open.announced == d.open.times == [3] && d.open.begTim == 3
      && d.parts == [] && Filled(d) == 7
  {
    hide WriterState.Taken;
    Opening(b);
    Steps(b);
    TakenBy(b);
    assert [] + [Change(0, [b])] == [Change(0, [b])];
  }

  lemma TimeEight(d: Course)
    requires Sane(d) && d.m.started && d.m.now == 3 && d.open.times == [3] && Filled(d) == 7 && !d.pending
    ensures var r := Advance(1000, d, TimeChange(8));
      && r.m == d.m.(now := 8) && r.parts == d.parts && r.open.log == d.open.log && Filled(r) == 7
      && r.open.announced == d.open.announced + [8] && r.open.times == [3, 8]
      && r.open.begTim == d.open.begTim && r.open.endTim == 8
  {
    hide WriterState.Taken;
  }

  lemma CanBeWritten(b: byte)
    ensures Roomy(1000, [1], Calls(b)) && forall k :: 0 <= k < 3 ==> Acceptable([1], Calls(b)[k])
    ensures 1 + 10 + Frame.Offset([1], 1) <= 0x4000_0000
  {
    hide Filled, Follow;
    Sections(b);
    assert forall i :: 0 <= i <= 3 ==> Upto(b, i) == Follow(1000, [1], Calls(b)[..i]);
  }

  /** The file has one section. */
  lemma OneSection(b: byte)
    ensures var d := Follow(1000, [1], Calls(b));
      && d == Upto(b, 3) && Final(d) == [d.open] && d.open.log == [[Change(0, [b])]]
      && d.open.announced == d.open.times == [3, 8] && d.open.begTim == 3 && d.open.endTim == 8
  {
    hide Follow, Filled;
    Sections(b);
    assert Calls(b)[..3] == Calls(b);
    NotEmpty(Upto(b, 3));
  }

  lemma NotEmpty(d: Course)
    requires Filled(d) == 7
    ensures !Empty(d)
  {
  }

  lemma CanBeRead(b: byte)
    ensures Legible([1], [true], Final(Follow(1000, [1], Calls(b))))
    ensures |Final(Follow(1000, [1], Calls(b)))| == 1 && ValueOfRun.Askable([1], Final(Follow(1000, [1], Calls(b)))[0], 0)
  {
    hide Follow, Final;
    OneSection(b);
    var p := Follow(1000, [1], Calls(b)).open;
    assert [Change(0, [b])][1..] == [];
    assert AllFit(0, p.log[0]);
  }

  lemma IsReported(b: byte)
    ensures Reported(Follow(1000, [1], Calls(b))) == [Spell(Event(3, 1, [b]))]
  {
    hide Follow, Canonical;
    Sections(b);
    assert Calls(b)[..3] == Calls(b);
    SpelledOne(Event(3, 1, [b]));
  }

  /** Written and read back, the signal's one change is its one callback, a letter in
      lower case and anything that is neither a bit nor one of six letters as '-'. */
  method WrittenAndRead(mode: Stored.Mode, hash: nat -> Lz.Slot, jhash: seq<byte> -> nat, b: byte) returns (events: seq<Event>)
    ensures |Of(events, 0)| == 1 && Of(events, 0)[0].time == 3 && Of(events, 0)[0].handle == 1
    ensures var val := Of(events, 0)[0].val;
      && (b == 48 || b == 49 ==> val == [b])
      && (b == 120 || b == 88 ==> val == [120]) && (b == 122 || b == 90 ==> val == [122])
      && (b == 104 || b == 72 ==> val == [104]) && (b == 117 || b == 85 ==> val == [117])
      && (b == 119 || b == 87 ==> val == [119]) && (b == 108 || b == 76 ==> val == [108])
      && (b !in [48, 49, 120, 88, 122, 90, 104, 72, 117, 85, 119, 87, 108, 76] ==> val == [45])
  {
    hide Follow, Legible, Roomy, Acceptable, Reported, Final, Frame.Offset, Canonical, Of;
    CanBeWritten(b);
    CanBeRead(b);
    IsReported(b);
    events := WriteAndRead(Plain(), mode, hash, jhash, 1, 1000, [1], [], Calls(b), [true]);
    assert [true][0];
    OfOne(Spell(Event(3, 1, [b])));
    Letters(b, [b]);
  }

  lemma OfOne(e: Event)
    ensures e.handle == 1 ==> Of([e], 0) == [e]
  {
    assert [e][..0] == [];
  }

  /** Written and asked for its value at a time: it has one from time 3 to time 8. */
  method WrittenAndAsked(mode: Stored.Mode, hash: nat -> Lz.Slot, jhash: seq<byte> -> nat, b: byte, tim: nat)
    returns (placed: bool, a: ValueAt.Answer)
    requires b == 48 || b == 49
    ensures placed && a == if 3 <= tim <= 8 then ValueAt.Value([b]) else ValueAt.Unknown
  {
    hide Follow, Roomy, Acceptable, Final, Frame.Offset, Recorded, ValueFile.Covering, ValueOfRun.AskableAt, ValueOfRun.ValueThen,
      ValueFile.AtSeam, TimeGoesOn, Calls, Section.Sound;
    CanBeWritten(b);
    CanBeAsked(b, tim);
    var file;
    ghost var blocks;
    file, blocks := Write(Plain(), mode, hash, jhash, 1, 1000, [1], [], Calls(b));
    placed, a := ValueOfRun.AskRun(Plain(), file, 0, [1], 1, tim, 8, 1000, Calls(b), blocks);
    OneCovering(b, file, blocks, tim);
    if placed && 3 <= tim <= 8 { SaidThen(b, tim, a); }
  }

  lemma CanBeAsked(b: byte, tim: nat)
    ensures |Calls(b)| == 3 && TimeGoesOn(Calls(b)) && Section.Sound(Plain())
    ensures ValueOfRun.AskableAt([1], Final(Follow(1000, [1], Calls(b))), 1, tim)
    ensures var parts := Final(Follow(1000, [1], Calls(b))); |parts| == 1 && parts[0].begTim == 3 && parts[0].endTim == 8
  {
    hide Follow, Final, ValueOfRun.Askable;
    CanBeRead(b);
    OneSection(b);
  }

  lemma OneCovering(b: byte, file: seq<byte>, blocks: seq<Writer.Block>, tim: nat)
    requires Recorded(Plain(), 1000, [1], Calls(b), file, 0, blocks)
    ensures |blocks| == 1 && !ValueFile.AtSeam(blocks[0], tim, 8) && ValueFile.Covering(blocks, tim) <= 1
    ensures 3 <= tim <= 8 ==> ValueFile.Covering(blocks, tim) == 0
  {
    hide Follow, Final, Writer.BlockOk, ValueFile.Covering;
    OneSection(b);
    assert Session.BlockOf(blocks[0], Final(Follow(1000, [1], Calls(b)))[0]);
    ValueFile.CoveringMeans(blocks, tim);
  }

  lemma SaidThen(b: byte, tim: nat, a: ValueAt.Answer)
    requires (b == 48 || b == 49) && tim >= 3 && ValueOfRun.ValueThen([1], Calls(b), 0, tim, a)
    ensures a == ValueAt.Value([b])
  {
    hide Follow, Of, Canonical;
    Sections(b);
    OneSection(b);
    OfOne(Event(3, 1, [b]));
    BitStays(a.val, b);
  }

  lemma BitStays(val: seq<byte>, b: byte)
    requires b == 48 || b == 49
    ensures Canonical(val) == Canonical([b]) ==> val == [b]
  {
    if |val| == 1 { Letters(val[0], val); } else { Letters(0, val); }
    Letters(b, [b]);
    if |val| == 1 { assert val == [val[0]]; }
  }

  /** No call at all: the signal is reported as unknown at time zero. */
  lemma NothingSaid(breakSize: nat)
    ensures Reported(Follow(breakSize, [1], [])) == [Event(0, 1, [120])]
  {
    hide Canonical;
    var d := Outset([1]);
    assert Writer.Unknown(1) == [120];
    assert d.m.vals == [[120]];
    Letters(120, []);
    assert Spelled(Initials(d.m.vals)) == [Event(0, 1, [120])];
  }

  /** A value from before a first time change at 3 is reported at time zero, and the
      section begins there. */
  lemma SaidBefore(b: byte)
    ensures var d := Follow(1000, [1], [ValueChange(1, [b]), TimeChange(3), ValueChange(1, [49])]);
      Reported(d) == [Event(0, 1, [b]), Event(3, 1, [49])] && |Final(d)| == 1 && Final(d)[0].begTim == 0
  {
    hide Canonical, Follow, Advance, Filled;
    var calls := [ValueChange(1, [b]), TimeChange(3), ValueChange(1, [49])];
    assert calls[..3] == calls;
    FollowSnoc(1000, [1], calls, 2);
    SaidEarly(b, calls);
    var d := Follow(1000, [1], calls);
    OneMore(Follow(1000, [1], calls[..2]));
    Letters(49, []);
    SpelledOne(Event(3, 1, [49]));
    InitialOne(d.m.initial, b);
  }

  lemma InitialOne(vals: seq<seq<byte>>, b: byte)
    requires vals == [[b]]
    ensures Initials(vals) == [Event(0, 1, [b])]
  {
  }

  lemma SaidEarly(b: byte, calls: seq<Call>)
    requires |calls| == 3 && calls[0] == ValueChange(1, [b]) && calls[1] == TimeChange(3)
    ensures var d := Follow(1000, [1], calls[..2]);
      && Sane(d) && d.m.started && d.m.given && d.m.begin == d.m.now == 3 && d.m.initial == [[b]] && |d.m.vals| == 1
      && d.m.events == [] && d.index == 0 && d.parts == [] && d.open.log == [[]] && d.open.begTim == 0
  {
    hide WriterState.Taken;
    assert calls[..0] == [];
    FollowSnoc(1000, [1], calls, 0);
    FollowSnoc(1000, [1], calls, 1);
    assert Follow(1000, [1], calls[..0]) == Outset([1]);
  }

  lemma OneMore(d: Course)
    requires Sane(d) && d.m.started && |d.m.vals| == 1 && d.m.events == [] && d.parts == [] && d.open.log == [[]]
    ensures var r := Advance(1000, d, ValueChange(1, [49]));
      && r.m.started && r.m.given == d.m.given && r.m.begin == d.m.begin && r.m.initial == d.m.initial
      && r.m.events == [Event(d.m.now, 1, [49])] && Final(r) == [r.open] && r.open.begTim == d.open.begTim
  {
    hide Filled;
    var r := Advance(1000, d, ValueChange(1, [49]));
    assert [] + [Change(d.index, [49])] == [Change(d.index, [49])];
    EmptyMeans(r);
    assert r.open.log[0] != [];
    assert [] + [r.open] == [r.open] && [] + [Event(d.m.now, 1, [49])] == [Event(d.m.now, 1, [49])];
  }
}
