/** The file that a run of the writer of src/fst/fstapi.c leaves, read by its
    iterating reader: the reader gives back what the writer was given. */
module RoundTrip {
  import opened Bytes
  import opened Chain
  import opened Course
  import opened KeptTables
  import opened Merge
  import opened Reader
  import opened Session
  import opened TraceFile
  import opened Writer
  import ChainIndex
  import ChainStore
  import Frame
  import Lz
  import Section
  import Stored
  import TimeTable
  import Varint

  // ----- every block the writer makes fits the numbers in it -----

  lemma {:induction false} DeltasSize(prev: nat, times: seq<nat>)
    ensures |TimeTable.Deltas(prev, times)| <= 10 * |times|
    decreases |times|
  {
    hide TimeTable.Wrap64;
    if times != [] {
      Varint.WordLengths(TimeTable.Wrap64(times[0] - prev));
      DeltasSize(times[0], times[1..]);
    }
  }

  lemma ItemSize(e: int, prevpos: nat, prevAlias: int)
    requires -0x8000_0000 < e < 0x8000_0000 && prevpos < 0x8000_0000
    ensures |ChainIndex.Item(e, prevpos, prevAlias)| <= 10
  {
    hide Varint.EncodeSigned;
    Varint.FullWord();
    Varint.SignedLengthBound(if e > 0 then 2 * (e - prevpos) + 1 else if e != prevAlias then 2 * e + 1 else 1, 10);
  }

  lemma {:induction false} IndexSize(entries: seq<int>, total: nat, i: nat, zeros: nat, prevpos: nat, prevAlias: int)
    requires ChainIndex.WellFormed(entries, total) && i <= |entries| && zeros <= i && prevpos < 0x8000_0000
    ensures |ChainIndex.EncodeFrom(entries, i, zeros, prevpos, prevAlias)| <= 20 * (|entries| - i) + 10
    decreases |entries| - i
  {
    hide ChainIndex.Item, ChainIndex.ZeroRun;
    ZeroRunSize(zeros);
    if i < |entries| {
      var e := entries[i];
      if e == 0 {
        IndexSize(entries, total, i + 1, zeros + 1, prevpos, prevAlias);
      } else {
        ItemSize(e, prevpos, prevAlias);
        IndexSize(entries, total, i + 1, 0, if e > 0 then e else prevpos, if e < 0 then e else prevAlias);
      }
    }
  }

  lemma ZeroRunSize(zeros: nat)
    ensures zeros < 0x4000_0000 ==> |ChainIndex.ZeroRun(zeros)| <= 10
  {
    Varint.WordLengths(2 * zeros);
  }

  lemma {:induction false} TotalSize(chains: seq<seq<byte>>)
    requires forall i :: 0 <= i < |chains| ==> |chains[i]| < 0x4000_0000
    ensures ChainStore.Total(chains) <= 0x4000_0000 * |chains|
    decreases |chains|
  {
    if chains != [] { TotalSize(chains[..|chains| - 1]); }
  }

  lemma ChainSizes(mode: Stored.Mode, area: seq<byte>, c: Contents)
    requires ChainStore.Laid(mode, area, c.entries, c.forms, c.chains)
    ensures |c.chains| == |c.entries| && |area| < 0x8000_0000
    ensures forall i :: 0 <= i < |c.chains| ==> |c.chains[i]| < 0x4000_0000
  {
    hide Stored.Holds, At, Stored.Wire, ChainIndex.NextPos;
    forall i | 0 <= i < |c.chains| ensures |c.chains[i]| < 0x4000_0000 {
      assert ChainStore.Slot(mode, area, c.entries, c.forms, c.chains, i);
    }
  }

  lemma LengthIs(z: Section.Zlib, s: Section.Section)
    requires |s.frame| <= 0x4000_0000 && s.maxhandle < 0x4000_0000 && |s.area| < 0x8000_0000
    requires |s.index| <= 0x8_0000_0000 && |s.timeData| <= 0x80_0000_0000
    ensures Section.Length(z, s) < 0x100_0000_0000_0000
  {
    hide Section.Pack;
    Varint.WordLengths(|s.frame|);
    Varint.WordLengths(|Section.Pack(z, s.frame)|);
    Varint.WordLengths(s.maxhandle);
  }

  /** Every number written into the block fits in 64 bits. */
  lemma BlockFits(z: Section.Zlib, lens: seq<nat>, b: Block)
    requires BlockOk(lens, b) && Frame.Offset(lens, |lens|) <= 0x4000_0000
    requires b.section.begTim < TWO_64 && b.section.endTim < TWO_64 && |b.contents.times| <= 0x4_0000_0000
    ensures Section.Fits(z, b.section) && Section.Length(z, b.section) < 0x100_0000_0000_0000
  {
    hide ChainStore.Laid, Logged, Section.Length, Frame.Offset, Frame.FrameOf, TimeTable.Deltas, ChainIndex.EncodeFrom,
      ChainIndex.SomePosition, ChainStore.Total, Encode, Announced;
    var c, s := b.contents, b.section;
    Frame.FrameSize(lens, c.first);
    ChainSizes(c.mode, s.area, c);
    TotalSize(c.chains);
    DeltasSize(0, c.times);
    LaidWellFormed(c.mode, s.area, c);
    IndexSize(c.entries, |s.area|, 0, 0, 0, 0);
    LengthIs(z, s);
  }

  lemma LaidWellFormed(mode: Stored.Mode, area: seq<byte>, c: Contents)
    requires ChainStore.Laid(mode, area, c.entries, c.forms, c.chains)
    ensures ChainIndex.WellFormed(c.entries, |area|)
  {
  }

  /** So the reader can read any block of any run. */
  lemma RunReadable(z: Section.Zlib, lens: seq<nat>, breakSize: nat, calls: seq<Call>, blocks: seq<Block>)
    requires AllOk(lens, blocks) && BlocksOf(blocks, Final(Follow(breakSize, lens, calls)))
    requires Frame.Offset(lens, |lens|) <= 0x4000_0000 && |calls| < TWO_32
    requires forall k :: 0 <= k < |calls| ==> Acceptable(lens, calls[k])
    ensures Readable(z, lens, blocks)
    ensures forall k :: 0 <= k < |blocks| ==> Section.Length(z, blocks[k].section) < 0x100_0000_0000_0000
  {
    hide BlockOk, Section.Fits, Section.Length, Follow, Final, Acceptable, Surplus, Sized;
    var d := Follow(breakSize, lens, calls);
    SizedAlong(breakSize, lens, calls);
    FinalSized(|calls|, d);
    SurplusAlong(breakSize, lens, calls);
    FinalSurplus(d);
    forall k | 0 <= k < |blocks|
      ensures BlockOk(lens, blocks[k]) && Section.Fits(z, blocks[k].section)
      ensures Section.Length(z, blocks[k].section) < 0x100_0000_0000_0000
    {
      assert BlockOf(blocks[k], Final(d)[k]);
      BlockFits(z, lens, blocks[k]);
    }
  }

  lemma FinalSurplus(d: Course)
    requires Surplus(d)
    ensures forall k :: 0 <= k < |Final(d)| ==> |Final(d)[k].times| == |Final(d)[k].announced| + Final(d)[k].idle
  {
    hide Empty;
  }

  // ----- one signal's changes -----

  /** One-bit values in the spelling the reader gives them. */
  function Spell(e: Event): (r: Event)
    ensures r.time == e.time && r.handle == e.handle
  {
    e.(val := Canonical(e.val))
  }

  function Spelled(events: seq<Event>): (r: seq<Event>)
    ensures |r| == |events|
  {
    seq(|events|, k requires 0 <= k < |events| => Spell(events[k]))
  }

  lemma SpelledConcat(a: seq<Event>, b: seq<Event>)
    ensures Spelled(a + b) == Spelled(a) + Spelled(b) && Spelled([]) == []
  {
  }

  /** Every distance between two changes of the signal survives its record. */
  ghost predicate Fit(lens: seq<nat>, p: Part, h: nat) {
    h < |lens| && h < |p.log| && Chain.Ordered(lens[h], 0, p.log[h]) ==> AllFit(0, p.log[h])
  }

  /** No distance between two changes can be too large for its record when there
      are few enough times. */
  lemma {:induction false} FewTimesFit(prev: nat, cs: seq<Change>)
    requires forall i :: 0 <= i < |cs| ==> prev <= cs[i].tidx < 0x1000_0000
    requires forall i, j :: 0 <= i < j < |cs| ==> cs[i].tidx <= cs[j].tidx
    ensures AllFit(prev, cs)
    decreases |cs|
  {
    if cs != [] { FewTimesFit(cs[0].tidx, cs[1..]); }
  }

  lemma FewTimes(lens: seq<nat>, p: Part, h: nat)
    requires AllAt(p) && |p.announced| <= 0x1000_0000
    ensures Fit(lens, p, h)
  {
    hide AllFit;
    if h < |lens| && h < |p.log| && Chain.Ordered(lens[h], 0, p.log[h]) {
      assert AllInTable(p.log[h], |p.announced|);
      FewTimesFit(0, p.log[h]);
    }
  }

  /** A run of fewer than 2^28 calls announces few enough times. */
  lemma ShortRunFits(breakSize: nat, lens: seq<nat>, calls: seq<Call>, k: nat, h: nat)
    requires |calls| < 0x1000_0000 && forall k :: 0 <= k < |calls| ==> Acceptable(lens, calls[k])
    requires k < |Final(Follow(breakSize, lens, calls))|
    ensures Fit(lens, Final(Follow(breakSize, lens, calls))[k], h)
  {
    hide Follow, Fit, Acceptable, Empty;
    var d := Follow(breakSize, lens, calls);
    IndexedAlong(breakSize, lens, calls);
    SizedAlong(breakSize, lens, calls);
    FinalSized(|calls|, d);
    FinalAt(d);
    FewTimes(lens, Final(d)[k], h);
  }

  lemma FinalAt(d: Course)
    requires Indexed(d)
    ensures forall k :: 0 <= k < |Final(d)| ==> AllAt(Final(d)[k]) && |Final(d)[k].log| == |d.m.vals|
  {
    hide Empty;
  }

  lemma MadeSeen(lens: seq<nat>, b: Block, p: Part, h: nat)
    requires BlockOk(lens, b) && BlockOf(b, p) && h < |lens| && InStep(p) && Fit(lens, p, h)
    ensures var c := b.contents;
      && h < |c.log| && AllInTable(SeenOf(lens[h], c.log[h]), |c.times|)
      && Delivery(c.times, h, SeenOf(lens[h], c.log[h])) == Spelled(Made(p, h))
  {
    hide Describes, AllFit, SeenOf;
    var c := b.contents;
    assert LoggedOne(lens[h], c.log[h], |b.announced|);
    SeenOfExactly(lens[h], c.log[h]);
    assert AllInTable(c.log[h], |b.announced|);
  }

  // ----- all blocks -----

  /** What the first section's values contribute. */
  function FirstReport(parts: seq<Part>, h: nat): seq<Event> {
    if parts != [] then FrameOne(parts[0], true, h) else []
  }

  function FrameOne(p: Part, first: bool, h: nat): seq<Event> {
    if h < |p.first| && ReportsFrame(first, p.begTim, p.times) then [Event(p.begTim, h + 1, p.first[h])] else []
  }

  lemma ReportedOnce(lens: seq<nat>, mask: seq<bool>, b: Block, p: Part, first: bool, h: nat)
    requires BlockOk(lens, b) && BlockOf(b, p) && h < |lens| == |mask| && mask[h]
    requires AllInTable(SeenOf(lens[h], b.contents.log[h]), |b.contents.times|)
    ensures !first ==> FrameOne(p, first, h) == []
    ensures ReportsOne(lens, mask, b, first, h) == FrameOne(p, first, h)
      + Delivery(b.contents.times, h, SeenOf(lens[h], b.contents.log[h]))
  {
    hide SeenOf, Delivery;
  }

  lemma FirstReports(parts: seq<Part>, h: nat)
    ensures parts == [] ==> FirstReport(parts, h) == []
    ensures |parts| > 1 ==> FirstReport(parts, h) == FirstReport(parts[..|parts| - 1], h)
    ensures |parts| == 1 ==> FirstReport(parts[..0], h) == [] && FirstReport(parts, h) == FrameOne(parts[0], true, h)
  {
  }

  /** The reader reports every change of a selected signal with its time, in
      order and nothing else, after what the first section's values contribute. */
  lemma {:induction false} ReportsAll(lens: seq<nat>, mask: seq<bool>, blocks: seq<Block>, parts: seq<Part>, h: nat)
    requires AllOk(lens, blocks) && BlocksOf(blocks, parts) && h < |lens| == |mask| && mask[h]
    requires forall k :: 0 <= k < |parts| ==> InStep(parts[k]) && Fit(lens, parts[k], h)
    ensures Reports(lens, mask, blocks, h) == FirstReport(parts, h) + Spelled(Told(parts, h))
    decreases |blocks|
  {
    hide Spelled, Made, SeenOf, Delivery, FirstReport, FrameOne, ReportsOne, BlockOk, Fit, InStep, BlockOf;
    SpelledConcat([], []);
    FirstReports(parts, h);
    if blocks != [] {
      var n := |blocks| - 1;
      var b, p := blocks[n], parts[n];
      assert BlockOk(lens, b) && BlockOf(b, p);
      MadeSeen(lens, b, p, h);
      FrontOf(blocks, parts);
      ReportsAll(lens, mask, blocks[..n], parts[..n], h);
      SpelledConcat(Told(parts[..n], h), Made(p, h));
      ReportedOnce(lens, mask, b, p, n == 0, h);
    }
  }

  lemma FrontOf(blocks: seq<Block>, parts: seq<Part>)
    requires BlocksOf(blocks, parts) && blocks != []
    ensures BlocksOf(blocks[..|blocks| - 1], parts[..|parts| - 1])
  {
    hide BlockOf;
  }

  /** Nothing is reported of a signal that was not selected. */
  lemma {:induction false} ReportsNone(lens: seq<nat>, mask: seq<bool>, blocks: seq<Block>, h: nat)
    requires h < |lens| == |mask| && !mask[h]
    ensures Reports(lens, mask, blocks, h) == []
    decreases |blocks|
  {
    if blocks != [] { ReportsNone(lens, mask, blocks[..|blocks| - 1], h); }
  }

  /** Sections that go forward in time make chronological blocks. */
  lemma ForwardIsChronological(lens: seq<nat>, blocks: seq<Block>, parts: seq<Part>)
    requires AllOk(lens, blocks) && BlocksOf(blocks, parts) && Forward(parts)
    requires forall k :: 0 <= k < |parts| ==> InStep(parts[k])
    ensures Chronological(blocks)
  {
    hide Describes, Ascending;
    forall k | 0 <= k < |blocks| ensures InOrderWithin(blocks[k]) && EndOf(blocks[k]) == parts[k].endTim {
      assert BlockOk(lens, blocks[k]) && BlockOf(blocks[k], parts[k]) && ForwardOne(parts[k]) && InStep(parts[k]);
    }
    forall k | 0 < k < |blocks| ensures EndOf(blocks[k - 1]) <= blocks[k].section.begTim {
      assert BlockOf(blocks[k], parts[k]);
    }
  }

  // ----- what a run has to say -----

  /** One event for every signal. */
  function Initials(vals: seq<seq<byte>>): seq<Event> {
    seq(|vals|, h requires 0 <= h < |vals| => Event(0, h + 1, vals[h]))
  }

  /** All that is reported of a run: the values from before the first time change,
      if they are shown at all, and then every value change since, with the time
      it was made at; without any time change, every value at time zero. */
  ghost function Reported(d: Course): seq<Event> {
    (if ShowsFirst(d.m, Final(d)) then Initials(d.m.initial) else [])
    + Spelled(if d.m.started then d.m.events else Initials(d.m.vals))
  }

  lemma {:induction false} OfInitials(vals: seq<seq<byte>>, h: nat)
    ensures Of(Initials(vals), h) == if h < |vals| then [Event(0, h + 1, vals[h])] else []
    decreases |vals|
  {
    if vals != [] {
      var n := |vals| - 1;
      assert Initials(vals)[..n] == Initials(vals[..n]);
      OfInitials(vals[..n], h);
    }
  }

  lemma {:induction false} OfSpelled(events: seq<Event>, h: nat)
    ensures Of(Spelled(events), h) == Spelled(Of(events, h))
    decreases |events|
  {
    hide Spell;
    if events != [] {
      var n := |events| - 1;
      assert Spelled(events)[..n] == Spelled(events[..n]);
      OfSpelled(events[..n], h);
      SpelledConcat(Of(events[..n], h), if events[n].handle == h + 1 then [events[n]] else []);
      SpelledOne(events[n]);
    }
  }

  lemma SpelledOne(e: Event)
    ensures Spelled([e]) == [Spell(e)] && Spelled([]) == []
  {
  }

  /** It is what the sections of the file report. */
  lemma ReportedIs(breakSize: nat, lens: seq<nat>, calls: seq<Call>, h: nat)
    requires h < |lens|
    ensures var d := Follow(breakSize, lens, calls);
      Of(Reported(d), h) == FirstReport(Final(d), h) + Spelled(Told(Final(d), h))
  {
    hide Follow, Spelled, Final, Of, Told, FirstsOf;
    var d := Follow(breakSize, lens, calls);
    Widths(lens, calls);
    IndexedAlong(breakSize, lens, calls);
    TellsAlong(breakSize, lens, calls);
    FinalTells(d, h);
    FirstShown(breakSize, lens, calls, h);
    var told := if d.m.started then d.m.events else Initials(d.m.vals);
    OfSpelled(told, h);
    OfInitials(d.m.vals, h);
    OfInitials(d.m.initial, h);
    OfNothing(h);
    OfConcat(if ShowsFirst(d.m, Final(d)) then Initials(d.m.initial) else [], Spelled(told), h);
  }

  lemma OfNothing(h: nat)
    ensures Of([], h) == []
  {
  }

  lemma {:induction false} Widths(lens: seq<nat>, calls: seq<Call>)
    ensures |Run(Start(lens), calls).vals| == |Run(Start(lens), calls).initial| == |lens|
    decreases |calls|
  {
    if calls != [] { Widths(lens, calls[..|calls| - 1]); }
  }

  /** The values from before the first time change are reported exactly if some
      were given and the first time was not zero, and if there is any section. */
  lemma FirstShown(breakSize: nat, lens: seq<nat>, calls: seq<Call>, h: nat)
    requires h < |lens|
    ensures var d := Follow(breakSize, lens, calls);
      && h < |d.m.initial|
      && FirstReport(Final(d), h) == if ShowsFirst(d.m, Final(d)) then [Event(0, h + 1, d.m.initial[h])] else []
  {
    hide Follow, Final, ShowsFirst;
    var d := Follow(breakSize, lens, calls);
    Widths(lens, calls);
    IndexedAlong(breakSize, lens, calls);
    OpensAlong(breakSize, lens, calls);
    BeginsAlong(breakSize, lens, calls);
    FinalOpens(d);
    FinalBegins(d, h);
    if Final(d) != [] {
      assert Final(d)[..0] == [];
      ToldOne(Final(d)[0], h);
    }
  }

  // ----- writing and reading -----

  /** The times in the sections are right: no flush found nothing to flush, and no
      distance between changes of a selected signal is too large for its record. */
  ghost predicate Timed(lens: seq<nat>, mask: seq<bool>, parts: seq<Part>) {
    && (forall k :: 0 <= k < |parts| ==> InStep(parts[k]))
    && forall k, h :: 0 <= k < |parts| && 0 <= h < |mask| && mask[h] ==> Fit(lens, parts[k], h)
  }

  /** The sections can be read back: the times are right, and so are the reader's
      tables. */
  ghost predicate Legible(lens: seq<nat>, mask: seq<bool>, parts: seq<Part>) {
    Timed(lens, mask, parts) && Undisturbed(lens, mask, parts)
  }

  /** What the callbacks are to be: for every selected signal all that the run has
      to say of it, for any other nothing. */
  ghost predicate GivesBack(events: seq<Event>, mask: seq<bool>, d: Course) {
    forall h :: 0 <= h < |mask| ==> Of(events, h) == if mask[h] then Of(Reported(d), h) else []
  }

  /** The blocks of a run, read back. */
  lemma ReadsBack(breakSize: nat, lens: seq<nat>, mask: seq<bool>, calls: seq<Call>, blocks: seq<Block>, events: seq<Event>)
    requires AllOk(lens, blocks) && BlocksOf(blocks, Final(Follow(breakSize, lens, calls))) && |mask| == |lens|
    requires Timed(lens, mask, Final(Follow(breakSize, lens, calls)))
    requires forall h :: 0 <= h < |lens| ==> Of(events, h) == Reports(lens, mask, blocks, h)
    ensures GivesBack(events, mask, Follow(breakSize, lens, calls))
  {
    hide AllOk, BlocksOf, Of, Reports, Reported, Follow, Final, Fit, InStep, FirstReport, Told, Spelled;
    var d := Follow(breakSize, lens, calls);
    forall h | 0 <= h < |mask| ensures Of(events, h) == if mask[h] then Of(Reported(d), h) else [] {
      if mask[h] {
        ReportsAll(lens, mask, blocks, Final(d), h);
        ReportedIs(breakSize, lens, calls, h);
      } else {
        ReportsNone(lens, mask, blocks, h);
      }
    }
  }

  /** The file holds the blocks of this run. */
  ghost predicate Recorded(z: Section.Zlib, breakSize: nat, lens: seq<nat>, calls: seq<Call>, file: seq<byte>, start: nat, blocks: seq<Block>) {
    && Holds(file, start, z, blocks) && Readable(z, lens, blocks) && AllOk(lens, blocks)
    && (forall k :: 0 <= k < |blocks| ==> Section.Length(z, blocks[k].section) < 0x100_0000_0000_0000)
    && BlocksOf(blocks, Final(Follow(breakSize, lens, calls)))
  }

  /** Any run can be written, within the widths the buffers have, and every block
      of the file can be read. */
  method Write(z: Section.Zlib, mode: Stored.Mode, hash: nat -> Lz.Slot, jhash: seq<byte> -> nat, size: nat,
               breakSize: nat, lens: seq<nat>, pre: seq<byte>, calls: seq<Call>)
    returns (file: seq<byte>, ghost blocks: seq<Block>)
    requires size > 0 && |lens| < 0x3fff_ffff && forall h :: 0 <= h < |lens| ==> lens[h] >= 1
    requires Roomy(breakSize, lens, calls) && 1 + 10 * |lens| + Frame.Offset(lens, |lens|) <= 0x4000_0000
    requires forall k :: 0 <= k < |calls| ==> Acceptable(lens, calls[k])
    ensures pre <= file && Recorded(z, breakSize, lens, calls, file, |pre|, blocks)
    ensures forall k :: 0 <= k < |blocks| ==> blocks[k].contents.mode == mode
  {
    hide Holds, AllOk, BlocksOf, Follow, Final, Acceptable, Readable, Frame.Offset, Filled, Section.Length;
    file, blocks := Dump(z, mode, hash, jhash, size, breakSize, lens, pre, calls);
    RunReadable(z, lens, breakSize, calls, blocks);
  }

  /** The reader gives back what the writer was given, if nothing in its tables is
      mistaken: every selected signal's callbacks are exactly what the run has to say
      of it, and if time went forward they come in its order. */
  method Read(z: Section.Zlib, file: seq<byte>, start: nat, lens: seq<nat>, mask: seq<bool>,
              ghost breakSize: nat, ghost calls: seq<Call>, ghost blocks: seq<Block>)
    returns (events: seq<Event>)
    requires Section.Sound(z) && Recorded(z, breakSize, lens, calls, file, start, blocks) && |mask| == |lens|
    requires Timed(lens, mask, Final(Follow(breakSize, lens, calls))) && CleanRun(ZeroTables(|lens|), mask, blocks)
    ensures GivesBack(events, mask, Follow(breakSize, lens, calls)) && KnownHandles(events, |lens|)
    ensures TimeGoesOn(calls) ==> forall j, k :: 0 <= j < k < |events| ==> events[j].time <= events[k].time
  {
    hide Section.Sound, Section.Length, Holds, AllOk, BlocksOf, Follow, Final, Timed, GivesBack, Readable, CleanRun, Chronological,
      CallbacksInOrder, KnownHandles, Reports;
    events := ReadFile(z, file, start, lens, mask, blocks);
    ReadsBack(breakSize, lens, mask, calls, blocks, events);
    if TimeGoesOn(calls) {
      FileChronological(breakSize, lens, mask, calls, blocks);
      OrderOf(events, blocks);
    }
  }

  lemma FileClean(breakSize: nat, lens: seq<nat>, mask: seq<bool>, calls: seq<Call>, blocks: seq<Block>)
    requires AllOk(lens, blocks) && BlocksOf(blocks, Final(Follow(breakSize, lens, calls))) && |mask| == |lens|
    requires Legible(lens, mask, Final(Follow(breakSize, lens, calls)))
    ensures CleanRun(ZeroTables(|lens|), mask, blocks)
  {
    hide AllOk, BlocksOf, Follow, Final, Undisturbed;
    RunClean(lens, mask, blocks, Final(Follow(breakSize, lens, calls)));
  }

  lemma LegibleClean(z: Section.Zlib, breakSize: nat, lens: seq<nat>, mask: seq<bool>, calls: seq<Call>,
                     file: seq<byte>, start: nat, blocks: seq<Block>)
    requires Recorded(z, breakSize, lens, calls, file, start, blocks) && |mask| == |lens|
    requires Legible(lens, mask, Final(Follow(breakSize, lens, calls)))
    ensures Timed(lens, mask, Final(Follow(breakSize, lens, calls))) && CleanRun(ZeroTables(|lens|), mask, blocks)
  {
    hide Holds, Readable, AllOk, BlocksOf, Follow, Final, Timed, Undisturbed;
    FileClean(breakSize, lens, mask, calls, blocks);
  }

  /** Write a run to a file and read the file, on conditions on the calls alone. */
  method WriteAndRead(z: Section.Zlib, mode: Stored.Mode, hash: nat -> Lz.Slot, jhash: seq<byte> -> nat, size: nat,
                      breakSize: nat, lens: seq<nat>, pre: seq<byte>, calls: seq<Call>, mask: seq<bool>)
    returns (events: seq<Event>)
    requires Section.Sound(z) && size > 0
    requires |mask| == |lens| < 0x3fff_ffff && forall h :: 0 <= h < |lens| ==> lens[h] >= 1
    requires Roomy(breakSize, lens, calls) && 1 + 10 * |lens| + Frame.Offset(lens, |lens|) <= 0x4000_0000
    requires forall k :: 0 <= k < |calls| ==> Acceptable(lens, calls[k])
    requires Legible(lens, mask, Final(Follow(breakSize, lens, calls)))
    ensures GivesBack(events, mask, Follow(breakSize, lens, calls)) && KnownHandles(events, |lens|)
    ensures TimeGoesOn(calls) ==> forall j, k :: 0 <= j < k < |events| ==> events[j].time <= events[k].time
  {
    hide Section.Sound, Recorded, Follow, Final, Acceptable, Legible, Timed, GivesBack, Frame.Offset, Filled, KnownHandles, CleanRun;
    var file;
    ghost var blocks;
    file, blocks := Write(z, mode, hash, jhash, size, breakSize, lens, pre, calls);
    LegibleClean(z, breakSize, lens, mask, calls, file, |pre|, blocks);
    events := Read(z, file, |pre|, lens, mask, breakSize, calls, blocks);
  }

  lemma FileChronological(breakSize: nat, lens: seq<nat>, mask: seq<bool>, calls: seq<Call>, blocks: seq<Block>)
    requires AllOk(lens, blocks) && BlocksOf(blocks, Final(Follow(breakSize, lens, calls)))
    requires Timed(lens, mask, Final(Follow(breakSize, lens, calls))) && TimeGoesOn(calls)
    ensures Chronological(blocks)
  {
    hide AllOk, BlocksOf, Follow, Final, Chronological, Forward, GoesForward;
    ForwardAlong(breakSize, lens, calls);
    FinalForward(Follow(breakSize, lens, calls));
    ForwardIsChronological(lens, blocks, Final(Follow(breakSize, lens, calls)));
  }

  lemma OrderOf(events: seq<Event>, blocks: seq<Block>)
    requires CallbacksInOrder(events, blocks)
    ensures forall j, k :: 0 <= j < k < |events| ==> events[j].time <= events[k].time
  {
  }

  /** The time table of a block is the times announced exactly if no call made in
      its section was a time change that called for a flush with nothing to
      flush. */
  lemma TablesInStep(breakSize: nat, lens: seq<nat>, calls: seq<Call>, blocks: seq<Block>, k: nat)
    requires AllOk(lens, blocks) && BlocksOf(blocks, Final(Follow(breakSize, lens, calls))) && k < |blocks|
    ensures blocks[k].contents.times == blocks[k].announced <==> IdleFree(breakSize, lens, calls, k)
  {
    hide Follow, Final, Describes, IdleFree;
    FinalInStep(breakSize, lens, calls);
    assert BlockOk(lens, blocks[k]) && BlockOf(blocks[k], Final(Follow(breakSize, lens, calls))[k]);
  }

  /** The frame of a block holds what the blocks before it told last of every
      signal, or else its value from before the first time change. */
  lemma FramesAreLatest(breakSize: nat, lens: seq<nat>, calls: seq<Call>, blocks: seq<Block>, k: nat, h: nat)
    requires AllOk(lens, blocks) && BlocksOf(blocks, Final(Follow(breakSize, lens, calls))) && k < |blocks| && h < |lens|
    ensures var m := Run(Start(lens), calls);
      && h < |m.initial| && h < |blocks[k].contents.first|
      && blocks[k].contents.first[h] == LastOf(m.initial[h], Told(Final(Follow(breakSize, lens, calls))[..k], h))
  {
    hide Follow, Final, AllOk, LastOf, Told;
    var d := Follow(breakSize, lens, calls);
    Widths(lens, calls);
    IndexedAlong(breakSize, lens, calls);
    BeginsAlong(breakSize, lens, calls);
    FinalBegins(d, h);
    assert BlockOf(blocks[k], Final(d)[k]);
  }

  // ----- what is reported comes in order -----

  ghost predicate EventsInOrder(m: Meaning) {
    && (forall j, k :: 0 <= j < k < |m.events| ==> m.events[j].time <= m.events[k].time)
    && (forall k :: 0 <= k < |m.events| ==> m.started && m.events[k].time <= m.now)
  }

  lemma OrderStep(m: Meaning, c: Call)
    requires EventsInOrder(m) && (m.started && c.TimeChange? ==> m.now <= c.tim)
    ensures EventsInOrder(Step(m, c))
  {
    match c
    case FlushContext =>
    case TimeChange(tim) => LaterNow(m, Step(m, c));
    case ValueChange(handle, val) =>
      if 0 < handle <= |m.vals| {
        if m.started { OneEvent(m, Step(m, c), Event(m.now, handle, val)); } else { LaterNow(m, Step(m, c)); }
      }
  }

  lemma LaterNow(m: Meaning, r: Meaning)
    requires EventsInOrder(m) && r.events == m.events && (m.started ==> r.started && m.now <= r.now)
    ensures EventsInOrder(r)
  {
  }

  lemma OneEvent(m: Meaning, r: Meaning, e: Event)
    requires EventsInOrder(m) && m.started && r.started && r.now == m.now == e.time && r.events == m.events + [e]
    ensures EventsInOrder(r)
  {
  }

  lemma {:induction false} RunInOrder(lens: seq<nat>, calls: seq<Call>)
    requires TimeGoesOn(calls)
    ensures EventsInOrder(Run(Start(lens), calls))
    decreases |calls|
  {
    hide Step, EventsInOrder;
    if calls == [] {
      NoEvents(lens);
    } else {
      var n := |calls| - 1;
      RunInOrder(lens, calls[..n]);
      if Run(Start(lens), calls[..n]).started && calls[n].TimeChange? {
        var j := NowIsCall(Start(lens), calls[..n]);
        assert calls[j].TimeChange? && calls[j].tim <= calls[n].tim;
      }
      OrderStep(Run(Start(lens), calls[..n]), calls[n]);
    }
  }

  lemma NoEvents(lens: seq<nat>)
    ensures EventsInOrder(Start(lens))
  {
  }

  lemma ReportedInOrder(breakSize: nat, lens: seq<nat>, calls: seq<Call>)
    requires TimeGoesOn(calls)
    ensures var r := Reported(Follow(breakSize, lens, calls)); forall j, k :: 0 <= j < k < |r| ==> r[j].time <= r[k].time
  {
    hide Follow, Final;
    RunInOrder(lens, calls);
  }

  // ----- in plain bytes -----

  /** What is reported of a change made after the first time change: its time and
      handle, and its value, a one-bit one in the reader's spelling. */
  lemma ReportedLetters(d: Course, k: nat)
    requires d.m.started && k < |d.m.events|
    ensures |d.m.events| <= |Reported(d)|
    ensures var e, r := d.m.events[k], Reported(d)[|Reported(d)| - |d.m.events| + k];
      && r.time == e.time && r.handle == e.handle && (|e.val| != 1 ==> r.val == e.val)
      && (|e.val| == 1 ==>
            var b := e.val[0];
            && (b == 48 || b == 49 ==> r.val == [b])
            && (b == 120 || b == 88 ==> r.val == [120]) && (b == 122 || b == 90 ==> r.val == [122])
            && (b == 104 || b == 72 ==> r.val == [104]) && (b == 117 || b == 85 ==> r.val == [117])
            && (b == 119 || b == 87 ==> r.val == [119]) && (b == 108 || b == 76 ==> r.val == [108])
            && (b !in [48, 49, 120, 88, 122, 90, 104, 72, 117, 85, 119, 87, 108, 76] ==> r.val == [45]))
  {
    hide Final, Canonical;
    var e := d.m.events[k];
    assert Spelled(d.m.events)[k] == Spell(e);
    if |e.val| == 1 {
      Letters(e.val[0], e.val);
      assert e.val == [e.val[0]];
    } else {
      Letters(0, e.val);
    }
  }
}
