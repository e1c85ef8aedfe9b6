/** Whole runs of the writer of src/fst/fstapi.c: it follows the course that its
    calls prescribe, and the file it leaves holds the sections of that course. */
module Session {
  import opened Bytes
  import opened Course
  import opened TraceFile
  import opened Writer
  import Chain
  import WriterState
  import Frame
  import Section
  import Stored
  import TimeTable
  import Lz

  /** The block is what became of the section. */
  ghost predicate BlockOf(b: Block, p: Part) {
    && b.section.begTim == p.begTim && b.section.endTim == p.endTim && b.announced == p.announced
    && b.contents.times == p.times && b.contents.first == p.first && b.contents.log == p.log
  }

  ghost predicate BlocksOf(blocks: seq<Block>, parts: seq<Part>) {
    |blocks| == |parts| && forall k :: 0 <= k < |blocks| ==> BlockOf(blocks[k], parts[k])
  }

  lemma NextOf(blocks: seq<Block>, before: seq<Block>, p: Part)
    requires IsNext(blocks, before, p.begTim, p.endTim, p.times, p.first, p.log, p.announced)
    ensures |blocks| == |before| + 1 && BlockOf(blocks[|before|], p)
  {
  }

  lemma BlocksNext(blocks: seq<Block>, before: seq<Block>, parts: seq<Part>, p: Part)
    requires BlocksOf(before, parts)
    requires IsNext(blocks, before, p.begTim, p.endTim, p.times, p.first, p.log, p.announced)
    ensures BlocksOf(blocks, parts + [p])
  {
    hide BlockOf;
    var n := |before|;
    NextOf(blocks, before, p);
    forall k | 0 <= k < n ensures BlockOf(blocks[k], (parts + [p])[k]) {
      assert blocks[k] == blocks[..n][k] && BlockOf(before[k], parts[k]);
    }
  }

  /** The writer is where the calls have brought it. */
  ghost predicate Follows(w: Writer, d: Course)
    reads w, w.heads, w.last, w.curval
  {
    && w.Valid() && Indexed(d) && BlocksOf(w.blocks, d.parts)
    && w.isInitialTime == !d.m.started && w.flushPending == d.pending && w.tchnIdx == d.index
    && w.times == d.open.times && w.announced == d.open.announced
    && w.first == d.open.first && w.log == d.open.log && w.latest == d.m.vals && |d.m.vals| == |w.lens|
    && if d.m.started then w.curtime == d.m.now && w.openBeg == d.open.begTim && |w.vchg| == Filled(d)
       else w.vchg == [] && w.mapped == w.vcEmitted == d.m.given
  }

  lemma SizeNow(w: Writer)
    requires w.Valid()
    ensures |w.log| == |w.lens| == |w.first| == |w.latest|
    ensures w.isInitialTime ==> w.vchg == [] && w.first == w.latest
    ensures !w.isInitialTime ==> |w.vchg| == 1 + WriterState.Taken(w.log, |w.log|)
  {
    hide Writer.FrameUpTo, Frame.FrameOf, WriterState.Lists, WriterState.Taken, FileIs, Clocked, Frame.Offset, AllOk;
    if !w.isInitialTime { w.BufferSize(); }
  }

  method DoValue(w: Writer, handle: nat, val: seq<byte>, ghost d: Course)
    requires Follows(w, d) && handle >= 1 && (handle <= |w.lens| ==> |val| == w.lens[handle - 1])
    requires |w.vchg| <= 0x4000_0000 && (handle <= |w.lens| ==> |val| <= 0x4000_0000) && w.tchnIdx < TWO_32
    modifies w, w.heads, w.last, w.curval
    ensures Follows(w, Advance(w.breakSize, d, ValueChange(handle, val)))
  {
    hide Writer.Valid, BlocksOf, AllAt, WriterState.Taken;
    SizeNow(w);
    IndexedStep(w.breakSize, d, ValueChange(handle, val));
    w.EmitValueChange(handle, val);
    SizeNow(w);
  }

  /** Of the clock only the current time matters to the table. */
  lemma TickedNow(c: TimeTable.Clock, times: seq<nat>, tim: nat, due: bool, empty: bool)
    requires times != []
    ensures TimeTable.Ticked(c, times, tim, due, empty)
         == TimeTable.Ticked(TimeTable.Clock([], 0, 0, c.curtime), times, tim, due, empty)
  {
  }

  lemma TickIndex(c: TimeTable.Clock, tim: nat, due: bool, empty: bool)
    ensures TimeTable.Tick(c, tim, due, empty).idx == (if due && !empty then 1 else c.idx + 1) && TimeTable.Start(tim).idx == 0
  {
  }

  lemma NoneLogged(log: seq<seq<Chain.Change>>, n: nat)
    requires |log| == n && forall h :: 0 <= h < n ==> log[h] == []
    ensures log == NoChanges(n)
  {
  }

  method DoTime(w: Writer, tim: nat, ghost d: Course)
    requires Follows(w, d) && tim < TWO_64 && |w.vchg| <= 0x4000_0000 && w.tchnIdx + 1 < TWO_32
    modifies w, w.heads, w.last, w.curval
    ensures Follows(w, Advance(w.breakSize, d, TimeChange(tim)))
  {
    hide Writer.Valid, BlocksOf, AllAt, WriterState.Taken, IsNext, TimeTable.Ticked, TimeTable.Tick, TimeTable.Emit;
    SizeNow(w);
    IndexedStep(w.breakSize, d, TimeChange(tim));
    ghost var c, times, blocks, due, empty, initial := w.Now(), w.times, w.blocks, w.FlushDue(), |w.vchg| <= 1, w.isInitialTime;
    w.LogFacts();
    TickIndex(c, tim, due, empty);
    if !initial { TickedNow(c, times, tim, due, empty); }
    w.EmitTimeChange(tim);
    SizeNow(w);
    if !initial && due && !empty {
      BlocksNext(w.blocks, blocks, d.parts, d.open);
      NoneLogged(w.log, |w.lens|);
    }
  }

  method Do(w: Writer, c: Call, ghost d: Course)
    requires Follows(w, d) && Acceptable(w.lens, c) && |w.vchg| <= 0x4000_0000 && w.tchnIdx + 1 < TWO_32
    requires Frame.Offset(w.lens, |w.lens|) <= 0x4000_0000
    modifies w, w.heads, w.last, w.curval
    ensures Follows(w, Advance(w.breakSize, d, c))
  {
    hide Writer.Valid, BlocksOf, AllAt, Advance, Frame.Offset;
    match c
    case TimeChange(tim) => DoTime(w, tim, d);
    case ValueChange(handle, val) =>
      if handle <= |w.lens| { WidthBound(w.lens, handle - 1); }
      DoValue(w, handle, val, d);
    case FlushContext => DoFlush(w, d);
  }

  method DoFlush(w: Writer, ghost d: Course)
    requires Follows(w, d)
    modifies w`flushPending
    ensures Follows(w, Advance(w.breakSize, d, FlushContext))
  {
    hide Writer.Valid, BlocksOf, AllAt, WriterState.Taken;
    w.FlushContext();
  }

  lemma WidthBound(lens: seq<nat>, h: nat)
    requires h < |lens|
    ensures lens[h] <= Frame.Offset(lens, |lens|)
  {
    Frame.OffsetGrows(lens, h + 1, |lens|);
  }

  lemma SizeOfBuffer(w: Writer, d: Course)
    requires Follows(w, d)
    ensures |w.vchg| <= Filled(d) && w.tchnIdx == d.index
  {
    hide Writer.Valid, BlocksOf, AllAt, WriterState.Taken;
  }

  /** A run of calls leaves the writer where the calls lead. */
  method Record(w: Writer, calls: seq<Call>)
    requires Follows(w, Outset(w.lens)) && Frame.Offset(w.lens, |w.lens|) <= 0x4000_0000
    requires Roomy(w.breakSize, w.lens, calls) && forall k :: 0 <= k < |calls| ==> Acceptable(w.lens, calls[k])
    modifies w, w.heads, w.last, w.curval
    ensures Follows(w, Follow(w.breakSize, w.lens, calls))
  {
    hide Follows, Follow, Acceptable, Advance, Filled, Frame.Offset;
    var i := 0;
    FollowNone(w.breakSize, w.lens, calls);
    while i < |calls|
      invariant i <= |calls| && Follows(w, Follow(w.breakSize, w.lens, calls[..i]))
    {
      ghost var d := Follow(w.breakSize, w.lens, calls[..i]);
      SizeOfBuffer(w, d);
      IndexSmall(w.breakSize, w.lens, calls[..i]);
      FollowSnoc(w.breakSize, w.lens, calls, i);
      Do(w, calls[i], d);
      i := i + 1;
    }
    assert calls[..i] == calls;
  }

  lemma FollowNone(breakSize: nat, lens: seq<nat>, calls: seq<Call>)
    ensures Follow(breakSize, lens, calls[..0]) == Outset(lens)
  {
  }

  // ----- from calls to a file -----

  lemma HoldsWritten(z: Section.Zlib, pre: seq<byte>, blocks: seq<Block>, more: seq<byte>)
    requires more == [] || more[0] == Section.SKIP
    ensures Holds(pre + Written(z, blocks) + more, |pre|, z, blocks)
  {
    hide Section.Wire;
    SameBytes(z, blocks);
    var file := pre + Written(z, blocks) + more;
    AtSlice(file, |pre|, WrittenFrom(z, blocks));
    assert file[|pre|..|pre| + |Written(z, blocks)|] == Written(z, blocks);
  }

  /** Whether or not anything follows the blocks. */
  lemma HoldsBlocks(z: Section.Zlib, pre: seq<byte>, blocks: seq<Block>, file: seq<byte>)
    requires file == pre + Written(z, blocks)
    ensures Holds(file, |pre|, z, blocks)
  {
    HoldsWritten(z, pre, blocks, []);
    assert file + [] == file;
  }

  /** Closing the file writes the last section, if there is anything in it. */
  method CloseFile(w: Writer, ghost d: Course)
    requires Follows(w, d) && |w.vchg| <= 0x4000_0000 && w.tchnIdx + 1 < TWO_32
    requires 1 + 10 * |w.lens| + Frame.Offset(w.lens, |w.lens|) <= 0x4000_0000
    modifies w, w.heads, w.last, w.curval
    ensures w.Finished(w.blocks) && BlocksOf(w.blocks, Final(d)) && Holds(w.file, |w.pre|, w.z, w.blocks) && w.pre <= w.file
  {
    hide Writer.Valid, Writer.Finished, IsNext, Holds, Written, AllAt, BlocksOf, Frame.Offset, WriterState.Taken;
    SizeNow(w);
    if w.isInitialTime {
      CloseInitial(w, d);
    } else if |w.vchg| <= 1 {
      ghost var header := w.FileNow();
      HoldsWritten(w.z, w.pre, w.blocks, header);
      assert d.parts + [] == d.parts;
      w.Close();
      if w.blocks != [] { HoldsBlocks(w.z, w.pre, w.blocks, w.file); }
    } else {
      ghost var blocks := w.blocks;
      w.Close();
      BlocksNext(w.blocks, blocks, d.parts, d.open);
      HoldsBlocks(w.z, w.pre, w.blocks, w.file);
    }
  }

  method CloseInitial(w: Writer, ghost d: Course)
    requires Follows(w, d) && w.isInitialTime && |w.vchg| <= 0x4000_0000 && w.tchnIdx + 1 < TWO_32
    requires 1 + 10 * |w.lens| + Frame.Offset(w.lens, |w.lens|) <= 0x4000_0000
    modifies w, w.heads, w.last, w.curval
    ensures w.Finished(w.blocks) && BlocksOf(w.blocks, Final(d)) && Holds(w.file, |w.pre|, w.z, w.blocks) && w.pre <= w.file
  {
    hide Writer.Valid, Writer.Finished, IsNext, Holds, Written, AllAt, BlocksOf, Frame.Offset, WriterState.Taken;
    NoBlocks();
    ghost var vals := w.latest;
    w.Close();
    if w.lens == [] {
      ghost var header := w.file[|w.pre|..];
      NoneWritten(w.z, w.pre);
      HoldsWritten(w.z, w.pre, [], header);
      assert w.file == w.pre + header;
    } else {
      ghost var p := Part(0, 0, [0], [0], 0, vals, AtZero(vals));
      BlocksNext(w.blocks, [], [], p);
      assert [] + [p] == [p];
      HoldsBlocks(w.z, w.pre, w.blocks, w.file);
    }
  }

  lemma NoBlocks()
    ensures BlocksOf([], [])
  {
  }

  lemma FreshFollows(w: Writer)
    requires w.Valid() && w.isInitialTime && w.blocks == [] && w.latest == AllUnknown(w.lens)
    requires !w.mapped && !w.vcEmitted && !w.flushPending && w.times == w.announced == [] && w.vchg == [] && w.tchnIdx == 0
    ensures Follows(w, Outset(w.lens))
  {
    hide Writer.Valid, BlocksOf;
    NoBlocks();
    SizeNow(w);
    w.LogFacts();
    NoneLogged(w.log, |w.lens|);
    IndexedOutset(w.lens);
  }

  /** Write a whole run to a file, after what is there: the blocks in it are the
      sections the calls prescribe. */
  method Dump(z: Section.Zlib, mode: Stored.Mode, hash: nat -> Lz.Slot, jhash: seq<byte> -> nat, size: nat,
              breakSize: nat, lens: seq<nat>, pre: seq<byte>, calls: seq<Call>)
    returns (file: seq<byte>, ghost blocks: seq<Block>)
    requires size > 0 && |lens| < 0x3fff_ffff && forall h :: 0 <= h < |lens| ==> lens[h] >= 1
    requires Roomy(breakSize, lens, calls) && 1 + 10 * |lens| + Frame.Offset(lens, |lens|) <= 0x4000_0000
    requires forall k :: 0 <= k < |calls| ==> Acceptable(lens, calls[k])
    ensures pre <= file && Holds(file, |pre|, z, blocks) && AllOk(lens, blocks)
    ensures forall k :: 0 <= k < |blocks| ==> blocks[k].contents.mode == mode
    ensures BlocksOf(blocks, Final(Follow(breakSize, lens, calls)))
  {
    hide Writer.Valid, AllOk, Holds, Follow, Follows, BlocksOf, Filled, Acceptable, Frame.Offset, Final;
    var w := new Writer(z, mode, hash, jhash, size, breakSize, lens, pre);
    assert w.latest == AllUnknown(lens);
    FreshFollows(w);
    Record(w, calls);
    SizeOfBuffer(w, Follow(breakSize, lens, calls));
    IndexSmall(breakSize, lens, calls);
    assert calls[..|calls|] == calls;
    CloseFile(w, Follow(breakSize, lens, calls));
    file := w.file;
    blocks := w.blocks;
  }
}
