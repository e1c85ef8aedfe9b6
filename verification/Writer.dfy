/** The writer of src/fst/fstapi.c as a whole: value changes and time changes
    come in, and blocks go out. */
module Writer {
  import opened Bytes
  import opened Chain
  import opened Frame
  import opened WriterState
  import opened TimeTable
  import Reader
  import ChainWriter
  import ChainIndex
  import ChainStore
  import Section
  import Stored
  import Varint
  import HashTable
  import Lz

  /** A finished block, what is in it, and the times announced while it was
      written, the first one being that of the block's beginning. */
  datatype Block = Block(section: Section.Section, contents: Reader.Contents, announced: seq<nat>)

  function Written(z: Section.Zlib, blocks: seq<Block>): seq<byte> {
    if blocks == [] then []
    else Written(z, blocks[..|blocks| - 1]) + Section.Wire(z, blocks[|blocks| - 1].section)
  }

  /** A block is written as its contents demand, and its changes are at times
      that were announced. */
  ghost predicate BlockOk(lens: seq<nat>, b: Block) {
    && Reader.Describes(b.section, lens, b.contents)
    && Announced(b.contents.times, b.announced)
    && Reader.Logged(lens, b.contents.log, |b.announced|)
  }

  /** The time table is what was announced, unless it is longer. */
  ghost predicate Announced(times: seq<nat>, announced: seq<nat>) {
    && 0 < |announced| <= |times| && Words(announced)
    && (|times| == |announced| ==> times == announced)
  }

  ghost predicate AllOk(lens: seq<nat>, blocks: seq<Block>) {
    forall k :: 0 <= k < |blocks| ==> BlockOk(lens, blocks[k])
  }

  ghost predicate FileIs(file: seq<byte>, sectionStart: nat, truncPos: nat, pre: seq<byte>, z: Section.Zlib, blocks: seq<Block>,
                         openBeg: nat, openEnd: nat, first: seq<seq<byte>>, maxhandle: nat) {
    && truncPos == (if blocks == [] then 0 else |pre + Written(z, blocks)|)
    && file == pre + Written(z, blocks) + Section.Opening(z, openBeg, openEnd, FrameOf(first), maxhandle)
    && sectionStart == |pre + Written(z, blocks)| + 1
  }

  ghost predicate Initially(clock: Clock, vchg: seq<byte>, log: seq<seq<Change>>, first: seq<seq<byte>>, latest: seq<seq<byte>>) {
    clock == Clock([], 0, 0, 0) && vchg == [] && first == latest && forall h :: 0 <= h < |log| ==> log[h] == []
  }

  ghost predicate Running(clock: Clock, vchg: seq<byte>, log: seq<seq<Change>>, times: seq<nat>, announced: seq<nat>) {
    |vchg| == 1 + Taken(log, |log|) && Clocked(clock, times, announced)
  }

  /** As many times were announced as there are time indices, the last one being
      the current time; the time section tells of `times`. */
  ghost predicate Clocked(clock: Clock, times: seq<nat>, announced: seq<nat>) {
    && Tells(clock, times) && Announced(times, announced)
    && |announced| == clock.idx + 1 && announced[clock.idx] == clock.curtime
  }

  /** The announced times after one more. */
  function Telling(c: Clock, announced: seq<nat>, tim: nat, flushed: bool): seq<nat> {
    (if flushed then [c.curtime] else announced) + [tim]
  }

  lemma TickClocked(c: Clock, times: seq<nat>, announced: seq<nat>, tim: nat, due: bool, empty: bool)
    requires Clocked(c, times, announced) && tim < TWO_64
    ensures times != []
    ensures Clocked(Tick(c, tim, due, empty), Ticked(c, times, tim, due, empty), Telling(c, announced, tim, due && !empty))
  {
    hide Wrap64, Deltas;
    assert announced[c.idx] < TWO_64;
    TickTells(c, times, tim, due, empty);
    WrapBack(c.curtime, tim);
    WordsSnoc(if due && !empty then [c.curtime] else announced, tim);
  }

  lemma WordsSnoc(times: seq<nat>, t: nat)
    requires Words(times) && t < TWO_64
    ensures Words(times + [t])
  {
  }

  class Writer {
    const z: Section.Zlib
    const mode: Stored.Mode
    const hash: nat -> Lz.Slot
    const jhash: seq<byte> -> nat
    const size: nat
    const breakSize: nat

    /** vm4ip[1] and vm4ip[0]: width of each signal, and where its value is. */
    const lens: seq<nat>
    const offs: seq<nat>

    /** vm4ip[2] and vm4ip[3]. */
    const heads: array<nat>
    const last: array<nat>

    const curval: array<byte>
    var vchg: seq<byte>

    /** The time section so far, tchn_cnt, tchn_idx, curtime. */
    var tchn: seq<byte>
    var tchnCnt: nat
    var tchnIdx: nat
    var curtime: nat

    var firsttime: nat
    var isInitialTime: bool
    var mapped: bool
    var vcEmitted: bool
    var flushPending: bool

    /** section_start, and section_header_truncpos: where the file ends without
        the header of a section that stays empty. */
    var file: seq<byte>
    var sectionStart: nat
    var truncPos: nat

    /** Time table and announced times of the current section; for each signal
        its value when the section began, its changes since, its value now. */
    ghost var times: seq<nat>
    ghost var announced: seq<nat>
    ghost var first: seq<seq<byte>>
    ghost var log: seq<seq<Change>>
    ghost var latest: seq<seq<byte>>

    /** The finished blocks, and the header of the one being written. */
    ghost const pre: seq<byte>
    ghost var blocks: seq<Block>
    ghost var openBeg: nat
    ghost var openEnd: nat

    ghost function Now(): Clock
      reads this`tchn, this`tchnCnt, this`tchnIdx, this`curtime
    {
      Clock(tchn, tchnCnt, tchnIdx, curtime)
    }

    ghost predicate Shape() {
      && size > 0 && |lens| < 0x3fff_ffff && Offsets(lens, offs) && heads.Length == last.Length == |lens| && heads != last
    }

    ghost predicate Values()
      reads this`first, this`log, this`latest, curval
    {
      && Widths(lens, first) && Widths(lens, latest) && Current(first, log, latest)
      && curval[..] == FrameOf(first)
    }

    /** All blocks are written as they should be, and with the compression asked for. */
    ghost predicate Finished(blocks: seq<Block>) {
      AllOk(lens, blocks) && forall k :: 0 <= k < |blocks| ==> blocks[k].contents.mode == mode
    }

    /** Everything but the file. */
    ghost predicate State()
      reads this`first, this`log, this`latest, this`vchg, this`mapped, this`isInitialTime, this`times, this`announced
      reads this`tchn, this`tchnCnt, this`tchnIdx, this`curtime, heads, last, curval
    {
      && Shape() && Values()
      && Lists(vchg, heads[..], last[..], lens, log, tchnIdx)
      && if isInitialTime then Initially(Now(), vchg, log, first, latest) else mapped && Running(Now(), vchg, log, times, announced)
    }

    /** The file is what came before, the finished blocks, and the header of the
        block being written, marked as one to skip. */
    ghost predicate Valid()
      reads this, heads, last, curval
    {
      && State() && Finished(blocks)
      && (isInitialTime ==> blocks == [] && file == pre && truncPos == 0)
      && (!isInitialTime ==> FileIs(file, sectionStart, truncPos, pre, z, blocks, openBeg, openEnd, first, |lens|))
    }

    constructor (z: Section.Zlib, mode: Stored.Mode, hash: nat -> Lz.Slot, jhash: seq<byte> -> nat, size: nat,
                 breakSize: nat, lens: seq<nat>, pre: seq<byte>)
      requires size > 0 && |lens| < 0x3fff_ffff && forall h :: 0 <= h < |lens| ==> lens[h] >= 1
      ensures Valid() && isInitialTime && !mapped && !vcEmitted && !flushPending && blocks == []
      ensures Now() == Clock([], 0, 0, 0) && vchg == [] && times == announced == []
      ensures this.z == z && this.mode == mode && this.breakSize == breakSize && this.lens == lens && this.pre == pre
      ensures |latest| == |lens| && forall h :: 0 <= h < |lens| ==> latest[h] == Unknown(lens[h]) && log[h] == []
      ensures fresh(heads) && fresh(last) && fresh(curval)
    {
      hide Offset, FrameOf;
      this.z, this.mode, this.hash, this.jhash, this.size := z, mode, hash, jhash, size;
      this.breakSize, this.lens, this.pre, this.file := breakSize, lens, pre, pre;
      offs := seq(|lens|, h requires 0 <= h < |lens| => Offset(lens, h));
      heads := new nat[|lens|](_ => 0);
      last := new nat[|lens|](_ => 0);
      curval := new byte[Offset(lens, |lens|)](_ => UNKNOWN);
      vchg, tchn, tchnCnt, tchnIdx, curtime := [], [], 0, 0, 0;
      firsttime, isInitialTime, mapped, vcEmitted, flushPending := 0, true, false, false, false;
      sectionStart, truncPos, openBeg, openEnd := 0, 0, 0, 0;
      times, announced, blocks := [], [], [];
      first, log, latest := AllUnknown(lens), seq(|lens|, _ => []), AllUnknown(lens);
      new;
      UnknownFrame(lens);
      assert curval[..] == FrameOf(first);
      NoLists(vchg, heads[..], last[..], lens, log, 0);
    }

    /** fstWriterFlushContext: ask for a flush at the next time change. */
    method FlushContext()
      requires Valid()
      modifies this`flushPending
      ensures Valid() && flushPending == (old(flushPending) || tchnIdx > 1)
    {
      hide State, Finished, FileIs;
      if tchnIdx > 1 {
        flushPending := true;
      }
    }

    /** fstWriterEmitValueChange. Before the first time change a value goes into
        the frame only. */
    method EmitValueChange(handle: nat, buf: seq<byte>)
      requires Valid() && handle >= 1 && (handle <= |lens| ==> |buf| == lens[handle - 1])
      requires handle <= |lens| ==> |vchg| + |buf| + 10 < TWO_32 && tchnIdx < TWO_32
      modifies this`vchg, this`mapped, this`vcEmitted, this`first, this`log, this`latest, heads, last, curval
      ensures Valid()
      ensures handle > |lens| ==> log == old(log) && latest == old(latest)
      ensures handle <= |lens| ==> latest == old(latest)[handle - 1 := buf]
      ensures handle <= |lens| ==>
        log == if isInitialTime then old(log) else old(log)[handle - 1 := old(log)[handle - 1] + [Change(tchnIdx, buf)]]
      ensures handle <= |lens| && !isInitialTime ==> old(|vchg|) < |vchg| <= old(|vchg|) + |buf| + 10
      ensures handle > |lens| || isInitialTime ==> vchg == old(vchg)
      ensures vcEmitted == (old(vcEmitted) || (handle <= |lens| && !old(mapped)))
      ensures mapped == (old(mapped) || handle <= |lens|)
      ensures !isInitialTime ==> first == old(first)
    {
      hide Offsets, Finished, FileIs, Lists, Running, FrameOf, Initially;
      if handle > |lens| { return; }
      if !mapped {
        mapped, vcEmitted := true, true;
      }
      if !isInitialTime {
        AppendRecord(handle - 1, buf);
      } else {
        SetInitial(handle - 1, buf);
      }
    }

    method SetInitial(h: nat, buf: seq<byte>)
      requires State() && isInitialTime && h < |lens| && |buf| == lens[h]
      modifies this`first, this`latest, curval
      ensures State() && latest == old(latest)[h := buf] && first == old(first)[h := buf]
    {
      hide Offsets, Lists, FrameOf;
      SetValue(curval, offs, h, buf, lens, first);
      first, latest := first[h := buf], latest[h := buf];
    }

    /** fstWriterUint32WithVarint32 and the update of the signal's list. */
    method AppendRecord(h: nat, buf: seq<byte>)
      requires State() && !isInitialTime && h < |lens| && |buf| == lens[h]
      requires |vchg| + |buf| + 10 < TWO_32 && tchnIdx < TWO_32
      modifies this`vchg, this`log, this`latest, heads, last
      ensures State() && latest == old(latest)[h := buf]
      ensures log == old(log)[h := old(log)[h] + [Change(tchnIdx, buf)]]
      ensures old(|vchg|) < |vchg| <= old(|vchg|) + |buf| + 10
    {
      hide Offsets, Lists, FrameOf, ChainWriter.RawRecord, ChainWriter.RawSize, Tells, Announced;
      Append(vchg, heads[..], last[..], lens, log, tchnIdx, h, buf);
      RecordSize(tchnIdx - last[h], buf);
      ghost var hs: seq<nat>, ls: seq<nat> := heads[..], last[..];
      var fpos := |vchg|;
      vchg := vchg + ChainWriter.RawRecord(heads[h], tchnIdx - last[h], buf);
      last[h] := tchnIdx;
      heads[h] := fpos;
      assert heads[..] == hs[h := fpos] && last[..] == ls[h := tchnIdx];
      log, latest := log[h := log[h] + [Change(tchnIdx, buf)]], latest[h := buf];
    }

    // ----- time -----

    /** fstWriterEmitSectionHeader. */
    method EmitSectionHeader()
      requires Shape() && Values() && file == pre + Written(z, blocks)
      requires truncPos == if blocks == [] then 0 else |file|
      modifies this`file, this`sectionStart, this`openBeg, this`openEnd
      ensures openBeg == (if isInitialTime then firsttime else curtime)
      ensures FileIs(file, sectionStart, truncPos, pre, z, blocks, openBeg, openEnd, first, |lens|)
    {
      hide FrameOf, Offsets, Section.Opening, Widths, Current, Written;
      sectionStart := |file| + 1;
      file := file + Section.Opening(z, if isInitialTime then firsttime else curtime, curtime, curval[..], |lens|);
      openBeg, openEnd := if isInitialTime then firsttime else curtime, curtime;
    }

    /** One more entry in the time section. */
    method EmitTime(v: nat)
      modifies this`tchn, this`tchnCnt
      ensures Now() == Emit(old(Now()), v)
    {
      var bytes := Varint.WriteVarint(v);
      tchn := tchn + bytes;
      tchnCnt := tchnCnt + 1;
    }

    /** Whether a time change will call for a flush. */
    predicate FlushDue()
      reads this
    {
      |vchg| >= breakSize || flushPending
    }

    /** Everything but the clock, between two time changes. */
    ghost predicate Quiet()
      reads this`first, this`log, this`latest, this`vchg, this`tchnIdx, this`mapped, this`isInitialTime
      reads this`blocks, this`file, this`sectionStart, this`truncPos, this`openBeg, this`openEnd, heads, last, curval
    {
      && Shape() && Values() && mapped && !isInitialTime && Finished(blocks)
      && Lists(vchg, heads[..], last[..], lens, log, tchnIdx) && |vchg| == 1 + Taken(log, |log|)
      && FileIs(file, sectionStart, truncPos, pre, z, blocks, openBeg, openEnd, first, |lens|)
    }

    lemma ValidParts()
      requires Valid()
      ensures isInitialTime ==> Shape() && Values() && file == pre && blocks == [] && truncPos == 0 && Finished(blocks)
      ensures isInitialTime ==> Now() == Clock([], 0, 0, 0) && first == latest
      ensures isInitialTime ==> |log| == |lens| && forall h :: 0 <= h < |lens| ==> log[h] == []
      ensures !isInitialTime ==> Quiet() && Clocked(Now(), times, announced)
    {
      hide FrameOf, Offsets, Lists, Finished, FileIs, Clocked;
    }

    lemma QuietRuns()
      requires Quiet() && Clocked(Now(), times, announced)
      ensures Valid()
    {
      hide FrameOf, Offsets, Lists, Finished, FileIs, Clocked;
    }

    /** The first time change opens the first section. */
    method BeginTrace(tim: nat)
      requires Shape() && Values() && isInitialTime && file == pre && blocks == [] && truncPos == 0 && Finished(blocks)
      requires |log| == |lens| && forall h :: 0 <= h < |lens| ==> log[h] == []
      modifies this`mapped, this`firsttime, this`curtime, this`vchg, this`isInitialTime
      modifies this`file, this`sectionStart, this`openBeg, this`openEnd, heads, last
      ensures Quiet() && !isInitialTime && curtime == 0 && |vchg| == 1
      ensures firsttime == (if vcEmitted then 0 else tim) && openBeg == firsttime
    {
      hide Shape, Values, Quiet, FileIs, Finished;
      mapped, firsttime, curtime, vchg := true, if vcEmitted then 0 else tim, 0, [33];
      OpenFirst();
      NoListsYet();
    }

    /** Every signal's list is emptied, and the first time is over. */
    method NoListsYet()
      requires Shape() && Values() && mapped && Finished(blocks) && |vchg| == 1
      requires |log| == |lens| && forall h :: 0 <= h < |lens| ==> log[h] == []
      requires FileIs(file, sectionStart, truncPos, pre, z, blocks, openBeg, openEnd, first, |lens|)
      modifies this`isInitialTime, heads, last
      ensures Quiet() && !isInitialTime
    {
      hide Shape, Values, Quiet, Lists, FileIs, Finished, Taken;
      ZeroLists();
      isInitialTime := false;
      AllQuiet();
    }

    lemma AllQuiet()
      requires Shape() && Values() && mapped && !isInitialTime && Finished(blocks)
      requires Lists(vchg, heads[..], last[..], lens, log, tchnIdx) && |vchg| == 1 + Taken(log, |log|)
      requires FileIs(file, sectionStart, truncPos, pre, z, blocks, openBeg, openEnd, first, |lens|)
      ensures Quiet()
    {
      hide Shape, Values, Lists, FileIs, Finished, Taken;
    }

    method OpenFirst()
      requires Shape() && Values() && isInitialTime && file == pre && blocks == [] && truncPos == 0
      modifies this`file, this`sectionStart, this`openBeg, this`openEnd
      ensures openBeg == firsttime && FileIs(file, sectionStart, truncPos, pre, z, blocks, openBeg, openEnd, first, |lens|)
    {
      hide Offsets, FileIs, FrameOf, Widths, Current, Written;
      NoneWritten(z, pre);
      EmitSectionHeader();
    }

    method ZeroLists()
      requires Shape() && |log| == |lens| && forall h :: 0 <= h < |lens| ==> log[h] == []
      modifies heads, last
      ensures Lists(vchg, heads[..], last[..], lens, log, tchnIdx) && Taken(log, |log|) == 0
    {
      hide Offsets, Lists, Taken;
      for i := 0 to |lens|
        invariant forall h :: 0 <= h < i ==> heads[h] == 0 && last[h] == 0
      {
        heads[i], last[i] := 0, 0;
      }
      NoLists(vchg, heads[..], last[..], lens, log, tchnIdx);
    }

    /** fstWriterFlushContextPrivate: nothing happens if there is nothing to
        flush. */
    method FlushContextPrivate()
      requires Quiet() && Clocked(Now(), times, announced) && |vchg| <= 0x4000_0000 && tchnIdx < TWO_32
      modifies this`file, this`sectionStart, this`truncPos, this`openBeg, this`openEnd
      modifies this`vchg, this`tchn, this`tchnCnt, this`tchnIdx
      modifies this`first, this`log, this`blocks, heads, last, curval
      ensures Quiet()
      ensures old(|vchg| <= 1) ==>
        && Now() == old(Now()) && vchg == old(vchg) && blocks == old(blocks) && first == old(first) && log == old(log)
        && openBeg == old(openBeg)
      ensures old(|vchg| > 1) ==>
        && Now() == Clock([], 0, 0, curtime) && openBeg == curtime && |vchg| == 1
        && IsNext(blocks, old(blocks), old(openBeg), curtime, old(times), old(first), old(log), old(announced))
        && first == latest && forall h :: 0 <= h < |lens| ==> log[h] == []
    {
      hide FrameOf, Offsets, Lists, Finished, FileIs, Clocked, IsNext, Widths, Current, Written;
      if |vchg| <= 1 { return; }
      FlushBlock();
      EmitSectionHeader();
      NothingTaken(log, |log|);
    }

    method NextIndex()
      requires Quiet()
      modifies this`tchnIdx
      ensures Quiet() && Now() == old(Now()).(idx := old(tchnIdx) + 1)
    {
      hide FrameOf, Offsets, Finished, FileIs, Lists;
      LaterIndex(vchg, heads[..], last[..], lens, log, tchnIdx);
      tchnIdx := tchnIdx + 1;
    }

    /** fstWriterEmitTimeChange. */
    method EmitTimeChange(tim: nat)
      requires Valid() && tim < TWO_64 && |vchg| <= 0x4000_0000 && tchnIdx + 1 < TWO_32
      modifies this, heads, last, curval
      ensures Valid() && !isInitialTime && latest == old(latest) && curtime == tim
      ensures (|vchg| <= old(|vchg|) && (old(|vchg|) >= breakSize ==> |vchg| <= 1)) || |vchg| == 1
      ensures flushPending == old(isInitialTime && flushPending)
      ensures old(isInitialTime) ==>
        && times == announced == [tim] && firsttime == (if old(vcEmitted) then 0 else tim)
        && openBeg == firsttime && log == old(log) && first == old(first) == latest && blocks == []
        && Now() == Start(tim)
      ensures !old(isInitialTime) ==>
        && Now() == Tick(old(Now()), tim, old(FlushDue()), old(|vchg| <= 1))
        && times == Ticked(old(Now()), old(times), tim, old(FlushDue()), old(|vchg| <= 1))
      ensures !old(isInitialTime) && old(FlushDue() && |vchg| > 1) ==>
        && announced == [old(curtime), tim] && openBeg == old(curtime)
        && IsNext(blocks, old(blocks), old(openBeg), old(curtime), old(times), old(first), old(log), old(announced))
        && first == latest && forall h :: 0 <= h < |lens| ==> log[h] == []
      ensures !old(isInitialTime) && !old(FlushDue() && |vchg| > 1) ==>
        && announced == old(announced) + [tim] && openBeg == old(openBeg)
        && blocks == old(blocks) && first == old(first) && log == old(log)
    {
      hide Valid, Shape, Values, Quiet, Clocked, IsNext, Emit, Ticked, Finished, Tick, FlushDue;
      ValidParts();
      if isInitialTime {
        BeginTrace(tim);
        StartClocked(tim);
        Announce(tim, [tim], [tim]);
      } else {
        LaterTimeChange(tim);
      }
    }

    method LaterTimeChange(tim: nat)
      requires Quiet() && Clocked(Now(), times, announced) && !isInitialTime
      requires tim < TWO_64 && |vchg| <= 0x4000_0000 && tchnIdx + 1 < TWO_32
      modifies this`file, this`sectionStart, this`truncPos, this`openBeg, this`openEnd
      modifies this`vchg, this`tchn, this`tchnCnt, this`tchnIdx, this`curtime, this`times, this`announced
      modifies this`first, this`log, this`blocks, this`flushPending, heads, last, curval
      ensures Valid() && curtime == tim && times != []
      ensures (|vchg| <= old(|vchg|) && (old(|vchg|) >= breakSize ==> |vchg| <= 1)) || |vchg| == 1
      ensures !flushPending
      ensures old(times) != [] && Now() == Tick(old(Now()), tim, old(FlushDue()), old(|vchg| <= 1))
      ensures times == Ticked(old(Now()), old(times), tim, old(FlushDue()), old(|vchg| <= 1))
      ensures announced == Telling(old(Now()), old(announced), tim, old(FlushDue() && |vchg| > 1))
      ensures !old(FlushDue() && |vchg| > 1) ==>
        blocks == old(blocks) && first == old(first) && log == old(log) && openBeg == old(openBeg)
      ensures old(FlushDue() && |vchg| > 1) ==>
        && openBeg == old(curtime) && first == latest && (forall h :: 0 <= h < |lens| ==> log[h] == [])
        && IsNext(blocks, old(blocks), old(openBeg), old(curtime), old(times), old(first), old(log), old(announced))
    {
      hide Valid, Quiet, Clocked, IsNext, Emit, Ticked, Tick, Between, Telling;
      ghost var c, due, empty := Now(), FlushDue(), |vchg| <= 1;
      TickClocked(c, times, announced, tim, due, empty);
      TickParts(c, tim, due, empty);
      ghost var t, a := Ticked(c, times, tim, due, empty), Telling(c, announced, tim, due && !empty);
      FlushIfDue();
      NextIndex();
      Announce(tim, t, a);
    }

    /** The new time, as the distance from the one before. */
    method Announce(tim: nat, ghost t: seq<nat>, ghost a: seq<nat>)
      requires Quiet() && Clocked(Emit(Now(), Wrap64(tim - curtime)).(curtime := tim), t, a)
      modifies this`tchn, this`tchnCnt, this`curtime, this`times, this`announced
      ensures Valid() && times == t && announced == a
      ensures Now() == Emit(old(Now()), Wrap64(tim - old(curtime))).(curtime := tim)
    {
      hide Valid, Quiet, Clocked, Emit, Wrap64;
      EmitTime(Wrap64(tim - curtime));
      curtime := tim;
      times, announced := t, a;
      QuietRuns();
    }

    /** A flush, if one is due, and the time the new section begins at. */
    method FlushIfDue()
      requires Quiet() && Clocked(Now(), times, announced) && |vchg| <= 0x4000_0000 && tchnIdx < TWO_32
      modifies this`file, this`sectionStart, this`truncPos, this`openBeg, this`openEnd
      modifies this`vchg, this`tchn, this`tchnCnt, this`tchnIdx
      modifies this`first, this`log, this`blocks, this`flushPending, heads, last, curval
      ensures Quiet() && Now() == Between(old(Now()), old(FlushDue()), old(|vchg| <= 1))
      ensures (|vchg| <= old(|vchg|) && (old(|vchg|) >= breakSize ==> |vchg| <= 1)) || |vchg| == 1
      ensures !flushPending
      ensures !old(FlushDue() && |vchg| > 1) ==>
        && blocks == old(blocks) && first == old(first) && log == old(log) && openBeg == old(openBeg)
      ensures old(FlushDue() && |vchg| > 1) ==>
        && openBeg == curtime && first == latest && (forall h :: 0 <= h < |lens| ==> log[h] == [])
        && IsNext(blocks, old(blocks), old(openBeg), curtime, old(times), old(first), old(log), old(announced))
    {
      hide Quiet, Clocked, IsNext, Emit;
      if FlushDue() {
        flushPending := false;
        FlushContextPrivate();
        EmitTime(curtime);
      }
    }

    // ----- flushing -----

    /** curval_mem is brought up to date with the signal's last record. */
    method Checkpoint(h: nat, ghost vals: seq<seq<byte>>)
      requires Shape() && h < |lens| && Widths(lens, vals) && curval[..] == FrameOf(vals)
      requires |log| == |lens| && log[h] != [] && ChainWriter.Linked(vchg, heads[h], lens[h], log[h])
      modifies curval
      ensures curval[..] == FrameOf(vals[h := LatestOf(vals[h], log[h])])
    {
      hide Offsets, FrameOf, ChainWriter.Linked;
      HeadValue(vchg, heads[h], lens[h], log[h]);
      var timeDelta, wrlen := Varint.GetVarint(vchg, heads[h] + 4, Varint.W32);
      var v := heads[h] + 4 + wrlen;
      SetValue(curval, offs, h, vchg[v..v + lens[h]], lens, vals);
    }

    /** One turn of the flush's loop over the signals. */
    method StoreOne(h: nat, store: ChainStore.Store, scratch: array<byte>)
      requires Shape() && |log| == |lens| && h < |lens| && lens[h] >= 1 && tchnIdx < TWO_32
      requires ListOne(vchg, heads[h], last[h], lens[h], log[h], tchnIdx) && scratch.Length == |vchg|
      requires store.Valid() && ChainsOf(store.chains, lens, log, h)
      requires |store.area| <= 1 + 2 * Taken(log, h) && 1 + Taken(log, h + 1) <= |vchg| <= 0x4000_0000
      modifies scratch, store, store.table, store.table.ar, store.table.nodes
      ensures store.Valid() && ChainsOf(store.chains, lens, log, h + 1)
      ensures |store.area| <= 1 + 2 * Taken(log, h + 1)
      ensures fresh(store.table.nodes - old(store.table.nodes))
    {
      hide Offsets, FrameOf, ChainStore.Store.Valid, ChainWriter.Linked, ChainWriter.RawBytes, Encode, Ordered;
      ChainWriter.LinkedOrdered(vchg, heads[h], lens[h], log[h]);
      ChainWriter.LinkedBounds(vchg, heads[h], lens[h], log[h]);
      Reader.ChainEmpty(lens[h], log[h]);
      ChainWriter.ChainFits(lens[h], 0, log[h]);
      ChainsCount(store.chains, lens, log, h);
      StoreCount(store);
      if heads[h] != 0 {
        var pnt := ChainWriter.BuildChain(vchg, heads[h], lens[h], scratch, log[h]);
        store.Add(scratch[pnt..]);
      } else {
        store.Skip();
      }
    }

    lemma StoreCount(store: ChainStore.Store)
      requires store.Valid()
      ensures |store.entries| == |store.chains| == |store.forms| && |store.area| < 0x8000_0000
      ensures ChainStore.Laid(store.mode, store.area, store.entries, store.forms, store.chains)
    {
    }

    /** The frame is up to date for the first `i` signals. */
    ghost predicate FrameUpTo(i: nat)
      reads this`first, this`latest, curval
    {
      i <= |first| == |latest| && curval[..] == FrameOf(latest[..i] + first[i..])
    }

    method StoreNext(i: nat, store: ChainStore.Store, scratch: array<byte>)
      requires Shape() && Widths(lens, first) && Widths(lens, latest) && Current(first, log, latest) && FrameUpTo(i)
      requires |log| == |lens| == |first| == |latest|
      requires Lists(vchg, heads[..], last[..], lens, log, tchnIdx) && i < |lens| && tchnIdx < TWO_32
      requires |vchg| == 1 + Taken(log, |log|) <= 0x4000_0000 && scratch.Length == |vchg| && scratch != curval
      requires store.Valid() && ChainsOf(store.chains, lens, log, i) && |store.area| <= 1 + 2 * Taken(log, i)
      modifies curval, scratch, store, store.table, store.table.ar, store.table.nodes
      ensures FrameUpTo(i + 1) && fresh(store.table.nodes - old(store.table.nodes))
      ensures store.Valid() && ChainsOf(store.chains, lens, log, i + 1) && |store.area| <= 1 + 2 * Taken(log, i + 1)
    {
      hide Offsets, FrameOf, ChainStore.Store.Valid, Lists, ChainsOf, Taken, Widths, Current, ChainWriter.Linked, ListOne;
      ListAt(vchg, heads[..], last[..], lens, log, tchnIdx, i);
      TakenGrows(log, i + 1, |log|);
      MixedStep(i);
      if heads[i] != 0 {
        Checkpoint(i, latest[..i] + first[i..]);
      }
      StoreOne(i, store, scratch);
    }

    method StoreChains() returns (store: ChainStore.Store)
      requires Shape() && Values() && Lists(vchg, heads[..], last[..], lens, log, tchnIdx)
      requires |vchg| == 1 + Taken(log, |log|) && 1 < |vchg| <= 0x4000_0000 && tchnIdx < TWO_32
      modifies curval
      ensures fresh(store) && store.Valid() && store.mode == mode && ChainsOf(store.chains, lens, log, |lens|)
      ensures curval[..] == FrameOf(latest)
    {
      hide Offsets, FrameOf, ChainStore.Store.Valid, Lists, ChainsOf, Taken, Widths, Current, Shape;
      ShapeSizes();
      var scratch := new byte[|vchg|];
      store := new ChainStore.Store(mode, hash, jhash, size);
      NoChains(store.chains, lens, log);
      var i := 0;
      assert latest[..0] + first[0..] == first;
      while i < |lens|
        invariant i <= |lens| && FrameUpTo(i)
        invariant fresh(store) && fresh(store.table) && fresh(store.table.ar) && fresh(store.table.nodes)
        invariant store.Valid() && ChainsOf(store.chains, lens, log, i) && |store.area| <= 1 + 2 * Taken(log, i)
      {
        StoreNext(i, store, scratch);
        i := i + 1;
      }
      assert latest[..i] + first[i..] == latest;
    }

    /** The lists of the signals that have a chain are emptied. */
    method ClearLists(entries: seq<int>)
      requires Shape() && |entries| == |lens|
      requires forall h :: 0 <= h < |lens| && entries[h] == 0 ==> heads[h] == 0 && last[h] == 0
      modifies heads, last
      ensures forall h :: 0 <= h < |lens| ==> heads[h] == 0 && last[h] == 0
    {
      hide Offsets;
      var i := 0;
      while i < |lens|
        invariant i <= |lens|
        invariant forall h :: 0 <= h < |lens| && (h < i || entries[h] == 0) ==> heads[h] == 0 && last[h] == 0
      {
        if entries[i] != 0 {
          heads[i], last[i] := 0, 0;
        }
        i := i + 1;
      }
    }

    /** Nothing is left of the section that was flushed but the time and the
        values, which are all in the frame. */
    ghost predicate Flushed(curtime: nat, latest: seq<seq<byte>>)
      reads this, heads, last, curval
    {
      && Shape() && Values() && first == latest == this.latest
      && |log| == |lens| && (forall h :: 0 <= h < |lens| ==> log[h] == [])
      && Lists(vchg, heads[..], last[..], lens, log, 0) && |vchg| == 1
      && Now() == Clock([], 0, 0, curtime)
    }

    /** The block is written after its header, and the header patched. */
    method WriteSection() returns (entries: seq<int>, ghost b: Block)
      requires State() && !isInitialTime && 1 < |vchg| <= 0x4000_0000 && tchnIdx < TWO_32
      requires FileIs(file, sectionStart, truncPos, pre, z, blocks, openBeg, openEnd, first, |lens|)
      modifies this`file, curval
      ensures file == pre + Written(z, blocks) + Section.Wire(z, b.section) && curval[..] == FrameOf(latest)
      ensures BlockOk(lens, b) && b.contents.mode == mode && b.announced == announced && b.section.begTim == openBeg && b.section.endTim == curtime
      ensures b.contents.times == times && b.contents.first == first && b.contents.log == log
      ensures |entries| == |lens| && forall h :: 0 <= h < |lens| && entries[h] == 0 ==> heads[h] == 0 && last[h] == 0
    {
      hide Lists, Taken, FrameOf, Offsets, ChainsOf, Written, ChainStore.Store.Valid, ChainIndex.Encode, BlockOk,
        Section.U64, Section.Pack, Section.Header, Section.Frame, Section.Chains, Tells, Announced, Widths, Current;
      ShapeSizes();
      ghost var front := pre + Written(z, blocks);
      var number := Varint.WriteVarint(|lens|);
      var store := StoreChains();
      entries := store.entries;
      var index := ChainIndex.WriteIndex(entries);
      var data := Section.Pack(z, tchn);
      file := file + number + store.area + index + Section.U64(|index|)
        + data + Section.U64(|tchn|) + Section.U64(|data|) + Section.U64(tchnCnt);
      ghost var s := Section.Section(openBeg, curtime, store.memReq, FrameOf(first), |lens|, store.area, index, tchn, tchnCnt);
      ghost var c := Reader.Contents(times, first, log, mode, entries, store.forms, store.chains);
      b := Block(s, c, announced);
      Assemble(z, front, openBeg, openEnd, s, file);
      file := Section.Finish(file, sectionStart, curtime, store.memReq, front, openBeg, openEnd,
                             Section.Frame(z, s.frame, |lens|) + Section.Chains(z, s));
      Describe(store, s, c);
      EntriesMatch(store);
    }

    /** The part of fstWriterFlushContextPrivate before the next header. */
    method FlushBlock()
      requires State() && !isInitialTime && 1 < |vchg| <= 0x4000_0000 && tchnIdx < TWO_32 && Finished(blocks)
      requires FileIs(file, sectionStart, truncPos, pre, z, blocks, openBeg, openEnd, first, |lens|)
      modifies this`file, this`truncPos, this`vchg, this`tchn, this`tchnCnt, this`tchnIdx, this`first, this`log, this`blocks
      modifies heads, last, curval
      ensures Flushed(curtime, latest) && file == pre + Written(z, blocks) && truncPos == |file| && Finished(blocks) && blocks != []
      ensures IsNext(blocks, old(blocks), openBeg, curtime, old(times), old(first), old(log), old(announced))
      ensures latest == old(latest)
    {
      hide Lists, Taken, FrameOf, Offsets, Finished, Written, BlockOk, Running, Section.Wire, FileIs;
      ShapeSizes();
      var entries;
      ghost var b, more;
      entries, b := WriteSection();
      more := AppendBlock(b);
      Grouped(pre, Written(z, blocks), Section.Wire(z, b.section));
      blocks, truncPos := more, |file|;
      StartOver(entries);
    }

    /** No lists, an empty change buffer, and an empty time section. */
    method StartOver(entries: seq<int>)
      requires Shape() && |entries| == |lens| && Widths(lens, latest) && curval[..] == FrameOf(latest)
      requires forall h :: 0 <= h < |lens| && entries[h] == 0 ==> heads[h] == 0 && last[h] == 0
      modifies this`vchg, this`tchn, this`tchnCnt, this`tchnIdx, this`first, this`log, heads, last
      ensures Flushed(curtime, latest)
    {
      hide Lists, FrameOf, Offsets, Taken;
      ClearLists(entries);
      vchg, tchn, tchnCnt, tchnIdx := [33], [], 0, 0;
      log, first := seq(|lens|, _ => []), latest;
      NoLists(vchg, heads[..], last[..], lens, log, 0);
      StillCurrent(first, log);
    }

    /** What was stored is what the block is to hold. */
    lemma Describe(store: ChainStore.Store, s: Section.Section, c: Reader.Contents)
      requires Shape() && Widths(lens, first) && Lists(vchg, heads[..], last[..], lens, log, tchnIdx)
      requires Running(Now(), vchg, log, times, announced) && |vchg| > 1 && |log| == |lens|
      requires store.Valid() && store.mode == mode && ChainsOf(store.chains, lens, log, |lens|)
      requires c == Reader.Contents(times, first, log, mode, store.entries, store.forms, store.chains)
      requires s == Section.Section(openBeg, curtime, store.memReq, FrameOf(first), |lens|, store.area,
                                    ChainIndex.Encode(store.entries), tchn, tchnCnt)
      ensures BlockOk(lens, Block(s, c, announced))
    {
      hide Lists, Offsets, HashTable.Table.Valid, ChainStore.NothingTwice, ChainStore.Slot, Taken, FrameOf, Deltas,
        ChainIndex.Encode, ChainStore.Total, ChainStore.Store.Cells, ChainIndex.SomePosition, Reader.LoggedOne;
      StoreCount(store);
      ListsLogged(vchg, heads[..], last[..], lens, log, tchnIdx, |times|);
      ListsLogged(vchg, heads[..], last[..], lens, log, tchnIdx, |announced|);
      var h := TakenSome(log, |log|);
      Reader.ChainEmpty(lens[h], log[h]);
      HasPosition(mode, store.area, store.entries, store.forms, store.chains, h);
    }

    lemma AppendBlock(b: Block) returns (more: seq<Block>)
      requires Finished(blocks) && BlockOk(lens, b) && b.contents.mode == mode
      ensures more == blocks + [b] && Finished(more) && more[..|blocks|] == blocks
      ensures Written(z, more) == Written(z, blocks) + Section.Wire(z, b.section)
    {
      more := blocks + [b];
      assert more[..|blocks|] == blocks;
    }

    lemma EntriesMatch(store: ChainStore.Store)
      requires Shape() && Lists(vchg, heads[..], last[..], lens, log, tchnIdx)
      requires store.Valid() && ChainsOf(store.chains, lens, log, |lens|)
      ensures |store.entries| == |lens|
      ensures forall h :: 0 <= h < |lens| && store.entries[h] == 0 ==> heads[h] == 0 && last[h] == 0
    {
      hide Lists, Offsets, ChainStore.Store.Valid, ChainStore.Laid, Encode, ChainWriter.Linked;
      StoreCount(store);
      forall h | 0 <= h < |lens| && store.entries[h] == 0 ensures heads[h] == 0 && last[h] == 0 {
        ListAt(vchg, heads[..], last[..], lens, log, tchnIdx, h);
        Reader.ChainEmpty(lens[h], log[h]);
        ChainStore.NoEntry(store.mode, store.area, store.entries, store.forms, store.chains, h);
      }
    }

    // ----- closing -----

    /** The part of fstWriterClose that concerns blocks. A section without
        changes is cut off again, unless it is the only one; and if there was
        never a time change, every value is written as a change at time zero. */
    method Close()
      requires Valid() && |vchg| <= 0x4000_0000 && tchnIdx + 1 < TWO_32
      requires 1 + 10 * |lens| + Offset(lens, |lens|) <= 0x4000_0000
      modifies this, heads, last, curval
      ensures Finished(blocks)
      ensures !old(isInitialTime) && old(|vchg| > 1) ==>
        && file == pre + Written(z, blocks)
        && IsNext(blocks, old(blocks), old(openBeg), old(curtime), old(times), old(first), old(log), old(announced))
      ensures !old(isInitialTime) && old(|vchg| <= 1) ==>
        blocks == old(blocks) && file == if blocks == [] then old(file) else pre + Written(z, blocks)
      ensures old(isInitialTime) && lens != [] ==>
        && file == pre + Written(z, blocks)
        && IsNext(blocks, [], 0, 0, [0], old(latest), AtZero(old(latest)), [0])
      ensures old(isInitialTime) && lens == [] ==>
        blocks == [] && |file| > |pre| && file[..|pre|] == pre && file[|pre|] == Section.SKIP
    {
      hide Quiet, Clocked, IsNext, Finished, FileIs, Shape, Values, State, Written, Offset, FlushDue;
      ValidParts();
      if !isInitialTime {
        FinishOpen();
      } else {
        EmitTimeChange(0);
        CloneValues();
        if lens != [] {
          FinishOpen();
        } else {
          ghost var header := FileNow();
          NoneWritten(z, pre);
          assert file == pre + header;
        }
      }
    }

    /** Write what there is, or cut off the header of a section without changes. */
    method FinishOpen()
      requires Valid() && !isInitialTime && |vchg| <= 0x4000_0000 && tchnIdx < TWO_32
      modifies this, heads, last, curval
      ensures Finished(blocks)
      ensures old(|vchg| > 1) ==>
        && file == pre + Written(z, blocks)
        && IsNext(blocks, old(blocks), old(openBeg), old(curtime), old(times), old(first), old(log), old(announced))
      ensures old(|vchg| <= 1) ==>
        blocks == old(blocks) && file == if blocks == [] then old(file) else pre + Written(z, blocks)
    {
      hide IsNext, Finished, State, Written, FrameOf, Section.Opening, Flushed;
      SomethingWritten(z, blocks);
      if truncPos != 0 && |vchg| <= 1 {
        file := file[..truncPos];
      } else if |vchg| > 1 {
        FlushBlock();
      }
    }

    /** Every signal's value in the frame is written as a change. */
    method CloneValues()
      requires Valid() && !isInitialTime && tchnIdx == 0 && 1 + 10 * |lens| + Offset(lens, |lens|) <= 0x4000_0000
      requires first == latest && |log| == |lens| && forall h :: 0 <= h < |lens| ==> log[h] == []
      modifies this`vchg, this`mapped, this`vcEmitted, this`first, this`log, this`latest, heads, last, curval
      ensures Valid() && latest == old(latest) && first == old(first) && log == AtZero(latest)
      ensures 1 <= |vchg| <= 0x4000_0000 && (lens != [] ==> |vchg| > 1)
    {
      hide Valid, Offset, State, FrameOf;
      BufferSize();
      NothingTaken(log, |log|);
      var i := 0;
      while i < |lens|
        invariant i <= |lens| && Valid() && latest == first == old(latest) && |log| == |lens|
        invariant forall h :: 0 <= h < |lens| ==> log[h] == if h < i then [Change(0, latest[h])] else []
        invariant 1 + i <= |vchg| <= 1 + 10 * i + Offset(lens, i)
      {
        var buf := ValueNow(i);
        OffsetStep(i);
        EmitValueChange(i + 1, buf);
        assert latest == old(latest);
        i := i + 1;
      }
    }

    /** A signal's value in the frame. */
    method ValueNow(h: nat) returns (buf: seq<byte>)
      requires Valid() && h < |lens|
      ensures buf == first[h] && |buf| == lens[h]
    {
      hide FrameOf, Offset, Lists, Finished, FileIs, Initially, Running;
      FrameAt(lens, first, h);
      AtSlice(curval[..], offs[h], first[h]);
      buf := curval[offs[h]..offs[h] + lens[h]];
    }

    lemma OffsetStep(h: nat)
      requires h < |lens|
      ensures Offset(lens, h + 1) == Offset(lens, h) + lens[h]
      ensures Offset(lens, h + 1) <= Offset(lens, |lens|)
    {
      OffsetGrows(lens, h + 1, |lens|);
    }

    lemma BufferSize()
      requires Valid() && !isInitialTime
      ensures |vchg| == 1 + Taken(log, |log|) && |log| == |lens| == |first| && Offset(lens, 0) == 0
    {
      hide FrameOf, Lists, Finished, FileIs, Clocked, Taken;
    }

    /** Every change is at a time that was announced, the current time being the
        last one. */
    lemma LogFacts()
      requires Valid()
      ensures isInitialTime ==> blocks == [] && |log| == |lens| && forall h :: 0 <= h < |lens| ==> log[h] == []
      ensures !isInitialTime ==>
        && |announced| == tchnIdx + 1 && announced[tchnIdx] == curtime && Reader.Logged(lens, log, |announced|)
    {
      hide FrameOf, Offset, Finished, FileIs, Lists, Reader.LoggedOne, Taken, Tells, Announced;
      if !isInitialTime {
        ListsLogged(vchg, heads[..], last[..], lens, log, tchnIdx, |announced|);
      }
    }

    lemma FileNow() returns (header: seq<byte>)
      requires Valid() && !isInitialTime
      ensures file == pre + Written(z, blocks) + header && header != [] && header[0] == Section.SKIP
    {
      hide State, Finished, Written, Section.Frame;
      header := Section.Opening(z, openBeg, openEnd, FrameOf(first), |lens|);
    }

    lemma ShapeSizes()
      requires Shape() && Values()
      ensures heads.Length == last.Length == |lens| == |first| == |log| == |latest| && size > 0
    {
    }

    /** Part of the frame is up to date. */
    lemma MixedStep(i: nat)
      requires Shape() && Widths(lens, first) && Widths(lens, latest) && Current(first, log, latest) && i < |lens|
      ensures var vals := latest[..i] + first[i..];
        && Widths(lens, vals) && lens[i] >= 1
        && latest[..i + 1] + first[i + 1..] == vals[i := LatestOf(vals[i], log[i])]
        && (log[i] == [] ==> latest[..i + 1] + first[i + 1..] == vals)
    {
      hide FrameOf, Offsets;
    }
  }

  lemma RecordSize(delta: nat, val: seq<byte>)
    requires delta < TWO_32
    ensures 0 < ChainWriter.RawSize(delta, val) <= |val| + 10
  {
    Varint.WordLengths(delta);
  }

  lemma SomethingWritten(z: Section.Zlib, blocks: seq<Block>)
    ensures blocks != [] ==> |Written(z, blocks)| > 0
  {
    hide Section.Frame, Section.Chains;
  }

  lemma TakenOne(log: seq<seq<Change>>, h: nat)
    requires h < |log|
    ensures Taken(log, h + 1) >= ChainWriter.RawBytes(0, log[h])
  {
    hide ChainWriter.RawBytes;
  }

  function AtZero(vals: seq<seq<byte>>): (log: seq<seq<Change>>)
    ensures |log| == |vals|
  {
    seq(|vals|, h requires 0 <= h < |vals| => [Change(0, vals[h])])
  }

  /** 'x', which is what every bit of a signal is at first. */
  const UNKNOWN: byte := 120

  function Unknown(len: nat): (v: seq<byte>)
    ensures |v| == len
  {
    seq(len, _ => UNKNOWN)
  }

  function AllUnknown(lens: seq<nat>): (vals: seq<seq<byte>>)
    ensures |vals| == |lens|
  {
    seq(|lens|, h requires 0 <= h < |lens| => Unknown(lens[h]))
  }

  lemma {:induction false} UnknownFrame(lens: seq<nat>)
    ensures |FrameOf(AllUnknown(lens))| == Offset(lens, |lens|)
    ensures forall i :: 0 <= i < Offset(lens, |lens|) ==> FrameOf(AllUnknown(lens))[i] == UNKNOWN
    decreases |lens|
  {
    if lens != [] {
      var n := |lens| - 1;
      UnknownFrame(lens[..n]);
      OffsetOfPrefix(lens, n, n);
      assert AllUnknown(lens)[..n] == AllUnknown(lens[..n]);
    }
  }

  /** One more block, holding what the section just flushed held. */
  ghost predicate IsNext(blocks: seq<Block>, before: seq<Block>, begTim: nat, endTim: nat, times: seq<nat>,
                         first: seq<seq<byte>>, log: seq<seq<Change>>, announced: seq<nat>)
  {
    && |blocks| == |before| + 1 && blocks[..|before|] == before
    && var b := blocks[|before|];
       && b.announced == announced && b.section.begTim == begTim && b.section.endTim == endTim
       && b.contents.times == times && b.contents.first == first && b.contents.log == log
  }

  lemma Grouped(a: seq<byte>, b: seq<byte>, c: seq<byte>)
    ensures a + b + c == a + (b + c)
  {
  }

  lemma NoneWritten(z: Section.Zlib, pre: seq<byte>)
    ensures pre + Written(z, []) == pre
  {
  }

  lemma StartClocked(tim: nat)
    requires tim < TWO_64
    ensures Clocked(Emit(Clock([], 0, 0, 0), Wrap64(tim)).(curtime := tim), [tim], [tim])
    ensures Start(tim) == Emit(Clock([], 0, 0, 0), Wrap64(tim)).(curtime := tim)
  {
    StartInStep(tim);
  }

  /** The clock after the flush. */
  function Between(c: Clock, due: bool, empty: bool): Clock {
    if due then Emit(if empty then c else c.(bytes := [], cnt := 0, idx := 0), c.curtime) else c
  }

  lemma TickParts(c: Clock, tim: nat, due: bool, empty: bool)
    ensures var b := Between(c, due, empty);
      && b.curtime == c.curtime
      && Tick(c, tim, due, empty) == Emit(b.(idx := b.idx + 1), Wrap64(tim - c.curtime)).(curtime := tim)
  {
  }

  lemma StillCurrent(first: seq<seq<byte>>, log: seq<seq<Change>>)
    requires |log| == |first| && forall h :: 0 <= h < |log| ==> log[h] == []
    ensures Current(first, log, first)
  {
  }

  /** The pieces written one after the other are the block's contents. */
  lemma Assemble(z: Section.Zlib, front: seq<byte>, openBeg: nat, openEnd: nat, s: Section.Section, file: seq<byte>)
    requires file == front + Section.Opening(z, openBeg, openEnd, s.frame, s.maxhandle)
      + Varint.Encode(s.maxhandle) + s.area + s.index + Section.U64(|s.index|)
      + Section.Pack(z, s.timeData) + Section.U64(|s.timeData|) + Section.U64(|Section.Pack(z, s.timeData)|) + Section.U64(s.nTimes)
    ensures file == front + (Section.Header(Section.SKIP, 0, openBeg, openEnd, 0)
      + (Section.Frame(z, s.frame, s.maxhandle) + Section.Chains(z, s)))
  {
    hide Section.U64, Section.Pack, Section.Header, Section.Frame;
    var times := Section.Pack(z, s.timeData) + Section.U64(|s.timeData|) + Section.U64(|Section.Pack(z, s.timeData)|) + Section.U64(s.nTimes);
    assert times == Section.Times(z, s);
    assert Varint.Encode(s.maxhandle) + s.area + s.index + Section.U64(|s.index|) + times == Section.Chains(z, s);
  }

  lemma ListsLogged(vchg: seq<byte>, heads: seq<nat>, last: seq<nat>, lens: seq<nat>, log: seq<seq<Change>>, idx: nat, n: nat)
    requires Lists(vchg, heads, last, lens, log, idx) && idx < n
    requires forall h :: 0 <= h < |lens| ==> lens[h] >= 1
    ensures Reader.Logged(lens, log, n)
  {
    hide ChainWriter.Linked;
    forall h | 0 <= h < |lens| ensures Reader.LoggedOne(lens[h], log[h], n) {
      assert ListOne(vchg, heads[h], last[h], lens[h], log[h], idx);
      ChainWriter.LinkedOrdered(vchg, heads[h], lens[h], log[h]);
    }
  }

  lemma HasPosition(mode: Stored.Mode, area: seq<byte>, entries: seq<int>, forms: seq<Stored.Form>, chains: seq<seq<byte>>, h: nat)
    requires ChainStore.Laid(mode, area, entries, forms, chains) && h < |chains| && chains[h] != []
    ensures ChainIndex.SomePosition(entries)
  {
    var j := ChainStore.ChainFound(mode, area, entries, forms, chains, h);
  }

  lemma ListAt(vchg: seq<byte>, heads: seq<nat>, last: seq<nat>, lens: seq<nat>, log: seq<seq<Change>>, idx: nat, h: nat)
    requires Lists(vchg, heads, last, lens, log, idx) && h < |lens|
    ensures ListOne(vchg, heads[h], last[h], lens[h], log[h], idx)
    ensures ChainWriter.Linked(vchg, heads[h], lens[h], log[h]) && (heads[h] != 0 <==> log[h] != [])
    ensures ChainWriter.LastTime(log[h]) == last[h] <= idx
    ensures lens[h] >= 1 ==> Ordered(lens[h], 0, log[h])
  {
    assert ListOne(vchg, heads[h], last[h], lens[h], log[h], idx);
    ChainWriter.LinkedOrdered(vchg, heads[h], lens[h], log[h]);
  }

  /** The chains of the first `n` signals. */
  ghost predicate ChainsOf(chains: seq<seq<byte>>, lens: seq<nat>, log: seq<seq<Change>>, n: nat) {
    && n == |chains| <= |lens| == |log|
    && forall h :: 0 <= h < n ==> 1 <= lens[h] && Ordered(lens[h], 0, log[h]) && chains[h] == Encode(lens[h], 0, log[h])
  }

  lemma ChainsCount(chains: seq<seq<byte>>, lens: seq<nat>, log: seq<seq<Change>>, n: nat)
    requires ChainsOf(chains, lens, log, n)
    ensures |chains| == n
  {
  }

  lemma NoChains(chains: seq<seq<byte>>, lens: seq<nat>, log: seq<seq<Change>>)
    requires chains == [] && |log| == |lens|
    ensures ChainsOf(chains, lens, log, 0) && Taken(log, 0) == 0
  {
  }
}
