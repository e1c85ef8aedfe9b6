/** The value-at-time reader of src/fst/fstapi.c on the bytes of a block, and its
    agreement with what the iterating reader reports of the same block. */
module ValueFile {
  import opened Bytes
  import opened Chain
  import opened Frame
  import opened Merge
  import opened Reader
  import opened TraceFile
  import opened Writer
  import opened ValueAt
  import ChainIndex
  import ChainStore
  import Section
  import Stored
  import TimeTable

  /** The reader holds the block: its times, its frame, and for every signal that is
      asked for the changes there are to see. */
  ghost predicate Opened(r: ValueReader, lens: seq<nat>, mask: seq<bool>, c: Contents) {
    && r.lens == lens && r.times == c.times && |r.cs| == |lens| == |c.log| == |mask| && r.frame == FrameOf(c.first)
    && forall h :: 0 <= h < |lens| && mask[h] ==> r.cs[h] == SeenOf(lens[h], c.log[h])
  }

  /** A chain of the signal's own. */
  ghost predicate OwnForm(c: Contents, h: nat) {
    h < |c.entries| == |c.forms| && (c.entries[h] < 0 ==> -c.entries[h] - 1 < h && !ChainStore.Mixed(c.entries, c.forms, h))
  }

  /** What there is to see of a signal, if it is asked for. */
  ghost function Seeing(lens: seq<nat>, mask: seq<bool>, c: Contents, h: nat): seq<Change> {
    if h < |lens| == |mask| == |c.log| && mask[h] then SeenOf(lens[h], c.log[h]) else []
  }

  /** Load the block at `blkpos`, with tables allocated for it, and the chains of the
      signals that will be asked for, each of which the original loads when it is. */
  method OpenBlock(z: Section.Zlib, file: seq<byte>, blkpos: nat, lens: seq<nat>, mask: seq<bool>,
                   ghost s: Section.Section, ghost c: Contents)
    returns (r: ValueReader)
    requires Section.Sound(z) && At(file, blkpos, Section.Wire(z, s)) && Section.Fits(z, s) && Describes(s, lens, c)
    requires |mask| == |lens| && forall h :: 0 <= h < |lens| && mask[h] ==> OwnForm(c, h)
    ensures fresh(r) && r.Valid() && !r.posValid && r.begTim == s.begTim && Opened(r, lens, mask, c)
  {
    hide Section.Wire, Section.Fits, At, ChainStore.Laid, ChainIndex.Encode, ChainIndex.SomePosition, Logged, FrameOf, Frame.Offset,
      TimeTable.Deltas, ChainStore.Total, Encode, Cursor, OwnForm;
    ChainStore.LaidSizes(c.mode, s.area, c.entries, c.forms, c.chains);
    var b := Section.ReadSection(z, file, blkpos, s);
    var times := TimeTable.ReadTimes(b.section.timeData, b.section.nTimes, c.times);
    var chains := ChainsOfBlock(file, b, lens, mask, s, c);
    ghost var cs := seq(|lens|, h requires 0 <= h < |lens| => Seeing(lens, mask, c, h));
    FrameSize(lens, c.first);
    r := new ValueReader(times, b.section.begTim, lens, b.section.frame, chains, cs);
  }

  /** The index in tables allocated for it, and the chains it leads to. */
  method ChainsOfBlock(file: seq<byte>, b: Section.Block, lens: seq<nat>, mask: seq<bool>,
                       ghost s: Section.Section, ghost c: Contents)
    returns (chains: seq<seq<byte>>)
    requires Describes(s, lens, c) && b.section == s
    requires At(file, b.vcStart, s.area) && b.indxPos == b.vcStart + |s.area| && b.indxPos + |s.index| + 32 <= |file|
    requires |mask| == |lens| && forall h :: 0 <= h < |lens| && mask[h] ==> OwnForm(c, h)
    ensures |chains| == |lens| == |c.log| && forall h :: 0 <= h < |lens| ==>
      lens[h] >= 1 && Cursor(chains[h], lens[h], 0, 0, |chains[h]|, Seeing(lens, mask, c, h), |c.times|)
  {
    hide At, ChainStore.Laid, ChainIndex.Encode, ChainIndex.SomePosition, ChainIndex.Mistaken, TablesOf, Logged, FrameOf,
      TimeTable.Deltas, ChainStore.Total, Encode, After, Cursor, OwnForm;
    ChainStore.LaidSizes(c.mode, s.area, c.entries, c.forms, c.chains);
    var table, lengths := new int[|lens| + 1](_ => 0), new nat[|lens| + 1](_ => 0);
    FreshClean(table[..], lengths[..], mask, s.area, c);
    var pidx := ReadIndex(b.section.index, table, lengths, 0, b.indxPos - b.vcStart, s.area, mask, c);
    chains := LoadAll(file, b.vcStart, lens, table[..], lengths[..], mask, s.area, c);
  }

  lemma FreshClean(table: seq<int>, lengths: seq<nat>, mask: seq<bool>, area: seq<byte>, c: Contents)
    requires ChainStore.Laid(c.mode, area, c.entries, c.forms, c.chains) && |mask| == |c.entries|
    requires |table| == |lengths| == |c.entries| + 1 && forall i :: 0 <= i < |lengths| ==> lengths[i] == 0
    requires forall h :: 0 <= h < |mask| && mask[h] ==> OwnForm(c, h)
    ensures Clean(Before(table, lengths, 0), mask, c)
  {
    hide ChainStore.Slot, ChainIndex.Mistaken;
    forall i | 0 <= i < |c.entries| ensures !ChainIndex.Mistaken(Before(table, lengths, 0), c.entries, i) {
      ChainIndex.FreshTables(Before(table, lengths, 0), c.entries, |area|, i);
    }
  }

  method LoadAll(file: seq<byte>, vcStart: nat, lens: seq<nat>, table: seq<int>, lengths: seq<nat>,
                 mask: seq<bool>, ghost area: seq<byte>, ghost c: Contents)
    returns (chains: seq<seq<byte>>)
    requires ChainStore.Laid(c.mode, area, c.entries, c.forms, c.chains) && |area| > 0 && area[0] == Stored.PackType(c.mode)
    requires At(file, vcStart, area) && vcStart + |area| + 32 <= |file|
    requires |c.entries| == |lens| && Logged(lens, c.log, |c.times|)
    requires TablesOf(table, lengths, mask, c.entries, |area|)
    requires forall h :: 0 <= h < |lens| ==> c.chains[h] == Encode(lens[h], 0, c.log[h])
    requires |mask| == |lens| && forall h :: 0 <= h < |lens| && mask[h] ==> OwnForm(c, h)
    ensures |chains| == |lens| == |c.log| && forall h :: 0 <= h < |lens| ==>
      lens[h] >= 1 && Cursor(chains[h], lens[h], 0, 0, |chains[h]|, Seeing(lens, mask, c, h), |c.times|)
  {
    hide ChainStore.Laid, TablesOf, At, Encode, LoggedOne, SeenOf, Cursor, Seeing;
    ChainStore.LaidSizes(c.mode, area, c.entries, c.forms, c.chains);
    var mode := ReadMode(file, vcStart, area, c.mode);
    chains := [];
    while |chains| < |lens|
      invariant |chains| <= |lens| && forall h :: 0 <= h < |chains| ==>
        lens[h] >= 1 && Cursor(chains[h], lens[h], 0, 0, |chains[h]|, Seeing(lens, mask, c, h), |c.times|)
    {
      var i := |chains|;
      TablesAt(table, lengths, mask, c.mode, area, c, i);
      LoggedAt(lens, c.log, |c.times|, i);
      var bytes := [];
      if mask[i] && table[i] != 0 {
        bytes := LoadChain(file, vcStart, table[i], lengths[i], mode, area, c, i);
      }
      ChainSeen(lens, mask, c, i, bytes);
      chains := chains + [bytes];
    }
  }

  lemma ChainSeen(lens: seq<nat>, mask: seq<bool>, c: Contents, i: nat, bytes: seq<byte>)
    requires i < |lens| == |mask| == |c.log| && LoggedOne(lens[i], c.log[i], |c.times|)
    requires bytes == if mask[i] then Encode(lens[i], 0, c.log[i]) else []
    ensures Cursor(bytes, lens[i], 0, 0, |bytes|, Seeing(lens, mask, c, i), |c.times|)
  {
    hide Encode, Ordered, SeenOf, Cursor;
    if mask[i] {
      ChainDecodes(lens[i], c.log[i], |c.times|, bytes);
      WholeCursor(bytes, lens[i], SeenOf(lens[i], c.log[i]), |c.times|);
    } else {
      NoCursor(lens[i], |c.times|);
    }
  }

  lemma NoCursor(len: nat, nTimes: nat)
    requires 1 <= len
    ensures Cursor([], len, 0, 0, 0, [], nTimes)
  {
  }

  lemma WholeCursor(bytes: seq<byte>, len: nat, cs: seq<Change>, nTimes: nat)
    requires 1 <= len && Decode(len, 0, bytes, 0, |bytes|) == Changes(cs)
    requires forall k :: 0 <= k < |cs| ==> cs[k].tidx < nTimes
    ensures Cursor(bytes, len, 0, 0, |bytes|, cs, nTimes)
  {
    hide Decode;
  }

  /** The last of the events at or before `tim`. */
  ghost predicate LastBy(events: seq<Event>, tim: nat, k: nat) {
    k < |events| && events[k].time <= tim && forall j :: k < j < |events| ==> events[j].time > tim
  }

  lemma OneLast(events: seq<Event>, tim: nat, j: nat, k: nat)
    requires LastBy(events, tim, j) && LastBy(events, tim, k)
    ensures j == k
  {
  }

  /** Asking for a value at a time agrees with replaying the callbacks up to that
      time: it is the value of the last one, or the frame's if there is none. */
  lemma AgreesWithReplay(first: seq<byte>, cs: seq<Change>, times: seq<nat>, tim: nat, h: nat)
    requires InTimeOrder(cs, times)
    ensures var events, v := Delivery(times, h, cs), Latest(first, cs, times, tim);
      && (forall k: nat :: LastBy(events, tim, k) ==> v == events[k].val)
      && ((forall k :: 0 <= k < |events| ==> events[k].time > tim) ==> v == first)
      && ((exists k: nat :: LastBy(events, tim, k)) || forall k :: 0 <= k < |events| ==> events[k].time > tim)
  {
    FullScanIsLast(cs, times, tim);
    var scan, events := FullScan(cs, times, tim), Delivery(times, h, cs);
    if scan.Hit? {
      assert LastBy(events, tim, scan.rec);
      forall k: nat | LastBy(events, tim, k) ensures k == scan.rec {
        OneLast(events, tim, k, scan.rec);
      }
    }
  }

  // ----- finding the block -----

  predicate Covers(b: Block, tim: nat) {
    b.section.begTim <= tim <= b.section.endTim
  }

  /** The first block that covers the time. */
  function Covering(blocks: seq<Block>, tim: nat): (k: nat)
    ensures k <= |blocks| && (k < |blocks| ==> Covers(blocks[k], tim))
    ensures forall j :: 0 <= j < k ==> !Covers(blocks[j], tim)
  {
    if blocks == [] || Covers(blocks[0], tim) then 0 else 1 + Covering(blocks[1..], tim)
  }

  lemma {:induction false} CoveringIs(blocks: seq<Block>, tim: nat, k: nat)
    requires k <= |blocks| && (k < |blocks| ==> Covers(blocks[k], tim))
    requires forall j :: 0 <= j < k ==> !Covers(blocks[j], tim)
    ensures Covering(blocks, tim) == k
    decreases k
  {
    hide Covers;
    if k > 0 {
      assert forall j :: 0 <= j < k - 1 ==> blocks[1..][j] == blocks[j + 1];
      CoveringIs(blocks[1..], tim, k - 1);
    }
  }

  /** The block found contains the time, ends included, and no block before it does. */
  lemma {:induction false} CoveringMeans(blocks: seq<Block>, tim: nat)
    ensures var k := Covering(blocks, tim);
      && k <= |blocks| && (k < |blocks| ==> blocks[k].section.begTim <= tim <= blocks[k].section.endTim)
      && forall j :: 0 <= j < k ==> tim < blocks[j].section.begTim || tim > blocks[j].section.endTim
    decreases |blocks|
  {
    var k := Covering(blocks, tim);
    forall j | 0 <= j < k ensures tim < blocks[j].section.begTim || tim > blocks[j].section.endTim {
      assert !Covers(blocks[j], tim);
    }
  }

  /** A time at which a block ends that is not the end of the trace: the code looks
      for the block after it, but where the length of this one is. */
  predicate AtSeam(b: Block, tim: nat, endTime: nat) {
    tim == b.section.endTim && tim != endTime
  }

  /** Where the rest of the code takes the block to be, after its tag, and how long. */
  datatype Place = Nowhere | Place(blkpos: nat, seclen: nat)

  /** The rest of the code finds everything from the end of the block, which it
      takes to be here. */
  predicate Ends(p: Place, end: nat) {
    p.Place? && p.blkpos + p.seclen == end
  }

  /** For a block that is at `at`: the place and length it has, unless the time is
      at a seam. */
  function PlaceOf(z: Section.Zlib, b: Block, at: nat, tim: nat, endTime: nat): Place {
    if AtSeam(b, tim, endTime) then Place(at, 256 * Section.Length(z, b.section) + b.section.begTim / 0x100_0000_0000_0000)
    else Place(at + 1, Section.Length(z, b.section))
  }

  ghost predicate Placeable(z: Section.Zlib, blocks: seq<Block>) {
    forall k :: 0 <= k < |blocks| ==>
      Section.Fits(z, blocks[k].section) && Section.Length(z, blocks[k].section) < 0x100_0000_0000_0000
  }

  /** Seven bytes as a number, and what eight bytes are with one more. */
  function Seven(s: seq<byte>, p: nat): (v: int)
    requires p + 7 <= |s|
    ensures 0 <= v < 0x100_0000_0000_0000
  {
    0x1_0000_0000_0000 * (s[p] as int) + 0x100_0000_0000 * (s[p + 1] as int) + 0x1_0000_0000 * (s[p + 2] as int)
    + 0x100_0000 * (s[p + 3] as int) + 0x1_0000 * (s[p + 4] as int) + 256 * (s[p + 5] as int) + s[p + 6] as int
  }

  lemma ByteSum(s: seq<byte>, p: nat)
    requires p + 9 <= |s|
    ensures Section.Get64(s, p) == 0x100_0000_0000_0000 * (s[p] as int) + Seven(s, p + 1)
    ensures Section.Get64(s, p + 1) == 256 * Seven(s, p + 1) + s[p + 8] as int
    ensures Section.Get64(s, p) / 0x100_0000_0000_0000 == s[p] as int
  {
  }

  /** One byte after the tag there is never a tag of value changes, and what is
      taken for a length is 256 times the real one and a bit more. */
  lemma Misread(z: Section.Zlib, file: seq<byte>, at: nat, s: Section.Section)
    requires At(file, at, Section.Wire(z, s)) && Section.Fits(z, s) && Section.Length(z, s) < 0x100_0000_0000_0000
    ensures at + 33 <= |file| && file[at + 1] == 0
    ensures Section.Get64(file, at + 1) == Section.Length(z, s) && Section.Get64(file, at + 9) == s.begTim
    ensures Section.Get64(file, at + 17) == s.endTim
    ensures Section.Get64(file, at + 2) == 256 * Section.Length(z, s) + s.begTim / 0x100_0000_0000_0000
  {
    hide Section.Get64, Section.Length, Section.Wire, Section.Header, Section.Frame, Section.Chains, At;
    Section.SectionParts(z, file, at, s);
    Section.HeaderParts(file, at, Section.VCDATA, Section.Length(z, s), s.begTim, s.endTim, s.memReq);
    ByteSum(file, at + 1);
    ByteSum(file, at + 9);
    assert Section.Length(z, s) / 0x100_0000_0000_0000 == 0;
  }

  /** One turn of the loop over the blocks. */
  method LookAt(z: Section.Zlib, file: seq<byte>, blkpos: nat, tim: nat, endTime: nat, ghost b: Block)
    returns (covers: bool, p: Place, seam: bool, next: nat)
    requires At(file, blkpos, Section.Wire(z, b.section))
    requires Section.Fits(z, b.section) && Section.Length(z, b.section) < 0x100_0000_0000_0000
    ensures covers == Covers(b, tim) && seam == (covers && AtSeam(b, tim, endTime))
    ensures next == blkpos + |Section.Wire(z, b.section)|
    ensures covers ==> p == PlaceOf(z, b, blkpos, tim, endTime) && (Ends(p, next) <==> !seam)
  {
    hide Section.Wire, Section.Length, Section.Fits, Section.Get64, At;
    WireIs(z, file, blkpos, b.section);
    Misread(z, file, blkpos, b.section);
    var seclen, begTim, endTim := Section.Get64(file, blkpos + 1), Section.Get64(file, blkpos + 9), Section.Get64(file, blkpos + 17);
    covers, seam, next, p := begTim <= tim <= endTim, false, blkpos + 1 + seclen, Nowhere;
    if covers {
      p := Place(blkpos + 1, seclen);
      if tim == endTim && tim != endTime {
        seam := true;
        var sectype := file[blkpos + 1];
        if sectype != Section.VCDATA {
          p := Place(blkpos, Section.Get64(file, blkpos + 2));
        }
      }
    }
  }

  lemma PlaceableAt(z: Section.Zlib, blocks: seq<Block>, k: nat)
    requires Placeable(z, blocks) && k < |blocks|
    ensures Section.Fits(z, blocks[k].section) && Section.Length(z, blocks[k].section) < 0x100_0000_0000_0000
  {
    hide Section.Fits, Section.Length;
  }

  /** The loop over the blocks, up to one that covers the time. */
  method FindBlock(z: Section.Zlib, file: seq<byte>, start: nat, tim: nat, endTime: nat, ghost blocks: seq<Block>)
    returns (p: Place, seam: bool)
    requires Holds(file, start, z, blocks) && Placeable(z, blocks)
    ensures var k := Covering(blocks, tim);
      && k <= |blocks| && (k < |blocks| ==> blocks[k].section.begTim <= tim <= blocks[k].section.endTim)
      && forall j :: 0 <= j < k ==> tim < blocks[j].section.begTim || tim > blocks[j].section.endTim
    ensures var k := Covering(blocks, tim);
      if k == |blocks| then p == Nowhere && !seam
      else
        var at := start + |WrittenFrom(z, blocks[..k])|;
        && At(file, at, Section.Wire(z, blocks[k].section)) && seam == AtSeam(blocks[k], tim, endTime)
        && p == PlaceOf(z, blocks[k], at, tim, endTime) && (Ends(p, at + |Section.Wire(z, blocks[k].section)|) <==> !seam)
  {
    hide At, Looking, Covering, Covers, AtSeam, PlaceOf, Ends, Placeable, Section.Wire, Section.Length, Section.Fits, Holds;
    var blkpos: nat := start;
    ghost var k := 0;
    CoveringMeans(blocks, tim);
    LookStart(z, file, start, tim, blocks);
    while blkpos < |file| && file[blkpos] != Section.SKIP
      invariant Looking(z, file, blkpos, tim, blocks, k) && k <= |blocks| && blkpos == start + |WrittenFrom(z, blocks[..k])|
      decreases |blocks| - k
    {
      LookHere(z, file, blkpos, tim, blocks, k);
      PlaceableAt(z, blocks, k);
      var covers, next;
      covers, p, seam, next := LookAt(z, file, blkpos, tim, endTime, blocks[k]);
      if covers {
        LookFound(z, file, blkpos, tim, blocks, k);
        return;
      }
      LookNext(z, file, blkpos, tim, blocks, k);
      WrittenNext(z, blocks, k);
      blkpos, k := next, k + 1;
    }
    LookHere(z, file, blkpos, tim, blocks, k);
    p, seam := Nowhere, false;
  }

  /** Where the loop stands: at block `k`, no block before it covering the time. */
  ghost predicate Looking(z: Section.Zlib, file: seq<byte>, blkpos: nat, tim: nat, blocks: seq<Block>, k: nat) {
    && k <= |blocks| && Holds(file, blkpos, z, blocks[k..])
    && forall j :: 0 <= j < k ==> !Covers(blocks[j], tim)
  }

  lemma WrittenNext(z: Section.Zlib, blocks: seq<Block>, k: nat)
    requires k < |blocks|
    ensures |WrittenFrom(z, blocks[..k + 1])| == |WrittenFrom(z, blocks[..k])| + |Section.Wire(z, blocks[k].section)|
  {
    hide Section.Wire;
    SameBytes(z, blocks[..k]);
    SameBytes(z, blocks[..k + 1]);
    assert blocks[..k + 1][..k] == blocks[..k];
  }

  lemma LookStart(z: Section.Zlib, file: seq<byte>, start: nat, tim: nat, blocks: seq<Block>)
    requires Holds(file, start, z, blocks)
    ensures Looking(z, file, start, tim, blocks, 0)
  {
    hide Holds;
    assert blocks[0..] == blocks;
  }

  lemma LookHere(z: Section.Zlib, file: seq<byte>, blkpos: nat, tim: nat, blocks: seq<Block>, k: nat)
    requires Looking(z, file, blkpos, tim, blocks, k)
    ensures k == |blocks| <==> blkpos >= |file| || file[blkpos] == Section.SKIP
    ensures k < |blocks| ==> At(file, blkpos, Section.Wire(z, blocks[k].section))
    ensures k == |blocks| ==> Covering(blocks, tim) == |blocks|
  {
    hide Holds, Covers, Covering, At, Section.Wire;
    HoldsHere(file, blkpos, z, blocks[k..]);
    if k == |blocks| { CoveringIs(blocks, tim, k); }
  }

  lemma LookFound(z: Section.Zlib, file: seq<byte>, blkpos: nat, tim: nat, blocks: seq<Block>, k: nat)
    requires Looking(z, file, blkpos, tim, blocks, k) && k < |blocks| && Covers(blocks[k], tim)
    ensures Covering(blocks, tim) == k
  {
    hide Holds, Covers, Covering;
    CoveringIs(blocks, tim, k);
  }

  lemma LookNext(z: Section.Zlib, file: seq<byte>, blkpos: nat, tim: nat, blocks: seq<Block>, k: nat)
    requires Looking(z, file, blkpos, tim, blocks, k) && k < |blocks| && !Covers(blocks[k], tim)
    ensures Looking(z, file, blkpos + |Section.Wire(z, blocks[k].section)|, tim, blocks, k + 1)
  {
    hide Holds, Covers, At, Section.Wire;
    HoldsHere(file, blkpos, z, blocks[k..]);
    assert blocks[k..][1..] == blocks[k + 1..];
  }

  lemma WireIs(z: Section.Zlib, file: seq<byte>, at: nat, s: Section.Section)
    requires At(file, at, Section.Wire(z, s))
    ensures |Section.Wire(z, s)| == Section.Length(z, s) + 1 && Section.Length(z, s) >= 32
  {
    hide Section.Header, Section.Frame, Section.Chains, At;
    Section.SectionParts(z, file, at, s);
  }

  /** Blocks from 0 to 10 and from 10 to 20: asked for 10, the reader looks for the
      first one's contents where they are not. */
  lemma SeamOfTwo(a: Block, b: Block)
    requires a.section.begTim == 0 && a.section.endTim == b.section.begTim == 10 && b.section.endTim == 20
    ensures Covering([a, b], 10) == 0 && AtSeam(a, 10, 20)
  {
  }

  /** The answer is the value of the signal's last change by that time in the
      block, or the value it begins with. */
  ghost predicate IsLatest(lens: seq<nat>, c: Contents, h: nat, tim: nat, a: Answer) {
    && h < |lens| && h < |c.log| && h < |c.first| && AllInTable(SeenOf(lens[h], c.log[h]), |c.times|)
    && a == Value(Latest(c.first[h], SeenOf(lens[h], c.log[h]), c.times, tim))
  }

  function OnlyMask(n: nat, handle: nat): (mask: seq<bool>)
    ensures |mask| == n && forall h :: 0 <= h < n ==> (mask[h] <==> h + 1 == handle)
  {
    seq(n, h => h + 1 == handle)
  }

  /** Open the block and ask. */
  method AnswerIn(z: Section.Zlib, file: seq<byte>, at: nat, lens: seq<nat>, handle: nat, tim: nat,
                  ghost s: Section.Section, ghost c: Contents)
    returns (a: Answer)
    requires Section.Sound(z) && At(file, at, Section.Wire(z, s)) && Section.Fits(z, s) && Describes(s, lens, c)
    requires 1 <= handle <= |lens| && OwnForm(c, handle - 1)
    ensures a != Unknown && (Ascending(c.times) ==> IsLatest(lens, c, handle - 1, tim, a))
  {
    hide Section.Wire, Section.Fits, Section.Sound, At, Merge.Cursor, SeenOf, Ascending, Latest, Frame.FrameOf,
      ValueReader.Valid, ChainStore.Laid, TimeTable.Deltas, Logged, ChainIndex.Encode, ChainStore.Total, Encode, OwnForm;
    var r := OpenBlock(z, file, at, lens, OnlyMask(|lens|, handle), s, c);
    ghost var before := r.Remembered(handle - 1);
    a := r.GetValue(handle, tim);
    BlockStays(r);
    FreshAnswer(r, lens, OnlyMask(|lens|, handle), c, handle - 1, before, tim, a);
  }

  lemma BlockStays(r: ValueReader)
    requires r.Valid()
    ensures r.Block()
  {
  }

  /** With nothing remembered no query is stranded. */
  lemma FreshAnswer(r: ValueReader, lens: seq<nat>, mask: seq<bool>, c: Contents, h: nat, s: Scan, tim: nat, a: Answer)
    requires r.Block() && Opened(r, lens, mask, c) && h < |lens| && mask[h] && Frame.Widths(lens, c.first)
    requires !s.valid && r.Finds(h, s, tim, a)
    ensures a != Unknown && (Ascending(c.times) ==> IsLatest(lens, c, h, tim, a))
  {
    hide Merge.Cursor, SeenOf, Latest, Frame.FrameOf, FullScan, Query;
    if Ascending(c.times) {
      r.FindsLatest(h, s, tim, a);
      Frame.FrameAt(lens, c.first, h);
      AtSlice(r.frame, Frame.Offset(lens, h), c.first[h]);
    }
  }

  /** The chain of the signal asked for is its own in the block that covers the time. */
  ghost predicate AskedOwn(lens: seq<nat>, blocks: seq<Block>, handle: nat, tim: nat) {
    var k := Covering(blocks, tim);
    k < |blocks| && 1 <= handle <= |lens| ==> OwnForm(blocks[k].contents, handle - 1)
  }

  /** The value of a signal at a time, with nothing remembered: that of its last
      change by then in the block that covers the time, or the frame's. The
      contents of the block are found exactly if the time is not at a seam. */
  method ValueAtTime(z: Section.Zlib, file: seq<byte>, start: nat, lens: seq<nat>, handle: nat, tim: nat, endTime: nat,
                     ghost blocks: seq<Block>)
    returns (placed: bool, a: Answer)
    requires Section.Sound(z) && Holds(file, start, z, blocks) && Readable(z, lens, blocks) && Placeable(z, blocks)
    requires AskedOwn(lens, blocks, handle, tim)
    ensures handle == 0 || handle > |lens| ==> placed && a == Unknown
    ensures 1 <= handle <= |lens| ==>
      var k := Covering(blocks, tim);
      && (placed <==> !(k < |blocks| && AtSeam(blocks[k], tim, endTime)))
      && (placed ==> (a == Unknown <==> k == |blocks|))
      && (placed && k < |blocks| && Ascending(blocks[k].contents.times) ==>
            IsLatest(lens, blocks[k].contents, handle - 1, tim, a))
  {
    hide Holds, Section.Wire, Section.Length, Section.Fits, Section.Sound, Section.Get64, At, Covering, IsLatest, Ascending,
      Describes, OwnForm;
    if handle == 0 || handle > |lens| { return true, Unknown; }
    var p, seam;
    p, seam := FindBlock(z, file, start, tim, endTime, blocks);
    ghost var k := Covering(blocks, tim);
    if p == Nowhere { return true, Unknown; }
    if seam { return false, Unknown; }
    assert BlockOk(lens, blocks[k]);
    placed := true;
    a := AnswerIn(z, file, p.blkpos - 1, lens, handle, tim, blocks[k].section, blocks[k].contents);
  }
}
