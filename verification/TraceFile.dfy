/** A whole value-change file of src/fst/fstapi.c: what the iterating reader
    reports of the blocks the writer wrote. */
module TraceFile {
  import opened Bytes
  import opened Chain
  import opened Merge
  import opened Reader
  import opened Writer
  import ChainIndex
  import Section

  /** What is reported of signal `h`, block after block; only the first block
      may report its frame. */
  ghost function Reports(lens: seq<nat>, mask: seq<bool>, blocks: seq<Block>, h: nat): seq<Event> {
    if blocks == [] then []
    else
      var n := |blocks| - 1;
      Reports(lens, mask, blocks[..n], h) + ReportsOne(lens, mask, blocks[n], n == 0, h)
  }

  ghost function ReportsOne(lens: seq<nat>, mask: seq<bool>, b: Block, first: bool, h: nat): seq<Event> {
    var c := b.contents;
    if h < |lens| == |mask| == |c.log| == |c.first| && AllInTable(ToPlay(lens, mask, c.log, |mask|, h), |c.times|) then
      Expected(lens, mask, c, ReportsFrame(first, b.section.begTim, c.times), b.section.begTim, h)
    else []
  }

  /** Block after block, nothing in the reader's index tables is mistaken, they
      being kept from one block to the next. */
  ghost predicate CleanRun(before: ChainIndex.State, mask: seq<bool>, blocks: seq<Block>)
    decreases |blocks|
  {
    blocks == [] ||
    (Clean(before, mask, blocks[0].contents)
     && CleanRun(After(before, blocks[0].contents.entries, |blocks[0].section.area|), mask, blocks[1..]))
  }

  ghost predicate Readable(z: Section.Zlib, lens: seq<nat>, blocks: seq<Block>) {
    forall k :: 0 <= k < |blocks| ==> BlockOk(lens, blocks[k]) && Section.Fits(z, blocks[k].section)
  }

  /** The file from the first block on: blocks, and then the end of the file or
      the header of a block never finished. */
  ghost predicate Holds(file: seq<byte>, blkpos: nat, z: Section.Zlib, blocks: seq<Block>) {
    && At(file, blkpos, WrittenFrom(z, blocks))
    && var end := blkpos + |WrittenFrom(z, blocks)|;
       end == |file| || (end < |file| && file[end] == Section.SKIP)
  }

  function WrittenFrom(z: Section.Zlib, blocks: seq<Block>): seq<byte> {
    if blocks == [] then [] else Section.Wire(z, blocks[0].section) + WrittenFrom(z, blocks[1..])
  }

  lemma {:induction false} SameBytes(z: Section.Zlib, blocks: seq<Block>)
    ensures WrittenFrom(z, blocks) == Written(z, blocks)
    decreases |blocks|
  {
    hide Section.Wire;
    if |blocks| > 0 {
      var n := |blocks| - 1;
      SameBytes(z, blocks[1..]);
      SameBytes(z, blocks[..n]);
      if n > 0 {
        var mid := blocks[1..n];
        assert blocks[1..][..n - 1] == mid && blocks[..n][1..] == mid;
        assert blocks[1..][n - 1] == blocks[n] && blocks[..n][0] == blocks[0];
        SameBytes(z, mid);
      }
    }
  }

  /** At a block, or at the end. */
  lemma HoldsHere(file: seq<byte>, blkpos: nat, z: Section.Zlib, blocks: seq<Block>)
    requires Holds(file, blkpos, z, blocks)
    ensures blocks == [] <==> blkpos == |file| || (blkpos < |file| && file[blkpos] == Section.SKIP)
    ensures blkpos <= |file|
    ensures blocks != [] ==>
      && At(file, blkpos, Section.Wire(z, blocks[0].section)) && file[blkpos] == Section.VCDATA
      && Holds(file, blkpos + |Section.Wire(z, blocks[0].section)|, z, blocks[1..])
  {
    hide Section.Frame, Section.Chains, At;
    AtInBounds(file, blkpos, WrittenFrom(z, blocks));
    if blocks != [] {
      var w := Section.Wire(z, blocks[0].section);
      AtConcat(file, blkpos, w, WrittenFrom(z, blocks[1..]));
      FirstByte(file, blkpos, w);
      assert w[0] == Section.VCDATA;
    }
  }

  lemma AtInBounds(s: seq<byte>, p: nat, part: seq<byte>)
    requires At(s, p, part)
    ensures p + |part| <= |s|
  {
  }

  lemma FirstByte(s: seq<byte>, p: nat, part: seq<byte>)
    requires At(s, p, part) && part != []
    ensures p < |s| && s[p] == part[0]
  {
    assert s[p + 0] == part[0];
  }

  /** The reports of a block come after those of the blocks before it. */
  lemma ReportsSnoc(lens: seq<nat>, mask: seq<bool>, blocks: seq<Block>, k: nat, before: seq<Event>, events: seq<Event>)
    requires k < |blocks| && |mask| == |lens|
    requires forall h :: 0 <= h < |lens| ==> Of(before, h) == Reports(lens, mask, blocks[..k], h)
    requires Delivers(events, lens, mask, blocks[k].contents,
      ReportsFrame(k == 0, blocks[k].section.begTim, blocks[k].contents.times), blocks[k].section.begTim)
    ensures forall h :: 0 <= h < |lens| ==> Of(before + events, h) == Reports(lens, mask, blocks[..k + 1], h)
  {
    hide Of, Delivers, ReportsFrame, Reports, ReportsOne;
    forall h | 0 <= h < |lens| ensures Of(before + events, h) == Reports(lens, mask, blocks[..k + 1], h) {
      OfConcat(before, events, h);
      ReportsLast(lens, mask, blocks, k, h);
      DeliveredOne(events, lens, mask, blocks[k], k == 0, h);
    }
  }

  lemma ReportsLast(lens: seq<nat>, mask: seq<bool>, blocks: seq<Block>, k: nat, h: nat)
    requires k < |blocks|
    ensures Reports(lens, mask, blocks[..k + 1], h) == Reports(lens, mask, blocks[..k], h) + ReportsOne(lens, mask, blocks[k], k == 0, h)
  {
    hide ReportsOne;
    assert blocks[..k + 1][..k] == blocks[..k];
  }

  lemma DeliveredOne(events: seq<Event>, lens: seq<nat>, mask: seq<bool>, b: Block, first: bool, h: nat)
    requires Delivers(events, lens, mask, b.contents, ReportsFrame(first, b.section.begTim, b.contents.times), b.section.begTim)
    requires h < |lens|
    ensures Of(events, h) == ReportsOne(lens, mask, b, first, h)
  {
    hide Of, ToPlay, Expected, ReportsFrame;
    assert DeliversOne(events, lens, mask, b.contents, ReportsFrame(first, b.section.begTim, b.contents.times), b.section.begTim, h);
  }

  /** Time does not run backwards, within blocks and from each to the next. */
  ghost predicate Chronological(blocks: seq<Block>) {
    && (forall k :: 0 <= k < |blocks| ==> InOrderWithin(blocks[k]))
    && forall k :: 0 < k < |blocks| ==> EndOf(blocks[k - 1]) <= blocks[k].section.begTim
  }

  ghost predicate InOrderWithin(b: Block) {
    b.contents.times != [] && Ascending(b.contents.times) && b.section.begTim <= b.contents.times[0]
  }

  ghost function EndOf(b: Block): nat {
    if b.contents.times == [] then 0 else b.contents.times[|b.contents.times| - 1]
  }

  /** Callbacks in time order, all up to the end of the blocks read. */
  ghost predicate CallbacksInOrder(events: seq<Event>, blocks: seq<Block>) {
    && (forall j, k :: 0 <= j < k < |events| ==> events[j].time <= events[k].time)
    && forall k :: 0 <= k < |events| ==> blocks != [] && events[k].time <= EndOf(blocks[|blocks| - 1])
  }

  lemma CallbacksSnoc(events: seq<Event>, blocks: seq<Block>, k: nat, more: seq<Event>)
    requires Chronological(blocks) && k < |blocks| && CallbacksInOrder(events, blocks[..k])
    requires forall i, j :: 0 <= i < j < |more| ==> more[i].time <= more[j].time
    requires forall i :: 0 <= i < |more| ==> blocks[k].section.begTim <= more[i].time <= EndOf(blocks[k])
    ensures CallbacksInOrder(events + more, blocks[..k + 1])
  {
    var b := blocks[k];
    assert b.contents.times[0] <= EndOf(b);
    assert k > 0 ==> EndOf(blocks[k - 1]) <= b.section.begTim;
    forall i | 0 <= i < |events| ensures events[i].time <= b.section.begTim {
    }
  }

  ghost predicate KnownHandles(events: seq<Event>, n: nat) {
    forall e :: e in events ==> 1 <= e.handle <= n
  }

  /** Where the reader stands when it has read the first `k` blocks. */
  ghost predicate Standing(z: Section.Zlib, file: seq<byte>, blkpos: nat, lens: seq<nat>, mask: seq<bool>,
                           blocks: seq<Block>, k: nat, tables: ChainIndex.State, events: seq<Event>)
  {
    && k <= |blocks| && Holds(file, blkpos, z, blocks[k..]) && CleanRun(tables, mask, blocks[k..])
    && (Chronological(blocks) ==> CallbacksInOrder(events, blocks[..k])) && KnownHandles(events, |lens|)
    && forall h :: 0 <= h < |lens| ==> Of(events, h) == Reports(lens, mask, blocks[..k], h)
  }

  lemma StandingStart(z: Section.Zlib, file: seq<byte>, blkpos: nat, lens: seq<nat>, mask: seq<bool>,
                      blocks: seq<Block>, tables: ChainIndex.State)
    requires Holds(file, blkpos, z, blocks) && CleanRun(tables, mask, blocks)
    ensures Standing(z, file, blkpos, lens, mask, blocks, 0, tables, [])
  {
    hide Holds, CleanRun, Chronological;
    assert blocks[0..] == blocks && blocks[..0] == [];
  }

  lemma StandingEnd(z: Section.Zlib, file: seq<byte>, blkpos: nat, lens: seq<nat>, mask: seq<bool>,
                    blocks: seq<Block>, k: nat, tables: ChainIndex.State, events: seq<Event>)
    requires Standing(z, file, blkpos, lens, mask, blocks, k, tables, events)
    ensures k <= |blocks| && blkpos <= |file|
    ensures k == |blocks| <==> blkpos == |file| || (blkpos < |file| && file[blkpos] == Section.SKIP)
    ensures k == |blocks| ==> forall h :: 0 <= h < |lens| ==> Of(events, h) == Reports(lens, mask, blocks, h)
    ensures k == |blocks| && Chronological(blocks) ==> CallbacksInOrder(events, blocks)
    ensures KnownHandles(events, |lens|)
  {
    hide Holds, CleanRun, Of, CallbacksInOrder, Chronological, KnownHandles;
    HoldsHere(file, blkpos, z, blocks[k..]);
    if k == |blocks| { assert blocks[..k] == blocks; }
  }

  lemma HandlesKnown(events: seq<Event>, more: seq<Event>, lens: seq<nat>, mask: seq<bool>, c: Contents, frame: bool, begTim: nat)
    requires KnownHandles(events, |lens|) && Delivers(more, lens, mask, c, frame, begTim)
    ensures KnownHandles(events + more, |lens|)
  {
    hide DeliversOne;
  }

  lemma TimesWithin(blocks: seq<Block>, k: nat)
    requires Chronological(blocks) && k < |blocks|
    ensures var b := blocks[k];
      && b.contents.times != [] && Ascending(b.contents.times) && b.section.begTim <= b.contents.times[0]
      && EndOf(b) == b.contents.times[|b.contents.times| - 1]
  {
    assert InOrderWithin(blocks[k]);
  }

  /** Read one more block. */
  method ReadNext(z: Section.Zlib, file: seq<byte>, blkpos: nat, lens: seq<nat>, mask: seq<bool>, table: array<int>,
                  lengths: array<nat>, pidx: nat, secnum: nat, events: seq<Event>, ghost blocks: seq<Block>)
    returns (pidx': nat, blkpos': nat, events': seq<Event>)
    requires Section.Sound(z) && Readable(z, lens, blocks) && |mask| == |lens|
    requires table.Length == lengths.Length == |lens| + 1 && pidx < table.Length && secnum < |blocks|
    requires Standing(z, file, blkpos, lens, mask, blocks, secnum, Before(table[..], lengths[..], pidx), events)
    modifies table, lengths
    ensures pidx' < table.Length && blkpos' > blkpos
    ensures Standing(z, file, blkpos', lens, mask, blocks, secnum + 1, Before(table[..], lengths[..], pidx'), events')
  {
    hide Holds, Readable, CleanRun, Clean, Section.Fits, Describes, Delivers, ReportsOne, Section.Sound, Of, At, After,
      Section.Wire, Expected, Reports, CallbacksInOrder, Chronological, Ascending, BlockOk, KnownHandles;
    HoldsHere(file, blkpos, z, blocks[secnum..]);
    ghost var b := blocks[secnum];
    BlockReadable(z, lens, blocks, secnum, Before(table[..], lengths[..], pidx), mask);
    WireSome(z, b.section);
    var more;
    ghost var used;
    more, pidx', blkpos', used := ReadBlock(z, file, blkpos, lens, mask, table, lengths, pidx, secnum == 0, b.section, b.contents);
    events' := events + more;
    ReportsSnoc(lens, mask, blocks, secnum, events, more);
    HandlesKnown(events, more, lens, mask, b.contents, ReportsFrame(secnum == 0, b.section.begTim, b.contents.times), b.section.begTim);
    if Chronological(blocks) {
      TimesWithin(blocks, secnum);
      CallbacksSnoc(events, blocks, secnum, more);
    }
    assert blocks[secnum..][1..] == blocks[secnum + 1..];
  }

  lemma WireSome(z: Section.Zlib, s: Section.Section)
    ensures |Section.Wire(z, s)| > 0
  {
    hide Section.Frame, Section.Chains;
  }

  /** The loop over the blocks of a file, from the first block on. */
  method ReadFile(z: Section.Zlib, file: seq<byte>, start: nat, lens: seq<nat>, mask: seq<bool>, ghost blocks: seq<Block>)
    returns (events: seq<Event>)
    requires Section.Sound(z) && Holds(file, start, z, blocks) && Readable(z, lens, blocks)
    requires |mask| == |lens|
    requires CleanRun(Before(seq(|lens| + 1, _ => 0), seq(|lens| + 1, _ => 0), 0), mask, blocks)
    ensures forall h :: 0 <= h < |lens| ==> Of(events, h) == Reports(lens, mask, blocks, h)
    ensures Chronological(blocks) ==> CallbacksInOrder(events, blocks)
    ensures KnownHandles(events, |lens|)
  {
    hide CallbacksInOrder, Chronological, KnownHandles, Holds, Readable, CleanRun, Section.Sound, Of, Standing, Reports;
    var table, lengths := new int[|lens| + 1](_ => 0), new nat[|lens| + 1](_ => 0);
    var pidx: nat, blkpos: nat, secnum: nat := 0, start, 0;
    events := [];
    assert table[..] == seq(|lens| + 1, _ => 0) && lengths[..] == seq(|lens| + 1, _ => 0);
    StandingStart(z, file, blkpos, lens, mask, blocks, Before(table[..], lengths[..], pidx));
    StandingEnd(z, file, blkpos, lens, mask, blocks, 0, Before(table[..], lengths[..], pidx), events);
    while blkpos < |file| && file[blkpos] != Section.SKIP
      invariant secnum <= |blocks| && pidx < table.Length && blkpos <= |file|
      invariant Standing(z, file, blkpos, lens, mask, blocks, secnum, Before(table[..], lengths[..], pidx), events)
      decreases |file| - blkpos
    {
      StandingEnd(z, file, blkpos, lens, mask, blocks, secnum, Before(table[..], lengths[..], pidx), events);
      pidx, blkpos, events := ReadNext(z, file, blkpos, lens, mask, table, lengths, pidx, secnum, events, blocks);
      secnum := secnum + 1;
      StandingEnd(z, file, blkpos, lens, mask, blocks, secnum, Before(table[..], lengths[..], pidx), events);
    }
    StandingEnd(z, file, blkpos, lens, mask, blocks, secnum, Before(table[..], lengths[..], pidx), events);
  }

  lemma BlockReadable(z: Section.Zlib, lens: seq<nat>, blocks: seq<Block>, k: nat, before: ChainIndex.State, mask: seq<bool>)
    requires k < |blocks| && Readable(z, lens, blocks) && CleanRun(before, mask, blocks[k..])
    ensures Describes(blocks[k].section, lens, blocks[k].contents) && Section.Fits(z, blocks[k].section)
    ensures Clean(before, mask, blocks[k].contents)
    ensures CleanRun(After(before, blocks[k].contents.entries, |blocks[k].section.area|), mask, blocks[k..][1..])
  {
    hide Clean, Section.Fits, Describes, After;
    assert BlockOk(lens, blocks[k]);
  }
}
