/** The index tables of the iterating reader of src/fst/fstapi.c, which it keeps from
    block to block: when what is left over in them is taken for something it is
    not, and sections in which it is not. */
module KeptTables {
  import opened Bytes
  import opened Chain
  import opened Course
  import opened Reader
  import opened Session
  import opened TraceFile
  import opened Writer
  import ChainIndex
  import ChainStore
  import FastLz
  import Frame
  import Lz4
  import Stored
  import TimeTable

  // ----- chains -----

  /** The chain of a signal in a section. */
  ghost function ChainOf(lens: seq<nat>, p: Part, h: nat): seq<byte> {
    if h < |lens| && h < |p.log| && lens[h] >= 1 && Chain.Ordered(lens[h], 0, p.log[h]) then Encode(lens[h], 0, p.log[h]) else []
  }

  /** The bytes `a` are a form that `b` could be compressed to. */
  ghost predicate Confusable(a: seq<byte>, b: seq<byte>) {
    |b| > 32 && |a| < |b| && (FastLz.Restores(a, b) || Lz4.Restores(a, b))
  }

  /** Neither of two signals' chains can be taken for the other's. */
  ghost predicate Apart(lens: seq<nat>, p: Part, g: nat, h: nat) {
    !Confusable(ChainOf(lens, p, g), ChainOf(lens, p, h)) && !Confusable(ChainOf(lens, p, h), ChainOf(lens, p, g))
  }

  /** The chain of no selected signal can be taken for that of a signal before it. */
  ghost predicate Separate(lens: seq<nat>, mask: seq<bool>, p: Part) {
    forall g, h :: 0 <= g < h < |lens| && h < |mask| && mask[h] ==> Apart(lens, p, g, h)
  }

  ghost predicate HasChanges(p: Part, h: nat) {
    h < |p.log| && p.log[h] != []
  }

  ghost predicate NoneBefore(p: Part, h: nat) {
    forall g :: 0 <= g < h ==> !HasChanges(p, g)
  }

  /** The signal's chain is that of no signal before it, and so is stored. */
  ghost predicate Own(lens: seq<nat>, p: Part, h: nat) {
    HasChanges(p, h) && forall g :: 0 <= g < h ==> Apart(lens, p, g, h) && ChainOf(lens, p, g) != ChainOf(lens, p, h)
  }

  /** What is left over of the signal cannot be taken for a reference in section
      `p` after section `before`. Only the length of the signal stored last before
      is touched, and only if it does not change now and another one before it is
      the first that does. */
  ghost predicate Steady(lens: seq<nat>, before: Part, p: Part, h: nat) {
    || HasChanges(p, h) || HasChanges(p, 0) || NoneBefore(p, h)
    || !HasChanges(before, h) || NoneBefore(before, h) || exists g :: h < g < |lens| && Own(lens, before, g)
  }

  // ----- a section's block -----

  lemma EntriesCount(lens: seq<nat>, b: Block)
    requires BlockOk(lens, b)
    ensures |b.contents.entries| == |b.contents.forms| == |lens|
    ensures ChainIndex.WellFormed(b.contents.entries, |b.section.area|) && ChainIndex.SomePosition(b.contents.entries)
    ensures ChainIndex.StartsAtOne(b.contents.entries, |b.section.area|)
  {
    hide Logged, Frame.FrameOf, TimeTable.Deltas, ChainIndex.Encode, ChainStore.Total, ChainStore.Slot, Encode,
      ChainIndex.FirstPos;
  }

  /** A signal has an entry exactly if it changes. */
  lemma ChainIsOf(lens: seq<nat>, b: Block, p: Part, h: nat)
    requires BlockOk(lens, b) && BlockOf(b, p) && h < |lens|
    ensures h < |b.contents.chains| && b.contents.chains[h] == ChainOf(lens, p, h)
    ensures h < |b.contents.entries| && (b.contents.entries[h] != 0 <==> HasChanges(p, h))
  {
    hide Encode, ChainStore.Laid, Frame.FrameOf, TimeTable.Deltas, ChainIndex.Encode, ChainStore.Total;
    var c := b.contents;
    LoggedAt(lens, c.log, |c.times|, h);
    ChainStore.LaidSizes(c.mode, b.section.area, c.entries, c.forms, c.chains);
    ChainStore.NoEntry(c.mode, b.section.area, c.entries, c.forms, c.chains, h);
  }

  lemma LaidOf(lens: seq<nat>, b: Block)
    requires BlockOk(lens, b)
    ensures var c := b.contents;
      && ChainStore.Laid(c.mode, b.section.area, c.entries, c.forms, c.chains)
      && |c.entries| == |c.forms| == |c.chains| == |lens|
      && forall i :: 0 <= i < |c.entries| && c.entries[i] < 0 ==> -c.entries[i] - 1 < i
  {
    hide Logged, Frame.FrameOf, TimeTable.Deltas, ChainIndex.Encode, ChainStore.Total, ChainStore.Slot, Encode;
  }

  /** Two chains with the same stored bytes that are not of the same form can be
      taken for each other. */
  lemma MixedConfusable(lens: seq<nat>, b: Block, p: Part, h: nat)
    requires BlockOk(lens, b) && BlockOf(b, p) && h < |lens|
    ensures |b.contents.entries| == |b.contents.forms| == |lens|
    ensures b.contents.entries[h] < 0 ==>
      var c, j := b.contents, -b.contents.entries[h] - 1;
      j < h && (Apart(lens, p, j, h) ==> !ChainStore.Mixed(c.entries, c.forms, h))
  {
    hide BlockOk, BlockOf, FastLz.Restores, Lz4.Restores, At, ChainIndex.NextPos, ChainOf, Encode;
    LaidOf(lens, b);
    var c := b.contents;
    assert ChainStore.Slot(c.mode, b.section.area, c.entries, c.forms, c.chains, h);
    if c.entries[h] < 0 {
      var j: nat := -c.entries[h] - 1;
      assert ChainStore.Slot(c.mode, b.section.area, c.entries, c.forms, c.chains, j);
      ChainIsOf(lens, b, p, h);
      ChainIsOf(lens, b, p, j);
    }
  }

  lemma NotMixed(lens: seq<nat>, mask: seq<bool>, b: Block, p: Part, h: nat)
    requires BlockOk(lens, b) && BlockOf(b, p) && Separate(lens, mask, p) && h < |lens| == |mask| && mask[h]
    ensures |b.contents.entries| == |b.contents.forms| == |lens|
    ensures var c := b.contents;
      && (c.entries[h] < 0 ==> -c.entries[h] - 1 < h)
      && !ChainStore.Mixed(c.entries, c.forms, h)
  {
    hide BlockOk, BlockOf, Apart;
    MixedConfusable(lens, b, p, h);
  }

  /** A chain of its own has a position of its own. */
  lemma OwnStored(lens: seq<nat>, b: Block, p: Part, h: nat)
    requires BlockOk(lens, b) && BlockOf(b, p) && h < |lens| && Own(lens, p, h)
    ensures |b.contents.entries| == |lens| && b.contents.entries[h] > 0
  {
    hide BlockOk, BlockOf, Apart, ChainOf, ChainStore.Mixed, ChainStore.Laid;
    LaidOf(lens, b);
    var c := b.contents;
    ChainIsOf(lens, b, p, h);
    MixedConfusable(lens, b, p, h);
    if c.entries[h] < 0 {
      var j: nat := -c.entries[h] - 1;
      ChainIsOf(lens, b, p, j);
      SharedChain(lens, b, h);
    }
  }

  lemma SharedChain(lens: seq<nat>, b: Block, h: nat)
    requires BlockOk(lens, b) && h < |lens|
    ensures var c := b.contents;
      |c.entries| == |c.forms| == |c.chains| == |lens| &&
      (c.entries[h] < 0 ==>
        (0 <= -c.entries[h] - 1 < h
         && (!ChainStore.Mixed(c.entries, c.forms, h) ==> c.chains[-c.entries[h] - 1] == c.chains[h])))
  {
    hide BlockOk, Stored.Holds, At, ChainIndex.NextPos;
    LaidOf(lens, b);
    var c := b.contents;
    assert ChainStore.Slot(c.mode, b.section.area, c.entries, c.forms, c.chains, h);
    if c.entries[h] < 0 {
      var j: nat := -c.entries[h] - 1;
      assert ChainStore.Slot(c.mode, b.section.area, c.entries, c.forms, c.chains, j);
      Stored.SameBytes(c.mode, c.forms[j], c.chains[j], c.forms[h], c.chains[h]);
    }
  }

  /** A chain of at most 32 bytes is stored as it is. */
  lemma ShortStored(lens: seq<nat>, b: Block, h: nat)
    requires BlockOk(lens, b) && h < |lens|
    ensures var c := b.contents;
      && |c.entries| == |c.forms| == |c.chains| == |lens| && (c.entries[h] < 0 ==> 0 <= -c.entries[h] - 1 < h)
      && (c.entries[h] != 0 && |c.chains[h]| <= 32 ==> c.forms[h] == Stored.Raw(c.chains[h]))
      && (c.entries[h] < 0 ==> c.entries[-c.entries[h] - 1] > 0 && c.forms[-c.entries[h] - 1].bytes == c.forms[h].bytes)
      && (c.entries[h] > 0 && |c.chains[h]| <= 32 ==>
            ChainIndex.NextPos(c.entries, h, |b.section.area|) == c.entries[h] + 1 + |c.chains[h]|)
  {
    hide BlockOk, Stored.Restores, At, ChainIndex.NextPos;
    LaidOf(lens, b);
    EntriesCount(lens, b);
    var c := b.contents;
    assert ChainStore.Slot(c.mode, b.section.area, c.entries, c.forms, c.chains, h);
  }

  /** The first chain stored is at 1. */
  lemma FirstAt(lens: seq<nat>, b: Block, h: nat)
    requires BlockOk(lens, b) && h < |lens|
    ensures |b.contents.entries| == |lens|
    ensures b.contents.entries[h] != 0 && (forall g :: 0 <= g < h ==> b.contents.entries[g] == 0) ==> b.contents.entries[h] == 1
  {
    hide BlockOk, ChainIndex.FirstPos;
    EntriesCount(lens, b);
    ShortStored(lens, b, h);
    FirstBounds(b.contents.entries, h);
    ChainIndex.FirstPosFound(b.contents.entries);
  }

  // ----- from one block to the next -----

  /** What the tables hold before the first block, all being zero. */
  ghost function ZeroTables(n: nat): ChainIndex.State {
    Before(seq(n + 1, _ => 0), seq(n + 1, _ => 0), 0)
  }

  /** The tables of the reader for `n` signals, between blocks. */
  ghost predicate Tables(s: ChainIndex.State, n: nat) {
    |s.table| == |s.lengths| == n + 1 && s.idx == 0 && s.pidx <= n
  }

  lemma TablesOk(s: ChainIndex.State, n: nat)
    requires Tables(s, n)
    ensures ChainIndex.StateOk(s, n)
  {
  }

  lemma AfterShape(before: ChainIndex.State, entries: seq<int>, total: nat)
    requires Tables(before, |entries|)
    ensures Tables(After(before, entries, total), |entries|)
  {
    hide ChainIndex.Tables, ChainIndex.Loaded;
  }

  /** Before block `k`: the tables are zero, or left by the block before. */
  ghost predicate Left(s: ChainIndex.State, lens: seq<nat>, blocks: seq<Block>, k: nat) {
    && k <= |blocks| && Tables(s, |lens|)
    && if k == 0 then s == ZeroTables(|lens|) else ChainIndex.LeftBy(s, blocks[k - 1].contents.entries)
  }

  lemma LeftNext(s: ChainIndex.State, lens: seq<nat>, blocks: seq<Block>, k: nat)
    requires Left(s, lens, blocks, k) && k < |blocks| && BlockOk(lens, blocks[k])
    ensures var c := blocks[k].contents;
      |c.entries| == |lens| && Left(After(s, c.entries, |blocks[k].section.area|), lens, blocks, k + 1)
  {
    hide BlockOk, ChainIndex.Tables, ChainIndex.Loaded, ChainIndex.LeftBy, ChainIndex.SomePosition, ChainIndex.WellFormed;
    EntriesCount(lens, blocks[k]);
    var e, total := blocks[k].contents.entries, |blocks[k].section.area|;
    AfterShape(s, e, total);
    ChainIndex.Leaves(s, e, total, After(s, e, total));
  }

  /** The signal stored last, if any. */
  lemma LastWhere(s: ChainIndex.State, lens: seq<nat>, blocks: seq<Block>, k: nat)
    requires Left(s, lens, blocks, k) && (k > 0 ==> BlockOk(lens, blocks[k - 1]))
    ensures 0 <= s.table[s.pidx] < 0x8000_0000
  {
    hide BlockOk;
    if k > 0 { EntriesCount(lens, blocks[k - 1]); }
  }

  /** In a steady section nothing left over of the signal is taken for a reference. */
  lemma SteadyQuiet(lens: seq<nat>, blocks: seq<Block>, parts: seq<Part>, k: nat, s: ChainIndex.State, h: nat)
    requires AllOk(lens, blocks) && BlocksOf(blocks, parts) && k < |blocks| && h < |lens| && Left(s, lens, blocks, k)
    requires k > 0 ==> Steady(lens, parts[k - 1], parts[k], h)
    requires !ChainIndex.Refers(s.lengths[h], h)
    ensures |blocks[k].contents.entries| == |lens| && ChainIndex.StateOk(s, |lens|)
    ensures ChainIndex.Quiet(s, blocks[k].contents.entries, h)
  {
    hide BlockOk, BlockOf, Own, ChainIndex.FirstPos, ChainIndex.StaleLength, ChainIndex.Refers, Steady, ChainIndex.WellFormed,
      ChainIndex.SomePosition, ChainIndex.StartsAtOne;
    assert BlockOk(lens, blocks[k]);
    assert k > 0 ==> BlockOk(lens, blocks[k - 1]);
    EntriesCount(lens, blocks[k]);
    var e := blocks[k].contents.entries;
    LastWhere(s, lens, blocks, k);
    if e[h] == 0 {
      ChainIndex.StaleRefers(s, e, |blocks[k].section.area|, h);
      if k > 0 && ChainIndex.Overtaken(s, e, h) {
        assert BlockOf(blocks[k], parts[k]) && BlockOf(blocks[k - 1], parts[k - 1]);
        NotSteady(lens, blocks[k - 1], parts[k - 1], blocks[k], parts[k], s, h);
      }
    }
  }

  /** Where a signal is overtaken, it was the last one stored, and not the first; it
      has no entry now, and another one before it is the first that has, which is
      not the first of all. */
  lemma OvertakenMeans(s: ChainIndex.State, prev: seq<int>, cur: seq<int>, a: nat, b: nat, h: nat)
    requires |prev| == |cur| < |s.table| && ChainIndex.LeftBy(s, prev) && ChainIndex.Overtaken(s, cur, h)
    requires ChainIndex.WellFormed(prev, a) && ChainIndex.SomePosition(prev) && ChainIndex.StartsAtOne(prev, a)
    requires ChainIndex.WellFormed(cur, b) && ChainIndex.SomePosition(cur) && ChainIndex.StartsAtOne(cur, b)
    ensures h < |cur| && cur[h] == 0 && prev[h] != 0 && cur[0] == 0 && forall g :: h < g < |prev| ==> prev[g] <= 0
    ensures ChainIndex.FirstPos(cur, |cur|) < h && cur[ChainIndex.FirstPos(cur, |cur|)] != 0
    ensures ChainIndex.FirstPos(prev, |prev|) < h && prev[ChainIndex.FirstPos(prev, |prev|)] != 0
  {
    hide ChainIndex.FirstPos;
    ChainIndex.FirstPosFound(cur);
    ChainIndex.FirstPosFound(prev);
    FirstBounds(prev, h);
    FirstBounds(cur, 0);
    assert cur[0] >= 0;
  }

  lemma FirstBounds(entries: seq<int>, h: nat)
    requires h < |entries|
    ensures entries[h] > 0 ==> ChainIndex.FirstPos(entries, |entries|) <= h
  {
  }

  lemma NotSteady(lens: seq<nat>, a: Block, before: Part, b: Block, p: Part, s: ChainIndex.State, h: nat)
    requires BlockOk(lens, a) && BlockOf(a, before) && BlockOk(lens, b) && BlockOf(b, p) && h < |lens|
    requires Tables(s, |lens|) && ChainIndex.LeftBy(s, a.contents.entries)
    requires |b.contents.entries| == |lens| && ChainIndex.Overtaken(s, b.contents.entries, h)
    ensures !Steady(lens, before, p, h)
  {
    hide BlockOk, BlockOf, Own, ChainIndex.FirstPos, HasChanges, ChainIndex.WellFormed, ChainIndex.SomePosition,
      ChainIndex.StartsAtOne, ChainIndex.Overtaken, ChainIndex.LeftBy;
    EntriesCount(lens, a);
    EntriesCount(lens, b);
    var prev, cur := a.contents.entries, b.contents.entries;
    OvertakenMeans(s, prev, cur, |a.section.area|, |b.section.area|, h);
    ChainIsOf(lens, b, p, h);
    ChainIsOf(lens, b, p, 0);
    ChainIsOf(lens, b, p, ChainIndex.FirstPos(cur, |cur|));
    ChainIsOf(lens, a, before, h);
    ChainIsOf(lens, a, before, ChainIndex.FirstPos(prev, |prev|));
    if g :| h < g < |lens| && Own(lens, before, g) {
      OwnStored(lens, a, before, g);
    }
  }

  /** Chains are kept apart in every section, and from the second section on every
      selected signal is steady. */
  ghost predicate Undisturbed(lens: seq<nat>, mask: seq<bool>, parts: seq<Part>) {
    && (forall k :: 0 <= k < |parts| ==> Separate(lens, mask, parts[k]))
    && forall k, h :: 0 < k < |parts| && 0 <= h < |mask| && mask[h] ==> Steady(lens, parts[k - 1], parts[k], h)
  }

  lemma CleanOne(lens: seq<nat>, mask: seq<bool>, b: Block, p: Part, s: ChainIndex.State)
    requires BlockOk(lens, b) && BlockOf(b, p) && |mask| == |lens| && Separate(lens, mask, p) && Tables(s, |lens|)
    requires |b.contents.entries| == |lens| && forall h :: 0 <= h < |mask| && mask[h] ==> ChainIndex.Quiet(s, b.contents.entries, h)
    ensures Clean(s, mask, b.contents)
    ensures forall h :: 0 <= h < |mask| && mask[h] ==>
      !ChainIndex.Refers(After(s, b.contents.entries, |b.section.area|).lengths[h], h)
  {
    hide BlockOk, BlockOf, Separate, ChainIndex.Mistaken, ChainIndex.Quiet, ChainIndex.Tables, ChainIndex.Loaded,
      ChainIndex.SomePosition, ChainIndex.Refers, ChainStore.Laid;
    EntriesCount(lens, b);
    LaidOf(lens, b);
    forall h | 0 <= h < |mask| && mask[h]
      ensures !ChainStore.Mixed(b.contents.entries, b.contents.forms, h) && !ChainIndex.Mistaken(s, b.contents.entries, h)
      ensures !ChainIndex.Refers(After(s, b.contents.entries, |b.section.area|).lengths[h], h)
    {
      NotMixed(lens, mask, b, p, h);
      ChainIndex.QuietStays(s, b.contents.entries, |b.section.area|, h);
    }
  }

  lemma {:induction false} CleanFrom(lens: seq<nat>, mask: seq<bool>, blocks: seq<Block>, parts: seq<Part>, k: nat, s: ChainIndex.State)
    requires AllOk(lens, blocks) && BlocksOf(blocks, parts) && |mask| == |lens| && Undisturbed(lens, mask, parts)
    requires Left(s, lens, blocks, k) && forall h :: 0 <= h < |mask| && mask[h] ==> !ChainIndex.Refers(s.lengths[h], h)
    ensures CleanRun(s, mask, blocks[k..])
    decreases |blocks| - k
  {
    hide BlockOk, BlockOf, Separate, Steady, Clean, Left, ChainIndex.Quiet, ChainIndex.Refers, After;
    LeftTables(s, lens, blocks, k);
    if k < |blocks| {
      var b := blocks[k];
      assert BlockOk(lens, b) && BlockOf(b, parts[k]) && Separate(lens, mask, parts[k]);
      EntriesCount(lens, b);
      forall h | 0 <= h < |mask| && mask[h] ensures ChainIndex.Quiet(s, b.contents.entries, h) {
        SteadyQuiet(lens, blocks, parts, k, s, h);
      }
      CleanOne(lens, mask, b, parts[k], s);
      LeftNext(s, lens, blocks, k);
      var after := After(s, b.contents.entries, |b.section.area|);
      LeftTables(after, lens, blocks, k + 1);
      CleanFrom(lens, mask, blocks, parts, k + 1, after);
      assert blocks[k..][1..] == blocks[k + 1..];
    }
  }

  lemma LeftTables(s: ChainIndex.State, lens: seq<nat>, blocks: seq<Block>, k: nat)
    requires Left(s, lens, blocks, k)
    ensures k <= |blocks| && Tables(s, |lens|)
  {
    hide ChainIndex.LeftBy;
  }

  lemma ZeroRefersNot(n: nat, h: nat)
    requires h < n
    ensures Tables(ZeroTables(n), n) && !ChainIndex.Refers(ZeroTables(n).lengths[h], h)
  {
  }

  /** In undisturbed sections nothing in the reader's tables is ever mistaken. */
  lemma RunClean(lens: seq<nat>, mask: seq<bool>, blocks: seq<Block>, parts: seq<Part>)
    requires AllOk(lens, blocks) && BlocksOf(blocks, parts) && |mask| == |lens| && Undisturbed(lens, mask, parts)
    ensures CleanRun(ZeroTables(|lens|), mask, blocks)
  {
    hide AllOk, BlocksOf, Undisturbed, ChainIndex.Refers;
    forall h | 0 <= h < |lens| ensures !ChainIndex.Refers(ZeroTables(|lens|).lengths[h], h) {
      ZeroRefersNot(|lens|, h);
    }
    CleanFrom(lens, mask, blocks, parts, 0, ZeroTables(|lens|));
    assert blocks[0..] == blocks;
  }

  // ----- exactly -----

  /** For the first block of a file the reader's tables are fresh, and only
      chains stored in different forms can be mixed up. */
  lemma FirstBlockClean(lens: seq<nat>, mask: seq<bool>, b: Block)
    requires BlockOk(lens, b) && |mask| == |lens|
    ensures Clean(ZeroTables(|lens|), mask, b.contents) <==>
      forall h :: 0 <= h < |mask| && mask[h] && b.contents.entries[h] < 0 ==>
        b.contents.forms[-b.contents.entries[h] - 1].Raw? == b.contents.forms[h].Raw?
  {
    hide ChainIndex.Mistaken, BlockOk;
    EntriesCount(lens, b);
    forall i | 0 <= i < |lens| ensures !ChainIndex.Mistaken(ZeroTables(|lens|), b.contents.entries, i) {
      ChainIndex.FreshTables(ZeroTables(|lens|), b.contents.entries, |b.section.area|, i);
    }
  }

  // Which signals are mistaken, from the positions in the blocks alone.

  /** The signal stored last, or one more than there are. */
  function LastPos(entries: seq<int>, k: nat): (g: nat)
    requires k <= |entries|
    ensures g < |entries| ==> g < k && entries[g] > 0
    ensures forall m :: (if g < |entries| then g + 1 else 0) <= m < k ==> entries[m] <= 0
    ensures g <= |entries|
  {
    if k == 0 then |entries| else if entries[k - 1] > 0 then k - 1 else LastPos(entries, k - 1)
  }

  predicate Wide(es: seq<seq<int>>, n: nat) {
    forall k :: 0 <= k < |es| ==> |es[k]| == n
  }

  /** Which signal the length left of signal `i` refers to after `k` blocks, or -1.
      A signal with an entry owes nothing; one that refers to an earlier signal
      takes over what that one is left with. */
  function Owes(es: seq<seq<int>>, n: nat, k: nat, i: nat): (j: int)
    requires Wide(es, n) && k <= |es| && i < n
    decreases k, i, 0
  {
    if k == 0 || es[k - 1][i] != 0 then -1
    else
      var j := Pending(es, n, k - 1, i);
      if 0 <= j < i then Owes(es, n, k, j) else j
  }

  /** The same while block `k` is read: the signal stored last in the block before is
      left where it was, less where the first one is now. */
  function Pending(es: seq<seq<int>>, n: nat, k: nat, i: nat): (j: int)
    requires Wide(es, n) && k < |es| && i < n
    decreases k, i, 1
  {
    var f := ChainIndex.FirstPos(es[k], n);
    if k > 0 && i == LastPos(es[k - 1], n) && 0 < f < n then
      if f < i && es[k - 1][i] > es[k][f] then es[k - 1][i] - es[k][f] - 1 else -1
    else Owes(es, n, k, i)
  }

  /** Signal `i` is given another one's chain in block `k`. */
  predicate Misled(es: seq<seq<int>>, n: nat, k: nat, i: nat)
    requires Wide(es, n) && k < |es| && i < n
    decreases i
  {
    var j := Pending(es, n, k, i);
    es[k][i] == 0 && 0 <= j < i && (es[k][j] != 0 || Misled(es, n, k, j))
  }

  /** What a length refers to. */
  function RefIn(length: nat): int {
    if ChainIndex.ToInt32(length) < 0 then -ChainIndex.ToInt32(length) - 1 else -1
  }

  lemma RefersIs(length: nat, i: nat)
    ensures ChainIndex.Refers(length, i) <==> 0 <= RefIn(length) < i
  {
    hide ChainIndex.ToInt32;
  }

  lemma SmallRefersNot(length: nat)
    requires length < 0x8000_0000
    ensures RefIn(length) == -1
  {
  }

  lemma StaleIs(s: ChainIndex.State, cur: seq<int>, total: nat, i: nat)
    requires ChainIndex.StateOk(s, |cur|) && ChainIndex.WellFormed(cur, total) && i < |cur| && cur[i] == 0
    requires 0 <= s.table[s.pidx] < 0x8000_0000
    ensures var f := ChainIndex.FirstPos(cur, |cur|);
      RefIn(ChainIndex.StaleLength(s, cur, |cur|, i)) ==
        if i == s.pidx && 0 < f < |cur| then
          if f < i && s.table[i] > cur[f] then s.table[i] - cur[f] - 1 else -1
        else RefIn(s.lengths[i])
  {
    hide ChainIndex.FirstPos, ChainIndex.ToUint32, ChainIndex.ToInt32;
    var f := ChainIndex.FirstPos(cur, |cur|);
    if i == s.pidx && 0 < f < |cur| {
      ChainIndex.FirstPosFound(cur);
      ChainIndex.WordsBack(cur[f] - if i < f then 0 else s.table[i]);
    }
  }

  /** The tables before block `k`, in these terms. */
  ghost predicate Matches(s: ChainIndex.State, es: seq<seq<int>>, n: nat, k: nat)
    requires Wide(es, n) && k <= |es|
  {
    && Tables(s, n) && 0 <= s.table[s.pidx] < 0x8000_0000
    && (if k == 0 then s.pidx == 0 else ChainIndex.LeftBy(s, es[k - 1]))
    && forall i :: 0 <= i < n ==> RefIn(s.lengths[i]) == Owes(es, n, k, i)
  }

  lemma PendingIs(s: ChainIndex.State, es: seq<seq<int>>, n: nat, k: nat, total: nat, i: nat)
    requires Wide(es, n) && k < |es| && Matches(s, es, n, k) && ChainIndex.WellFormed(es[k], total) && i < n && es[k][i] == 0
    ensures RefIn(ChainIndex.StaleLength(s, es[k], n, i)) == Pending(es, n, k, i)
  {
    hide ChainIndex.FirstPos, ChainIndex.StaleLength, RefIn;
    StaleIs(s, es[k], total, i);
    if k > 0 { assert s.pidx == LastPos(es[k - 1], n); }
  }

  lemma {:induction false} MisledIs(s: ChainIndex.State, es: seq<seq<int>>, n: nat, k: nat, total: nat, i: nat)
    requires Wide(es, n) && k < |es| && Matches(s, es, n, k) && ChainIndex.WellFormed(es[k], total) && i < n
    ensures ChainIndex.Mistaken(s, es[k], i) <==> Misled(es, n, k, i)
    decreases i
  {
    hide ChainIndex.StaleLength, Pending, Owes, Matches, ChainIndex.WellFormed;
    MatchesTables(s, es, n, k);
    if es[k][i] == 0 {
      var l := ChainIndex.StaleLength(s, es[k], n, i);
      PendingIs(s, es, n, k, total, i);
      RefersIs(l, i);
      if ChainIndex.Refers(l, i) { MisledIs(s, es, n, k, total, Pending(es, n, k, i)); }
    }
  }

  lemma MatchesTables(s: ChainIndex.State, es: seq<seq<int>>, n: nat, k: nat)
    requires Wide(es, n) && k <= |es| && Matches(s, es, n, k)
    ensures Tables(s, n) && ChainIndex.StateOk(s, n)
  {
  }

  lemma {:induction false} OwesIs(s: ChainIndex.State, es: seq<seq<int>>, n: nat, k: nat, total: nat, i: nat)
    requires Wide(es, n) && k < |es| && Matches(s, es, n, k) && i < n
    requires ChainIndex.WellFormed(es[k], total) && ChainIndex.SomePosition(es[k])
    ensures ChainIndex.StateOk(s, n) && RefIn(ChainIndex.Tables(s, es[k], total).1[i]) == Owes(es, n, k + 1, i)
    decreases i
  {
    hide ChainIndex.StaleLength, Pending, Matches, ChainIndex.SomePosition, ChainIndex.Refers, ChainIndex.Loaded,
      ChainIndex.Resolve, RefIn, ChainIndex.LengthOf;
    MatchesTables(s, es, n, k);
    var cur := es[k];
    if cur[i] != 0 {
      ChainIndex.UsedResolved(s, cur, total, n, i);
      ChainIndex.LengthSmall(cur, i, total);
      SmallRefersNot(ChainIndex.LengthOf(cur, i, total));
    } else {
      var l := ChainIndex.StaleLength(s, cur, n, i);
      PendingIs(s, es, n, k, total, i);
      RefersIs(l, i);
      if ChainIndex.Refers(l, i) {
        var j: nat := Pending(es, n, k, i);
        OwesIs(s, es, n, k, total, j);
        TakesOver(s, cur, total, i, j);
      } else {
        ChainIndex.UnusedLength(s, cur, total, n, i);
      }
    }
  }

  /** A reference that is followed gives the signal the length of the one it is to. */
  lemma TakesOver(s: ChainIndex.State, cur: seq<int>, total: nat, i: nat, j: nat)
    requires ChainIndex.StateOk(s, |cur|) && s.idx == 0 && ChainIndex.WellFormed(cur, total) && ChainIndex.SomePosition(cur)
    requires j < i < |cur| && cur[i] == 0 && RefIn(ChainIndex.StaleLength(s, cur, |cur|, i)) == j
    ensures ChainIndex.Tables(s, cur, total).1[i] == ChainIndex.Tables(s, cur, total).1[j]
  {
    hide ChainIndex.StaleLength, ChainIndex.SomePosition, ChainIndex.Loaded, ChainIndex.Resolve, ChainIndex.ToInt32;
    var m := ChainIndex.Loaded(s, cur, total);
    RefersIs(ChainIndex.StaleLength(s, cur, |cur|, i), i);
    ChainIndex.LoadedIs(s, cur, total, i);
    ChainIndex.ResolveStep(m.table, m.lengths, i + 1);
    ChainIndex.LengthStays(m.table, m.lengths, i + 1, |cur|, i);
    ChainIndex.LengthStays(m.table, m.lengths, i, |cur|, j);
  }

  // ----- over a whole file -----

  ghost function Entries(blocks: seq<Block>): seq<seq<int>> {
    seq(|blocks|, k requires 0 <= k < |blocks| => blocks[k].contents.entries)
  }

  lemma EntriesWide(lens: seq<nat>, blocks: seq<Block>)
    requires AllOk(lens, blocks)
    ensures |Entries(blocks)| == |blocks| && Wide(Entries(blocks), |lens|)
  {
    hide BlockOk;
    forall k | 0 <= k < |blocks| ensures |Entries(blocks)[k]| == |lens| { EntriesCount(lens, blocks[k]); }
  }

  /** No selected signal was given a chain stored in another form than its own, nor
      another one's chain. */
  ghost predicate ReadRight(mask: seq<bool>, blocks: seq<Block>, k: nat)
    requires k < |blocks| && Wide(Entries(blocks), |mask|)
  {
    forall h :: 0 <= h < |mask| && mask[h] ==> !MixedIn(blocks[k].contents, h) && !Misled(Entries(blocks), |mask|, k, h)
  }

  ghost predicate MixedIn(c: Contents, h: nat) {
    h < |c.entries| == |c.forms| && 0 <= -c.entries[h] - 1 < h && ChainStore.Mixed(c.entries, c.forms, h)
  }

  lemma OneExactly(lens: seq<nat>, blocks: seq<Block>, k: nat, s: ChainIndex.State, i: nat)
    requires AllOk(lens, blocks) && Wide(Entries(blocks), |lens|) && k < |blocks| && Matches(s, Entries(blocks), |lens|, k)
    requires i < |lens|
    ensures var c := blocks[k].contents;
      && |c.entries| == |c.forms| == |lens| && (c.entries[i] < 0 ==> -c.entries[i] - 1 < i) && ChainIndex.StateOk(s, |lens|)
      && (ChainIndex.Mistaken(s, c.entries, i) <==> Misled(Entries(blocks), |lens|, k, i))
      && (ChainStore.Mixed(c.entries, c.forms, i) <==> MixedIn(c, i))
      && RefIn(After(s, c.entries, |blocks[k].section.area|).lengths[i]) == Owes(Entries(blocks), |lens|, k + 1, i)
  {
    hide BlockOk, ChainIndex.Mistaken, ChainIndex.SomePosition, ChainIndex.WellFormed, ChainIndex.Tables, ChainIndex.Loaded,
      Matches, Misled, Owes, RefIn, ChainStore.Laid;
    assert BlockOk(lens, blocks[k]);
    EntriesCount(lens, blocks[k]);
    LaidOf(lens, blocks[k]);
    var es, total := Entries(blocks), |blocks[k].section.area|;
    assert es[k] == blocks[k].contents.entries;
    MatchesTables(s, es, |lens|, k);
    MisledIs(s, es, |lens|, k, total, i);
    OwesIs(s, es, |lens|, k, total, i);
  }

  lemma BlockExactly(lens: seq<nat>, mask: seq<bool>, blocks: seq<Block>, k: nat, s: ChainIndex.State)
    requires AllOk(lens, blocks) && Wide(Entries(blocks), |lens|) && k < |blocks| && Matches(s, Entries(blocks), |lens|, k)
    requires |mask| == |lens|
    ensures |blocks[k].contents.entries| == |lens| && Tables(s, |lens|)
    ensures Clean(s, mask, blocks[k].contents) <==> ReadRight(mask, blocks, k)
    ensures Matches(After(s, blocks[k].contents.entries, |blocks[k].section.area|), Entries(blocks), |lens|, k + 1)
  {
    hide BlockOk, ChainIndex.Mistaken, ChainStore.Mixed, ChainStore.Laid, ChainIndex.Tables, ChainIndex.Loaded, Misled, MixedIn,
      Owes, RefIn, ChainIndex.LeftBy, Entries, ChainIndex.SomePosition, ChainIndex.WellFormed;
    assert BlockOk(lens, blocks[k]);
    LaidOf(lens, blocks[k]);
    EntriesCount(lens, blocks[k]);
    var c, total := blocks[k].contents, |blocks[k].section.area|;
    EntryAt(blocks, k);
    forall i | 0 <= i < |lens|
      ensures ChainIndex.Mistaken(s, c.entries, i) <==> Misled(Entries(blocks), |lens|, k, i)
      ensures ChainStore.Mixed(c.entries, c.forms, i) <==> MixedIn(c, i)
      ensures RefIn(After(s, c.entries, total).lengths[i]) == Owes(Entries(blocks), |lens|, k + 1, i)
    {
      OneExactly(lens, blocks, k, s, i);
    }
    AfterShape(s, c.entries, total);
    ChainIndex.Leaves(s, c.entries, total, After(s, c.entries, total));
  }

  lemma EntryAt(blocks: seq<Block>, k: nat)
    requires k < |blocks|
    ensures |Entries(blocks)| == |blocks| && Entries(blocks)[k] == blocks[k].contents.entries
  {
  }

  lemma {:induction false} ExactlyFrom(lens: seq<nat>, mask: seq<bool>, blocks: seq<Block>, k: nat, s: ChainIndex.State)
    requires AllOk(lens, blocks) && |mask| == |lens| && Wide(Entries(blocks), |lens|) && k <= |blocks| == |Entries(blocks)|
    requires Matches(s, Entries(blocks), |lens|, k)
    ensures CleanRun(s, mask, blocks[k..]) <==> forall j :: k <= j < |blocks| ==> ReadRight(mask, blocks, j)
    decreases |blocks| - k
  {
    hide BlockOk, Clean, Matches, ReadRight, After, Entries;
    if k < |blocks| {
      var b := blocks[k];
      BlockExactly(lens, mask, blocks, k, s);
      ExactlyFrom(lens, mask, blocks, k + 1, After(s, b.contents.entries, |b.section.area|));
      assert blocks[k..][1..] == blocks[k + 1..] && blocks[k..][0] == b;
    }
  }

  /** A file is read right if and only if in no block a selected signal was given a
      chain stored in another form than its own, or is misled by what the blocks
      before have left. */
  lemma RunCleanExactly(lens: seq<nat>, mask: seq<bool>, blocks: seq<Block>)
    requires AllOk(lens, blocks) && |mask| == |lens|
    ensures Wide(Entries(blocks), |mask|)
    ensures CleanRun(ZeroTables(|lens|), mask, blocks) <==> forall k :: 0 <= k < |blocks| ==> ReadRight(mask, blocks, k)
  {
    hide AllOk, ReadRight, Entries;
    EntriesWide(lens, blocks);
    ZeroMatches(Entries(blocks), |lens|);
    ExactlyFrom(lens, mask, blocks, 0, ZeroTables(|lens|));
    assert blocks[0..] == blocks;
  }

  lemma ZeroMatches(es: seq<seq<int>>, n: nat)
    requires Wide(es, n)
    ensures Matches(ZeroTables(n), es, n, 0)
  {
    SmallRefersNot(0);
  }

  // ----- the usual case -----

  /** The signal stored last in the block before has no entry, and where it was, less
      where the first one is now, makes it refer to one before it. */
  predicate Overtakes(prev: seq<int>, cur: seq<int>) {
    var g, f := LastPos(prev, |prev|), ChainIndex.FirstPos(cur, |cur|);
    g < |prev| == |cur| && 0 < f < g && cur[g] == 0 && 0 <= prev[g] - cur[f] - 1 < g
  }

  function ReferenceOf(prev: seq<int>, cur: seq<int>): nat
    requires Overtakes(prev, cur)
  {
    prev[LastPos(prev, |prev|)] - cur[ChainIndex.FirstPos(cur, |cur|)] - 1
  }

  /** A signal only ever refers to one that has an entry. */
  ghost predicate NoIdleReference(es: seq<seq<int>>) {
    forall k :: 0 < k < |es| && Overtakes(es[k - 1], es[k]) ==> es[k][ReferenceOf(es[k - 1], es[k])] != 0
  }

  lemma {:induction false} OwesNothing(es: seq<seq<int>>, n: nat, k: nat, i: nat)
    requires Wide(es, n) && k <= |es| && i < n && NoIdleReference(es)
    ensures !(0 <= Owes(es, n, k, i) < i)
    decreases k
  {
    hide ChainIndex.FirstPos, LastPos;
    if k > 0 && es[k - 1][i] == 0 {
      OwesNothing(es, n, k - 1, i);
    }
  }

  /** Then the only signal that can be misled is the one stored last in the block
      before, and it is exactly if it is overtaken. */
  lemma OnlyOvertaken(es: seq<seq<int>>, n: nat, k: nat, i: nat)
    requires Wide(es, n) && k < |es| && i < n && NoIdleReference(es)
    ensures Misled(es, n, k, i) <==> k > 0 && Overtakes(es[k - 1], es[k]) && i == LastPos(es[k - 1], n)
  {
    hide ChainIndex.FirstPos, LastPos, Owes;
    OwesNothing(es, n, k, i);
  }
}
