/** The iterating reader of src/fst/fstapi.c (fstReaderIterBlocks2) on one block:
    from the bytes of the block to the callbacks it makes. */
module Reader {
  import opened Bytes
  import opened Chain
  import opened Merge
  import opened Stored
  import ChainIndex
  import ChainStore
  import opened Frame
  import Section
  import TimeTable

  /** What was written into a block: the times, for every signal its value at
      the beginning and its changes, and how the chains are laid out. */
  datatype Contents = Contents(
    times: seq<nat>, first: seq<seq<byte>>, log: seq<seq<Change>>,
    mode: Mode, entries: seq<int>, forms: seq<Form>, chains: seq<seq<byte>>)

  ghost predicate Logged(lens: seq<nat>, log: seq<seq<Change>>, nTimes: nat) {
    |log| == |lens| && forall h :: 0 <= h < |lens| ==> LoggedOne(lens[h], log[h], nTimes)
  }

  ghost predicate LoggedOne(len: nat, cs: seq<Change>, nTimes: nat) {
    1 <= len && Ordered(len, 0, cs) && forall k :: 0 <= k < |cs| ==> cs[k].tidx < nTimes
  }

  /** `s` is the block of these contents. */
  ghost predicate Describes(s: Section.Section, lens: seq<nat>, c: Contents) {
    && s.maxhandle == |lens| < 0x4000_0000 && |c.entries| == |lens|
    && Widths(lens, c.first) && s.frame == FrameOf(c.first)
    && c.times != [] && TimeTable.Words(c.times) && s.timeData == TimeTable.Deltas(0, c.times) && s.nTimes == |c.times|
    && Logged(lens, c.log, |c.times|)
    && ChainStore.Laid(c.mode, s.area, c.entries, c.forms, c.chains) && ChainStore.NothingTwice(c.entries, c.forms)
    && ChainIndex.SomePosition(c.entries)
    && |s.area| > 0 && s.area[0] == PackType(c.mode) && s.index == ChainIndex.Encode(c.entries)
    && s.memReq == ChainStore.Total(c.chains)
    && forall h :: 0 <= h < |lens| ==> c.chains[h] == Encode(lens[h], 0, c.log[h])
  }

  // ----- the chain of one signal -----

  /** The changes a reader sees of signal `h`. */
  ghost function SeenOf(len: nat, cs: seq<Change>): seq<Change> {
    if Ordered(len, 0, cs) then Seen(0, 0, cs) else []
  }

  /** They are the changes made, up to the spelling of one-bit values, exactly
      when the distance between any two fits its record. */
  lemma SeenOfExactly(len: nat, cs: seq<Change>)
    requires Ordered(len, 0, cs)
    ensures SeenOf(len, cs) == Normal(cs) <==> AllFit(0, cs)
  {
    hide Seen, Normal, AllFit;
    SeenExactly(len, 0, cs);
  }

  lemma ChainDecodes(len: nat, cs: seq<Change>, nTimes: nat, bytes: seq<byte>)
    requires LoggedOne(len, cs, nTimes) && bytes == Encode(len, 0, cs)
    ensures Decode(len, 0, bytes, 0, |bytes|) == Changes(SeenOf(len, cs))
    ensures forall k :: 0 <= k < |SeenOf(len, cs)| ==> SeenOf(len, cs)[k].tidx < nTimes
    ensures |SeenOf(len, cs)| == |cs|
  {
    hide Encode, Decode, Seen;
    assert At(bytes, 0, Encode(len, 0, cs));
    DecodeEncode(len, 0, 0, cs, bytes, 0);
    SeenNotLater(0, 0, cs);
  }

  /** An empty chain means no changes, and no changes mean an empty chain. */
  lemma ChainEmpty(len: nat, cs: seq<Change>)
    requires 1 <= len && Ordered(len, 0, cs)
    ensures Encode(len, 0, cs) == [] <==> cs == []
  {
    hide Record;
    if cs != [] { OrderedTail(len, 0, cs); }
  }

  lemma AtInside(s: seq<byte>, p: nat, part: seq<byte>, q: nat, inner: seq<byte>)
    requires At(s, p, part) && At(part, q, inner)
    ensures At(s, p + q, inner) && q + |inner| <= |part|
  {
    forall k {:trigger inner[k]} | 0 <= k < |inner| ensures s[p + q + k] == inner[k] {
      assert part[q + k] == inner[k];
    }
  }

  /** The pack type is the first byte of the area. */
  method ReadMode(file: seq<byte>, vcStart: nat, ghost area: seq<byte>, ghost expected: Mode) returns (mode: Mode)
    requires At(file, vcStart, area) && |area| > 0 && area[0] == PackType(expected)
    ensures mode == expected
  {
    assert file[vcStart + 0] == area[0];
    mode := if file[vcStart] == 52 then FourPack else FastPack;
  }

  /** Seek to where the index says the chain is, and load it. */
  method LoadChain(file: seq<byte>, vcStart: nat, pos: int, length: nat, mode: Mode,
                   ghost area: seq<byte>, ghost c: Contents, ghost h: nat)
    returns (bytes: seq<byte>)
    requires ChainStore.Laid(c.mode, area, c.entries, c.forms, c.chains) && mode == c.mode
    requires h < |c.entries| && c.chains[h] != [] && !ChainStore.Mixed(c.entries, c.forms, h)
    requires pos == ChainIndex.Where(c.entries, h) && length == ChainIndex.LengthOf(c.entries, h, |area|)
    requires At(file, vcStart, area) && vcStart + |area| + 32 <= |file|
    ensures bytes == c.chains[h]
  {
    hide ChainStore.Laid, Holds, ChainIndex.Where, ChainIndex.LengthOf, Wire, At, ChainStore.Mixed;
    ChainStore.LaidSizes(c.mode, area, c.entries, c.forms, c.chains);
    ghost var j := ChainStore.ChainFound(c.mode, area, c.entries, c.forms, c.chains, h);
    AtInside(file, vcStart, area, pos, Wire(c.forms[j]));
    bytes := Load(mode, file, vcStart + pos, length, c.forms[j], c.chains[j]);
  }

  // ----- the frame -----

  /** The first `n` signals, as far as selected, have been reported with their
      values in the frame. */
  ghost predicate Reported(events: seq<Event>, mask: seq<bool>, begTim: nat, first: seq<seq<byte>>, n: nat) {
    && |mask| == |first|
    && (forall h :: 0 <= h < |first| ==>
          Of(events, h) == if h < n && mask[h] then [Event(begTim, h + 1, first[h])] else [])
    && forall k :: 0 <= k < |events| ==> 1 <= events[k].handle <= |first| && events[k].time == begTim
  }

  /** One signal more, selected or not. */
  lemma ReportOne(events: seq<Event>, mask: seq<bool>, begTim: nat, first: seq<seq<byte>>, n: nat, more: seq<Event>)
    requires Reported(events, mask, begTim, first, n) && n < |first|
    requires more == if mask[n] then events + [Event(begTim, n + 1, first[n])] else events
    ensures Reported(more, mask, begTim, first, n + 1)
  {
    hide Of;
    var e := Event(begTim, n + 1, first[n]);
    forall h: nat ensures Of(events + [e], h) == Of(events, h) + if e.handle == h + 1 then [e] else [] {
      OfSnoc(events, e, h);
    }
  }

  lemma ReportNone(mask: seq<bool>, begTim: nat, first: seq<seq<byte>>)
    requires |mask| == |first|
    ensures Reported([], mask, begTim, first, 0)
  {
  }

  method ReportFrame(lens: seq<nat>, mask: seq<bool>, mu: seq<byte>, begTim: nat, ghost first: seq<seq<byte>>)
    returns (events: seq<Event>)
    requires Widths(lens, first) && |mask| == |lens| && mu == FrameOf(first)
    ensures Reported(events, mask, begTim, first, |lens|)
  {
    hide FrameOf, At, Reported;
    events := [];
    var sigOffs, idx := 0, 0;
    ReportNone(mask, begTim, first);
    while idx < |lens|
      invariant idx <= |lens| && sigOffs == Offset(lens, idx)
      invariant Reported(events, mask, begTim, first, idx)
    {
      FrameAt(lens, first, idx);
      AtSlice(mu, sigOffs, first[idx]);
      AtEnds(mu, sigOffs, first[idx]);
      ghost var before := events;
      if mask[idx] {
        events := events + [Event(begTim, idx + 1, mu[sigOffs..sigOffs + lens[idx]])];
      }
      ReportOne(before, mask, begTim, first, idx, events);
      sigOffs, idx := sigOffs + lens[idx], idx + 1;
    }
  }

  lemma AtEnds(s: seq<byte>, p: nat, part: seq<byte>)
    requires At(s, p, part)
    ensures p + |part| <= |s|
  {
  }

  lemma {:induction false} OfConcat(a: seq<Event>, b: seq<Event>, h: nat)
    ensures Of(a + b, h) == Of(a, h) + Of(b, h)
    decreases |b|
  {
    if b == [] {
      assert a + b == a;
    } else {
      var front, e := b[..|b| - 1], b[|b| - 1];
      assert a + b == (a + front) + [e] && b == front + [e];
      OfConcat(a, front, h);
      OfSnoc(a + front, e, h);
      OfSnoc(front, e, h);
    }
  }

  // ----- loading the chains -----

  /** What is to be played of signal `h` once the first `n` are loaded. */
  ghost function ToPlay(lens: seq<nat>, mask: seq<bool>, log: seq<seq<Change>>, n: nat, h: nat): seq<Change>
    requires h < |lens| == |mask| == |log|
  {
    if h < n && mask[h] then SeenOf(lens[h], log[h]) else []
  }

  /** Bytes of the selected ones among the first `n` chains. */
  ghost function Selected(chains: seq<seq<byte>>, mask: seq<bool>, n: nat): nat
    requires n <= |chains| == |mask|
  {
    if n == 0 then 0 else Selected(chains, mask, n - 1) + if mask[n - 1] then |chains[n - 1]| else 0
  }

  /** The memory a block says it requires is what is loaded when every signal is
      selected, and enough in any case. */
  lemma {:induction false} SelectedTotal(chains: seq<seq<byte>>, mask: seq<bool>)
    requires |mask| == |chains|
    ensures Selected(chains, mask, |chains|) <= ChainStore.Total(chains)
    ensures (forall h :: 0 <= h < |mask| ==> mask[h]) ==> Selected(chains, mask, |chains|) == ChainStore.Total(chains)
    decreases |chains|
  {
    if chains != [] {
      var n := |chains| - 1;
      SelectedTotal(chains[..n], mask[..n]);
      SelectedPrefix(chains, mask, n, n);
    }
  }

  lemma {:induction false} SelectedPrefix(chains: seq<seq<byte>>, mask: seq<bool>, m: nat, n: nat)
    requires n <= m <= |chains| == |mask|
    ensures Selected(chains[..m], mask[..m], n) == Selected(chains, mask, n)
    decreases n
  {
    if n > 0 { SelectedPrefix(chains, mask, m, n - 1); }
  }

  /** The tables lead to the chains of the selected signals. */
  ghost predicate TablesOf(table: seq<int>, lengths: seq<nat>, mask: seq<bool>, entries: seq<int>, total: nat) {
    && ChainIndex.WellFormed(entries, total) && |entries| < |table| == |lengths| && |mask| == |entries|
    && (forall i :: 0 <= i < |entries| && mask[i] ==> table[i] == ChainIndex.Where(entries, i))
    && forall i :: 0 <= i < |entries| && entries[i] != 0 ==> lengths[i] == ChainIndex.LengthOf(entries, i, total)
  }

  lemma TablesAt(table: seq<int>, lengths: seq<nat>, mask: seq<bool>, mode: Mode, area: seq<byte>, c: Contents, i: nat)
    requires ChainStore.Laid(mode, area, c.entries, c.forms, c.chains) && i < |c.entries|
    requires TablesOf(table, lengths, mask, c.entries, |area|)
    ensures i < |table| == |lengths| && i < |mask|
    ensures mask[i] ==> table[i] == ChainIndex.Where(c.entries, i) && (table[i] != 0 <==> c.chains[i] != [])
    ensures mask[i] && table[i] != 0 ==> lengths[i] == ChainIndex.LengthOf(c.entries, i, |area|)
  {
    hide ChainIndex.LengthOf, ChainIndex.NextPos, Holds, At, Wire;
    assert ChainStore.Slot(mode, area, c.entries, c.forms, c.chains, i);
    if c.entries[i] != 0 { ChainIndex.WhereNonZero(c.entries, |area|, i); }
  }

  /** Load the chains of the selected signals and queue each at the time of its
      first change. */
  method LoadChains(file: seq<byte>, vcStart: nat, table: seq<int>, lengths: seq<nat>, mask: seq<bool>, m: Merger,
                    mode: Mode, ghost area: seq<byte>, ghost c: Contents)
    requires ChainStore.Laid(c.mode, area, c.entries, c.forms, c.chains) && mode == c.mode
    requires At(file, vcStart, area) && vcStart + |area| + 32 <= |file|
    requires |c.entries| == |m.lens| == |mask| && Logged(m.lens, c.log, |m.times|)
    requires forall h :: 0 <= h < |m.lens| ==> c.chains[h] == Encode(m.lens[h], 0, c.log[h])
    requires forall h :: 0 <= h < |m.lens| && mask[h] ==> !ChainStore.Mixed(c.entries, c.forms, h)
    requires TablesOf(table, lengths, mask, c.entries, |area|)
    requires m.Valid(0) && m.events == [] && m.mem == []
    requires forall h :: 0 <= h < |m.lens| ==> m.start[h] == m.todo[h] == []
    modifies m, m.tcHead, m.scatter, m.headptr, m.remaining
    ensures m.Valid(0) && m.events == [] && |m.mem| == Selected(c.chains, mask, |mask|)
    ensures |m.start| == |m.lens| && forall h :: 0 <= h < |m.lens| ==> m.start[h] == ToPlay(m.lens, mask, c.log, |mask|, h)
  {
    hide ChainStore.Laid, ChainStore.Mixed, TablesOf, At, Encode, Merger.Valid, LoggedOne, SeenOf;
    ChainStore.LaidSizes(c.mode, area, c.entries, c.forms, c.chains);
    m.Lengths();
    var i := 0;
    while i < |mask|
      invariant i <= |mask| && m.Valid(0) && m.events == [] && |m.mem| == Selected(c.chains, mask, i)
      invariant |m.start| == |m.todo| == |m.lens|
      invariant forall h :: 0 <= h < |m.lens| ==> m.start[h] == m.todo[h] == ToPlay(m.lens, mask, c.log, i, h)
    {
      TablesAt(table, lengths, mask, c.mode, area, c, i);
      LoggedAt(m.lens, c.log, |m.times|, i);
      if table[i] != 0 && mask[i] {
        var bytes := LoadChain(file, vcStart, table[i], lengths[i], mode, area, c, i);
        ChainDecodes(m.lens[i], c.log[i], |m.times|, bytes);
        m.AddChain(i, bytes, SeenOf(m.lens[i], c.log[i]));
      }
      i := i + 1;
    }
  }

  lemma LoggedAt(lens: seq<nat>, log: seq<seq<Change>>, nTimes: nat, h: nat)
    requires Logged(lens, log, nTimes) && h < |lens|
    ensures LoggedOne(lens[h], log[h], nTimes) && Ordered(lens[h], 0, log[h]) && lens[h] >= 1
    ensures Encode(lens[h], 0, log[h]) == [] <==> log[h] == []
    ensures log[h] == [] ==> SeenOf(lens[h], log[h]) == []
  {
    assert LoggedOne(lens[h], log[h], nTimes);
    ChainEmpty(lens[h], log[h]);
  }

  // ----- the whole block -----

  /** What the index tables hold before the block is read. */
  ghost function Before(table: seq<int>, lengths: seq<nat>, pidx: nat): ChainIndex.State {
    ChainIndex.State(table, lengths, 0, pidx, 0, 0)
  }

  /** What they hold afterwards. */
  ghost function After(before: ChainIndex.State, entries: seq<int>, total: nat): (after: ChainIndex.State)
    requires ChainIndex.StateOk(before, |entries|)
    ensures |after.table| == |before.table| && |after.lengths| == |before.lengths|
  {
    var t := ChainIndex.Tables(before, entries, total);
    Before(t.0, t.1, ChainIndex.Loaded(before, entries, total).pidx)
  }

  /** For no selected signal is anything left over in the tables taken for a
      reference, nor was it given a chain stored in another form than its own. */
  ghost predicate Clean(before: ChainIndex.State, mask: seq<bool>, c: Contents) {
    && ChainIndex.StateOk(before, |c.entries|) && |mask| == |c.entries| == |c.forms|
    && (forall i :: 0 <= i < |c.entries| && mask[i] ==> !ChainIndex.Mistaken(before, c.entries, i))
    && (forall i :: 0 <= i < |c.entries| && c.entries[i] < 0 ==> -c.entries[i] - 1 < i)
    && forall h :: 0 <= h < |mask| && mask[h] ==> !ChainStore.Mixed(c.entries, c.forms, h)
  }

  /** Decode the index into the tables. */
  method ReadIndex(index: seq<byte>, table: array<int>, lengths: array<nat>, pidx0: nat, total: nat,
                   ghost area: seq<byte>, ghost mask: seq<bool>, ghost c: Contents)
    returns (pidx: nat)
    requires index == ChainIndex.Encode(c.entries) && total == |area|
    requires ChainStore.Laid(c.mode, area, c.entries, c.forms, c.chains) && ChainIndex.SomePosition(c.entries)
    requires table.Length == lengths.Length == |c.entries| + 1 && pidx0 < table.Length
    requires Clean(Before(table[..], lengths[..], pidx0), mask, c)
    modifies table, lengths
    ensures TablesOf(table[..], lengths[..], mask, c.entries, |area|) && pidx < table.Length
    ensures Before(table[..], lengths[..], pidx) == After(old(Before(table[..], lengths[..], pidx0)), c.entries, |area|)
  {
    hide ChainIndex.Encode, ChainStore.Slot, ChainIndex.Mistaken, ChainIndex.Tables, ChainIndex.Loaded, ChainIndex.SomePosition;
    ghost var before := Before(table[..], lengths[..], pidx0);
    var idx;
    idx, pidx := ChainIndex.DecodeIndex(index, table, lengths, pidx0, total, c.entries);
    ChainIndex.DecodesExactly(before, c.entries, total);
  }

  /** Whether the values at the beginning are reported: only by the first block
      read, and only if it begins before the first time change in it. */
  predicate ReportsFrame(first: bool, begTim: nat, times: seq<nat>) {
    first && times != [] && begTim != times[0]
  }

  /** What is reported of signal `h`. */
  ghost function Expected(lens: seq<nat>, mask: seq<bool>, c: Contents, frame: bool, begTim: nat, h: nat): (r: seq<Event>)
    requires h < |lens| == |mask| == |c.log| == |c.first|
    requires AllInTable(ToPlay(lens, mask, c.log, |mask|, h), |c.times|)
  {
    (if frame && mask[h] then [Event(begTim, h + 1, c.first[h])] else [])
    + Delivery(c.times, h, ToPlay(lens, mask, c.log, |mask|, h))
  }

  /** Every selected signal gets what is expected, and no other gets any. */
  ghost predicate Delivers(events: seq<Event>, lens: seq<nat>, mask: seq<bool>, c: Contents, frame: bool, begTim: nat) {
    && |lens| == |mask| == |c.log| == |c.first|
    && (forall k :: 0 <= k < |events| ==> 1 <= events[k].handle <= |lens|)
    && forall h :: 0 <= h < |lens| ==> DeliversOne(events, lens, mask, c, frame, begTim, h)
  }

  ghost predicate DeliversOne(events: seq<Event>, lens: seq<nat>, mask: seq<bool>, c: Contents, frame: bool, begTim: nat, h: nat)
    requires h < |lens| == |mask| == |c.log| == |c.first|
  {
    && AllInTable(ToPlay(lens, mask, c.log, |mask|, h), |c.times|)
    && Of(events, h) == Expected(lens, mask, c, frame, begTim, h)
  }

  ghost predicate Ascending(times: seq<nat>) {
    forall i, j :: 0 <= i < j < |times| ==> times[i] <= times[j]
  }

  /** The merge of the selected chains. */
  method PlayChains(file: seq<byte>, vcStart: nat, times: seq<nat>, lens: seq<nat>, table: seq<int>, lengths: seq<nat>,
                    mask: seq<bool>, ghost area: seq<byte>, ghost c: Contents)
    returns (events: seq<Event>, ghost at: seq<nat>, ghost used: nat)
    requires ChainStore.Laid(c.mode, area, c.entries, c.forms, c.chains) && |area| > 0 && area[0] == PackType(c.mode)
    requires At(file, vcStart, area) && vcStart + |area| + 32 <= |file|
    requires |c.entries| == |lens| == |mask| == |c.first| && times == c.times && Logged(lens, c.log, |times|)
    requires forall h :: 0 <= h < |lens| ==> c.chains[h] == Encode(lens[h], 0, c.log[h])
    requires forall h :: 0 <= h < |lens| && mask[h] ==> !ChainStore.Mixed(c.entries, c.forms, h)
    requires TablesOf(table, lengths, mask, c.entries, |area|)
    ensures Delivers(events, lens, mask, c, false, 0) && InOrder(events, at, times, |times|)
    ensures used == Selected(c.chains, mask, |mask|)
  {
    hide ChainStore.Laid, ChainStore.Mixed, TablesOf, At, Encode, Merger.Valid, LoggedOne, ToPlay, InOrder, Delivery, Of;
    ChainStore.LaidSizes(c.mode, area, c.entries, c.forms, c.chains);
    var mode := ReadMode(file, vcStart, area, c.mode);
    WidthsOf(lens, c.log, |times|);
    var m := new Merger(times, lens);
    m.Lengths();
    LoadChains(file, vcStart, table, lengths, mask, m, mode, area, c);
    used := |m.mem|;
    m.Play();
    events, at := m.events, m.at;
    forall h | 0 <= h < |lens| ensures DeliversOne(events, lens, mask, c, false, 0, h) {
      assert m.start[h] == ToPlay(lens, mask, c.log, |mask|, h);
    }
  }

  lemma WidthsOf(lens: seq<nat>, log: seq<seq<Change>>, nTimes: nat)
    requires Logged(lens, log, nTimes)
    ensures forall h :: 0 <= h < |lens| ==> lens[h] >= 1
  {
  }

  /** The frame, if it is to be reported. */
  method ReportFirst(lens: seq<nat>, mask: seq<bool>, mu: seq<byte>, begTim: nat, frame: bool, ghost first: seq<seq<byte>>)
    returns (events: seq<Event>)
    requires Widths(lens, first) && |mask| == |lens| && mu == FrameOf(first)
    ensures Reported(events, mask, begTim, first, if frame then |lens| else 0)
  {
    hide FrameOf, Reported;
    events := [];
    ReportNone(mask, begTim, first);
    if frame {
      events := ReportFrame(lens, mask, mu, begTim, first);
    }
  }

  lemma DeliversBoth(frame: seq<Event>, played: seq<Event>, lens: seq<nat>, mask: seq<bool>, c: Contents, reported: bool, begTim: nat)
    requires Delivers(played, lens, mask, c, false, 0)
    requires Reported(frame, mask, begTim, c.first, if reported then |lens| else 0)
    ensures Delivers(frame + played, lens, mask, c, reported, begTim)
  {
    hide DeliversOne, Of, ToPlay, Reported;
    ReportedHandles(frame, mask, begTim, c.first, if reported then |lens| else 0);
    HandlesBoth(frame, played, |lens|);
    forall h | 0 <= h < |lens| ensures DeliversOne(frame + played, lens, mask, c, reported, begTim, h) {
      ReportedAt(frame, mask, begTim, c.first, if reported then |lens| else 0, h);
      DeliversOneBoth(frame, played, lens, mask, c, reported, begTim, h);
    }
  }

  lemma ReportedAt(events: seq<Event>, mask: seq<bool>, begTim: nat, first: seq<seq<byte>>, n: nat, h: nat)
    requires Reported(events, mask, begTim, first, n) && h < |first|
    ensures Of(events, h) == if h < n && mask[h] then [Event(begTim, h + 1, first[h])] else []
  {
  }

  lemma ReportedHandles(events: seq<Event>, mask: seq<bool>, begTim: nat, first: seq<seq<byte>>, n: nat)
    requires Reported(events, mask, begTim, first, n)
    ensures forall k :: 0 <= k < |events| ==> 1 <= events[k].handle <= |first| && events[k].time == begTim
  {
  }

  lemma HandlesBoth(a: seq<Event>, b: seq<Event>, n: nat)
    requires forall k :: 0 <= k < |a| ==> 1 <= a[k].handle <= n
    requires forall k :: 0 <= k < |b| ==> 1 <= b[k].handle <= n
    ensures forall k :: 0 <= k < |a + b| ==> 1 <= (a + b)[k].handle <= n
  {
  }

  lemma DeliversOneBoth(frame: seq<Event>, played: seq<Event>, lens: seq<nat>, mask: seq<bool>, c: Contents,
                        reported: bool, begTim: nat, h: nat)
    requires h < |lens| == |mask| == |c.log| == |c.first| && DeliversOne(played, lens, mask, c, false, 0, h)
    requires Of(frame, h) == if reported && mask[h] then [Event(begTim, h + 1, c.first[h])] else []
    ensures DeliversOne(frame + played, lens, mask, c, reported, begTim, h)
  {
    hide ToPlay, Of, Delivery;
    OfConcat(frame, played, h);
  }

  lemma OrderBoth(frame: seq<Event>, played: seq<Event>, at: seq<nat>, times: seq<nat>, begTim: nat)
    requires InOrder(played, at, times, |times|) && Ascending(times) && times != [] && begTim <= times[0]
    requires forall k :: 0 <= k < |frame| ==> frame[k].time == begTim
    ensures var events := frame + played;
      && (forall j, k :: 0 <= j < k < |events| ==> events[j].time <= events[k].time)
      && forall k :: 0 <= k < |events| ==> begTim <= events[k].time <= times[|times| - 1]
  {
    TimesNeverDecrease(played, at, times, |times|);
    var events := frame + played;
    forall k | |frame| <= k < |events| ensures begTim <= events[k].time <= times[|times| - 1] {
      var p := k - |frame|;
      assert events[k] == played[p] && played[p].time == times[at[p]];
      assert 0 < at[p] ==> times[0] <= times[at[p]];
      assert at[p] < |times| - 1 ==> times[at[p]] <= times[|times| - 1];
    }
    assert |times| > 1 ==> times[0] <= times[|times| - 1];
  }

  /** One turn of the loop over the blocks of a file. */
  method ReadBlock(z: Section.Zlib, file: seq<byte>, blkpos: nat, lens: seq<nat>, mask: seq<bool>,
                   table: array<int>, lengths: array<nat>, pidx0: nat, first: bool,
                   ghost s: Section.Section, ghost c: Contents)
    returns (events: seq<Event>, pidx: nat, next: nat, ghost used: nat)
    requires Section.Sound(z) && At(file, blkpos, Section.Wire(z, s)) && Section.Fits(z, s)
    requires Describes(s, lens, c) && |mask| == |lens|
    requires table.Length == lengths.Length == |lens| + 1 && pidx0 < table.Length
    requires Clean(Before(table[..], lengths[..], pidx0), mask, c)
    modifies table, lengths
    ensures Delivers(events, lens, mask, c, ReportsFrame(first, s.begTim, c.times), s.begTim)
    ensures Ascending(c.times) && s.begTim <= c.times[0] ==>
      && (forall j, k :: 0 <= j < k < |events| ==> events[j].time <= events[k].time)
      && forall k :: 0 <= k < |events| ==> s.begTim <= events[k].time <= c.times[|c.times| - 1]
    ensures next == blkpos + |Section.Wire(z, s)| && pidx < table.Length
    ensures Before(table[..], lengths[..], pidx) == After(old(Before(table[..], lengths[..], pidx0)), c.entries, |s.area|)
    ensures used <= s.memReq && ((forall h :: 0 <= h < |mask| ==> mask[h]) ==> used == s.memReq)
  {
    hide After, Section.Wire, Section.Fits, At, ChainStore.Laid, ChainIndex.Encode, ChainIndex.SomePosition, ChainIndex.Mistaken, Reported,
      ChainStore.Mixed, TablesOf, Logged, FrameOf, TimeTable.Deltas, ChainStore.Total, InOrder, Encode, Delivers;
    ChainStore.LaidSizes(c.mode, s.area, c.entries, c.forms, c.chains);
    var b := Section.ReadSection(z, file, blkpos, s);
    var times := TimeTable.ReadTimes(b.section.timeData, b.section.nTimes, c.times);
    var frame := first && b.section.begTim != times[0];
    var values := ReportFirst(lens, mask, b.section.frame, b.section.begTim, frame, c.first);
    pidx := ReadIndex(b.section.index, table, lengths, pidx0, b.indxPos - b.vcStart, s.area, mask, c);
    var played;
    ghost var at;
    played, at, used := PlayChains(file, b.vcStart, times, lens, table[..], lengths[..], mask, s.area, c);
    SelectedTotal(c.chains, mask);
    events := values + played;
    next := b.next;
    DeliversBoth(values, played, lens, mask, c, frame, s.begTim);
    if Ascending(times) && s.begTim <= times[0] {
      ReportedHandles(values, mask, s.begTim, c.first, if frame then |lens| else 0);
      OrderBoth(values, played, at, times, s.begTim);
    }
  }
}
