/** The value-at-time reader of src/fst/fstapi.c on the file of a whole run: the
    value it finds is the one the signal had at that time of the run. */
module ValueOfRun {
  import opened Bytes
  import opened Chain
  import opened Course
  import opened KeptTables
  import opened Merge
  import opened Reader
  import opened RoundTrip
  import opened Session
  import opened TraceFile
  import opened ValueAt
  import opened ValueFile
  import opened Writer
  import ChainStore
  import ChainIndex
  import Section

  /** The value after the events up to `t`, `v` being the value before them. */
  function ValueBy(v: seq<byte>, events: seq<Event>, t: nat): seq<byte>
    decreases |events|
  {
    if events == [] then v
    else
      var e := events[|events| - 1];
      if e.time <= t then e.val else ValueBy(v, events[..|events| - 1], t)
  }

  lemma {:induction false} ValueByConcat(v: seq<byte>, a: seq<Event>, b: seq<Event>, t: nat)
    ensures ValueBy(v, a + b, t) == ValueBy(ValueBy(v, a, t), b, t)
    decreases |b|
  {
    if b == [] {
      assert a + b == a;
    } else {
      assert (a + b)[..|a + b| - 1] == a + b[..|b| - 1];
      ValueByConcat(v, a, b[..|b| - 1], t);
    }
  }

  /** All events by then: the last one decides. */
  lemma ValueByAll(v: seq<byte>, events: seq<Event>, t: nat)
    requires forall k :: 0 <= k < |events| ==> events[k].time <= t
    ensures ValueBy(v, events, t) == LastOf(v, events)
  {
  }

  /** None by then: the value is still the one before. */
  lemma {:induction false} ValueByNone(v: seq<byte>, events: seq<Event>, t: nat)
    requires forall k :: 0 <= k < |events| ==> events[k].time > t
    ensures ValueBy(v, events, t) == v
    decreases |events|
  {
    if events != [] { ValueByNone(v, events[..|events| - 1], t); }
  }

  lemma {:induction false} ValueByLast(v: seq<byte>, events: seq<Event>, t: nat, k: nat)
    requires LastBy(events, t, k)
    ensures ValueBy(v, events, t) == events[k].val
    decreases |events|
  {
    var n := |events| - 1;
    if k < n {
      assert LastBy(events[..n], t, k);
      ValueByLast(v, events[..n], t, k);
    }
  }

  /** A full scan of the changes is a replay of their events. */
  lemma LatestIs(first: seq<byte>, cs: seq<Change>, times: seq<nat>, tim: nat, h: nat)
    requires InTimeOrder(cs, times)
    ensures Latest(first, cs, times, tim) == ValueBy(first, Delivery(times, h, cs), tim)
  {
    hide Latest;
    AgreesWithReplay(first, cs, times, tim, h);
    var events := Delivery(times, h, cs);
    if k: nat :| LastBy(events, tim, k) {
      ValueByLast(first, events, tim, k);
    } else {
      ValueByNone(first, events, tim);
    }
  }

  // ----- up to spelling -----

  lemma CanonicalTwice(val: seq<byte>)
    ensures Canonical(Canonical(val)) == Canonical(val)
  {
  }

  lemma {:induction false} SpelledBy(v: seq<byte>, events: seq<Event>, t: nat)
    ensures Canonical(ValueBy(v, Spelled(events), t)) == Canonical(ValueBy(v, events, t))
    decreases |events|
  {
    hide Canonical;
    if events != [] {
      var n := |events| - 1;
      assert Spelled(events)[..n] == Spelled(events[..n]);
      SpelledBy(v, events[..n], t);
      CanonicalTwice(events[n].val);
    }
  }

  // ----- the section that covers the time -----

  lemma MadeTimes(p: Part, h: nat)
    requires ForwardOne(p)
    ensures forall k :: 0 <= k < |Made(p, h)| ==> p.begTim <= Made(p, h)[k].time <= p.endTim
  {
    if h < |p.log| && AllInTable(p.log[h], |p.announced|) {
      forall k | 0 <= k < |p.log[h]| ensures p.begTim <= p.announced[p.log[h][k].tidx] <= p.endTim {
        var i, n := p.log[h][k].tidx, |p.announced| - 1;
        assert i > 0 ==> p.announced[0] <= p.announced[i];
        assert i < n ==> p.announced[i] <= p.announced[n];
      }
    }
  }

  lemma {:induction false} LaterBegins(parts: seq<Part>, j: nat, k: nat)
    requires Forward(parts) && j < k < |parts|
    ensures parts[j].endTim <= parts[k].begTim && parts[k].begTim <= parts[k].endTim
    decreases k
  {
    assert ForwardOne(parts[k]);
    var a := parts[k].announced;
    assert |a| > 1 ==> a[0] <= a[|a| - 1];
    if j < k - 1 {
      LaterBegins(parts, j, k - 1);
    }
  }

  /** What was told before a section is all from before it. */
  lemma {:induction false} ToldBefore(parts: seq<Part>, k: nat, h: nat, t: nat)
    requires Forward(parts) && k <= |parts| && forall j :: 0 <= j < k ==> parts[j].endTim <= t
    ensures forall i :: 0 <= i < |Told(parts[..k], h)| ==> Told(parts[..k], h)[i].time <= t
    decreases k
  {
    hide Made;
    if k > 0 {
      assert parts[..k][..k - 1] == parts[..k - 1];
      ToldBefore(parts, k - 1, h, t);
      assert ForwardOne(parts[k - 1]);
      MadeTimes(parts[k - 1], h);
    }
  }

  /** What is told after it changes nothing. */
  lemma {:induction false} ToldAfter(v: seq<byte>, parts: seq<Part>, k: nat, n: nat, h: nat, t: nat)
    requires Forward(parts) && k <= n <= |parts| && forall j :: k <= j < |parts| ==> parts[j].begTim > t
    ensures ValueBy(v, Told(parts[..n], h), t) == ValueBy(v, Told(parts[..k], h), t)
    decreases n
  {
    hide Made;
    if k < n {
      assert parts[..n][..n - 1] == parts[..n - 1];
      ToldAfter(v, parts, k, n - 1, h, t);
      assert ForwardOne(parts[n - 1]);
      MadeTimes(parts[n - 1], h);
      ValueByConcat(v, Told(parts[..n - 1], h), Made(parts[n - 1], h), t);
      ValueByNone(ValueBy(v, Told(parts[..n - 1], h), t), Made(parts[n - 1], h), t);
    }
  }

  /** The value by a time that a section covers depends only on what the section
      begins with and on its own changes. */
  lemma ValueInPart(initial: seq<seq<byte>>, parts: seq<Part>, k: nat, h: nat, t: nat)
    requires Forward(parts) && k < |parts| && h < |initial| && FirstsOf(initial, parts, h)
    requires parts[k].begTim <= t && (t < parts[k].endTim || k == |parts| - 1)
    ensures h < |parts[k].first|
    ensures ValueBy(initial[h], Told(parts, h), t) == ValueBy(parts[k].first[h], Made(parts[k], h), t)
  {
    hide Made, Forward;
    forall j | 0 <= j < k ensures parts[j].endTim <= t { LaterBegins(parts, j, k); }
    forall j | k < j < |parts| ensures parts[j].begTim > t { LaterBegins(parts, k, j); }
    ToldBefore(parts, k, h, t);
    ToldAfter(initial[h], parts, k + 1, |parts|, h, t);
    assert parts[..|parts|] == parts && parts[..k + 1][..k] == parts[..k];
    ValueByConcat(initial[h], Told(parts[..k], h), Made(parts[k], h), t);
    ValueByAll(initial[h], Told(parts[..k], h), t);
  }

  // ----- asking the file -----

  /** A section can be asked for the signal's value: its times are right, no distance
      between the signal's changes is too large for its record, and its chain can be
      taken for that of no signal before it. */
  ghost predicate Askable(lens: seq<nat>, p: Part, h: nat) {
    InStep(p) && Fit(lens, p, h) && forall g :: 0 <= g < h ==> Apart(lens, p, g, h)
  }

  lemma AskableOwn(lens: seq<nat>, b: Block, p: Part, h: nat)
    requires BlockOk(lens, b) && BlockOf(b, p) && h < |lens| && Askable(lens, p, h)
    ensures OwnForm(b.contents, h)
  {
    hide BlockOk, BlockOf, Apart, Fit, InStep;
    MixedConfusable(lens, b, p, h);
  }

  lemma SeenInOrder(lens: seq<nat>, b: Block, p: Part, h: nat)
    requires BlockOk(lens, b) && BlockOf(b, p) && h < |lens| && InStep(p) && Fit(lens, p, h) && Ascending(p.times)
    requires AllInTable(SeenOf(lens[h], b.contents.log[h]), |b.contents.times|)
    ensures InTimeOrder(SeenOf(lens[h], b.contents.log[h]), b.contents.times)
  {
    hide Describes, AllFit, Seen;
    var c := b.contents;
    assert LoggedOne(lens[h], c.log[h], |b.announced|);
    SeenOfExactly(lens[h], c.log[h]);
    var seen := SeenOf(lens[h], c.log[h]);
    assert seen == Normal(c.log[h]);
    forall i, j | 0 <= i < j < |seen| ensures c.times[seen[i].tidx] <= c.times[seen[j].tidx] {
      assert c.log[h][i].tidx <= c.log[h][j].tidx;
    }
  }

  /** What a block is found to say is what its section says. */
  lemma BlockSays(lens: seq<nat>, b: Block, p: Part, h: nat, tim: nat, a: Answer)
    requires BlockOk(lens, b) && BlockOf(b, p) && h < |lens| && InStep(p) && Fit(lens, p, h) && Ascending(p.times)
    requires IsLatest(lens, b.contents, h, tim, a)
    ensures a.Value? && h < |p.first| && Canonical(a.val) == Canonical(ValueBy(p.first[h], Made(p, h), tim))
  {
    hide BlockOk, SeenOf, Made, Fit, Latest, Canonical, Spelled, Ascending;
    var c := b.contents;
    MadeSeen(lens, b, p, h);
    SeenInOrder(lens, b, p, h);
    LatestIs(c.first[h], SeenOf(lens[h], c.log[h]), c.times, tim, h);
    SpelledBy(p.first[h], Made(p, h), tim);
  }

  /** Time tables in step are in order if the times announced are. */
  lemma TablesAscend(lens: seq<nat>, b: Block, p: Part)
    requires BlockOk(lens, b) && BlockOf(b, p) && InStep(p) && ForwardOne(p)
    ensures Ascending(p.times)
  {
    hide Describes;
  }

  /** The answer is the value the signal had at that time of the run, up to the spelling
      of one-bit values. */
  ghost predicate ValueThen(lens: seq<nat>, calls: seq<Call>, h: nat, tim: nat, a: Answer) {
    var m := Run(Start(lens), calls);
    h < |m.initial| && a.Value? && Canonical(a.val) == Canonical(ValueBy(m.initial[h], Said(m, h), tim))
  }

  /** The section that contains the time, if any, can be asked for the signal: the
      first one, where it is shared. */
  ghost predicate AskableAt(lens: seq<nat>, parts: seq<Part>, handle: nat, tim: nat) {
    1 <= handle <= |lens| ==> forall k :: 0 <= k < |parts| && FirstWith(parts, k, tim) ==> Askable(lens, parts[k], handle - 1)
  }

  ghost predicate FirstWith(parts: seq<Part>, k: nat, tim: nat) {
    && k < |parts| && parts[k].begTim <= tim <= parts[k].endTim
    && forall j :: 0 <= j < k ==> tim < parts[j].begTim || tim > parts[j].endTim
  }

  lemma CoveringFirst(blocks: seq<Block>, parts: seq<Part>, tim: nat)
    requires BlocksOf(blocks, parts)
    ensures var k := Covering(blocks, tim); k <= |blocks| == |parts| && (k < |blocks| ==> FirstWith(parts, k, tim))
  {
    hide Covering;
    CoveringMeans(blocks, tim);
    var k := Covering(blocks, tim);
    forall j | 0 <= j < |blocks| ensures blocks[j].section.begTim == parts[j].begTim && blocks[j].section.endTim == parts[j].endTim {
      assert BlockOf(blocks[j], parts[j]);
    }
  }

  /** Some block covers every time from the first one's begin to the last one's end,
      and no other. */
  lemma CoveredExactly(blocks: seq<Block>, parts: seq<Part>, tim: nat)
    requires BlocksOf(blocks, parts) && Forward(parts)
    ensures Covering(blocks, tim) < |blocks| <==>
      parts != [] && parts[0].begTim <= tim <= parts[|parts| - 1].endTim
  {
    hide Covering, ForwardOne, BlockOf;
    CoveringFirst(blocks, parts, tim);
    CoveringMeans(blocks, tim);
    var k, n := Covering(blocks, tim), |parts| - 1;
    if k < |blocks| {
      if k > 0 { LaterBegins(parts, 0, k); PartForward(parts, 0); }
      if k < n { LaterBegins(parts, k, n); }
    } else if parts != [] && parts[0].begTim <= tim <= parts[n].endTim {
      var j := LastBegun(parts, tim);
      SameEnds(blocks, parts, j);
    }
  }

  lemma SameEnds(blocks: seq<Block>, parts: seq<Part>, k: nat)
    requires BlocksOf(blocks, parts) && k < |blocks|
    ensures blocks[k].section.begTim == parts[k].begTim && blocks[k].section.endTim == parts[k].endTim
  {
    assert BlockOf(blocks[k], parts[k]);
  }

  lemma PartForward(parts: seq<Part>, k: nat)
    requires Forward(parts) && k < |parts|
    ensures parts[k].begTim <= parts[k].endTim
  {
    assert ForwardOne(parts[k]);
    var a := parts[k].announced;
    assert |a| > 1 ==> a[0] <= a[|a| - 1];
  }

  /** Sections adjoin: some one contains the time. */
  lemma {:induction false} LastBegun(parts: seq<Part>, tim: nat) returns (j: nat)
    requires Forward(parts) && parts != [] && parts[0].begTim <= tim <= parts[|parts| - 1].endTim
    ensures j < |parts| && parts[j].begTim <= tim <= parts[j].endTim
    decreases |parts|
  {
    hide ForwardOne;
    var n := |parts| - 1;
    if parts[n].begTim <= tim {
      j := n;
    } else {
      assert parts[n].begTim == parts[n - 1].endTim;
      FrontForward(parts);
      j := LastBegun(parts[..n], tim);
    }
  }

  lemma FrontForward(parts: seq<Part>)
    requires Forward(parts) && parts != []
    ensures Forward(parts[..|parts| - 1])
  {
    hide ForwardOne;
  }

  /** In the file of a run in which time went forward: asked for a time that a block
      covers, not its last time unless it is the last block, the reader finds the
      value that the signal had at that time of the run, up to the spelling of
      one-bit values. Only the block that covers the time has to be right, and only
      for this signal. */
  method AskRun(z: Section.Zlib, file: seq<byte>, start: nat, lens: seq<nat>, handle: nat, tim: nat, endTime: nat,
                ghost breakSize: nat, ghost calls: seq<Call>, ghost blocks: seq<Block>)
    returns (placed: bool, a: Answer)
    requires Section.Sound(z) && Recorded(z, breakSize, lens, calls, file, start, blocks) && TimeGoesOn(calls)
    requires AskableAt(lens, Final(Follow(breakSize, lens, calls)), handle, tim)
    ensures handle == 0 || handle > |lens| ==> placed && a == Unknown
    ensures 1 <= handle <= |lens| && placed ==>
      var parts := Final(Follow(breakSize, lens, calls));
      a == Unknown <==> parts == [] || tim < parts[0].begTim || tim > parts[|parts| - 1].endTim
    ensures 1 <= handle <= |lens| ==>
      var k := Covering(blocks, tim);
      && (placed <==> !(k < |blocks| && AtSeam(blocks[k], tim, endTime)))
      && (placed && k < |blocks| && (tim < blocks[k].section.endTim || k == |blocks| - 1) ==>
            ValueThen(lens, calls, handle - 1, tim, a))
  {
    hide Section.Sound, Holds, AllOk, Readable, BlocksOf, Follow, Final, OwnForm, Covering, AtSeam, IsLatest, Canonical,
      Section.Length, Section.Fits, Ascending, ValueThen, Askable, FirstWith;
    RunAsked(breakSize, lens, calls, blocks, handle, tim);
    RunCovers(breakSize, lens, calls, blocks, tim);
    CoveringFirst(blocks, Final(Follow(breakSize, lens, calls)), tim);
    ReadablePlaces(z, lens, blocks);
    placed, a := ValueAtTime(z, file, start, lens, handle, tim, endTime, blocks);
    ghost var k := Covering(blocks, tim);
    if 1 <= handle <= |lens| && placed && k < |blocks| && (tim < blocks[k].section.endTim || k == |blocks| - 1) {
      RunSays(breakSize, lens, calls, blocks, k, handle - 1, tim, a);
    }
  }

  lemma RunAsked(breakSize: nat, lens: seq<nat>, calls: seq<Call>, blocks: seq<Block>, handle: nat, tim: nat)
    requires AllOk(lens, blocks) && BlocksOf(blocks, Final(Follow(breakSize, lens, calls)))
    requires AskableAt(lens, Final(Follow(breakSize, lens, calls)), handle, tim)
    ensures AskedOwn(lens, blocks, handle, tim)
  {
    hide BlockOk, BlockOf, Follow, Final, OwnForm, Covering, Askable, FirstWith;
    var k := Covering(blocks, tim);
    CoveringFirst(blocks, Final(Follow(breakSize, lens, calls)), tim);
    if k < |blocks| && 1 <= handle <= |lens| {
      var parts := Final(Follow(breakSize, lens, calls));
      assert BlockOk(lens, blocks[k]) && BlockOf(blocks[k], parts[k]);
      AskableOwn(lens, blocks[k], parts[k], handle - 1);
    }
  }

  lemma RunCovers(breakSize: nat, lens: seq<nat>, calls: seq<Call>, blocks: seq<Block>, tim: nat)
    requires BlocksOf(blocks, Final(Follow(breakSize, lens, calls))) && TimeGoesOn(calls)
    ensures var parts := Final(Follow(breakSize, lens, calls));
      Covering(blocks, tim) == |blocks| <==> parts == [] || tim < parts[0].begTim || tim > parts[|parts| - 1].endTim
  {
    hide BlocksOf, Follow, Final, Covering, Forward, GoesForward;
    ForwardAlong(breakSize, lens, calls);
    FinalForward(Follow(breakSize, lens, calls));
    CoveredExactly(blocks, Final(Follow(breakSize, lens, calls)), tim);
  }

  lemma ReadablePlaces(z: Section.Zlib, lens: seq<nat>, blocks: seq<Block>)
    requires Readable(z, lens, blocks)
    requires forall k :: 0 <= k < |blocks| ==> Section.Length(z, blocks[k].section) < 0x100_0000_0000_0000
    ensures Placeable(z, blocks)
  {
    hide BlockOk, Section.Fits, Section.Length;
  }

  /** The covering block's answer is the run's. */
  lemma RunSays(breakSize: nat, lens: seq<nat>, calls: seq<Call>, blocks: seq<Block>, k: nat, h: nat, tim: nat, a: Answer)
    requires AllOk(lens, blocks) && BlocksOf(blocks, Final(Follow(breakSize, lens, calls))) && TimeGoesOn(calls)
    requires k < |blocks| && Askable(lens, Final(Follow(breakSize, lens, calls))[k], h)
    requires h < |lens| && Covers(blocks[k], tim) && (tim < blocks[k].section.endTim || k == |blocks| - 1)
    requires a != Unknown && (Ascending(blocks[k].contents.times) ==> IsLatest(lens, blocks[k].contents, h, tim, a))
    ensures ValueThen(lens, calls, h, tim, a)
  {
    hide BlockOk, Follow, Final, IsLatest, Canonical, Ascending, Said, ValueBy, Fit, Apart, FirstsOf, InStep, Forward;
    var d := Follow(breakSize, lens, calls);
    var parts := Final(d);
    assert BlockOk(lens, blocks[k]) && BlockOf(blocks[k], parts[k]) && InStep(parts[k]) && Fit(lens, parts[k], h);
    Widths(lens, calls);
    IndexedAlong(breakSize, lens, calls);
    TellsAlong(breakSize, lens, calls);
    BeginsAlong(breakSize, lens, calls);
    ForwardAlong(breakSize, lens, calls);
    FinalForward(d);
    FinalTells(d, h);
    FinalBegins(d, h);
    ForwardAt(parts, k);
    TablesAscend(lens, blocks[k], parts[k]);
    BlockSays(lens, blocks[k], parts[k], h, tim, a);
    ValueInPart(d.m.initial, parts, k, h, tim);
  }

  lemma ForwardAt(parts: seq<Part>, k: nat)
    requires Forward(parts) && k < |parts|
    ensures ForwardOne(parts[k])
  {
  }
}
