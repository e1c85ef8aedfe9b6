/** The course of a run of the writer of src/fst/fstapi.c, from its calls alone:
    what the calls mean, when they cause a flush, and into which sections the
    value changes go. Nothing here knows of bytes, lists or files. */
module Course {
  import opened Bytes
  import opened Chain
  import opened Merge
  import opened WriterState
  import ChainWriter
  import Reader
  import TimeTable
  import Writer

  datatype Call = TimeChange(tim: nat) | ValueChange(handle: nat, val: seq<byte>) | FlushContext

  // ----- what calls mean -----

  /** The first time, the time now, every signal's value from before the first
      time change (and whether any was given), every value change since then with
      the time it was made at, and every signal's value now. */
  datatype Meaning = Meaning(started: bool, given: bool, begin: nat, now: nat,
                             initial: seq<seq<byte>>, events: seq<Event>, vals: seq<seq<byte>>)

  function Step(m: Meaning, c: Call): Meaning {
    match c
    case TimeChange(tim) => m.(started := true, begin := if m.started then m.begin else tim, now := tim)
    case ValueChange(handle, val) =>
      if handle == 0 || handle > |m.vals| then m
      else
        var vals := m.vals[handle - 1 := val];
        if m.started then m.(vals := vals, events := m.events + [Event(m.now, handle, val)])
        else m.(vals := vals, initial := vals, given := true)
    case FlushContext => m
  }

  function Run(m: Meaning, calls: seq<Call>): Meaning
    decreases |calls|
  {
    if calls == [] then m else Step(Run(m, calls[..|calls| - 1]), calls[|calls| - 1])
  }

  function Start(lens: seq<nat>): Meaning {
    Meaning(false, false, 0, 0, Writer.AllUnknown(lens), [], Writer.AllUnknown(lens))
  }

  // ----- what calls do -----

  /** One section: its times, those announced and those in its table; how many
      flushes were called for in it with nothing to flush; every signal's value
      when it began, and its changes, at indices of the times announced. */
  datatype Part = Part(begTim: nat, endTim: nat, announced: seq<nat>, times: seq<nat>, idle: nat,
                       first: seq<seq<byte>>, log: seq<seq<Change>>)

  /** Whether a flush was asked for, the time index, the section being written,
      and those before it. */
  datatype Course = Course(m: Meaning, pending: bool, index: nat, open: Part, parts: seq<Part>)

  ghost predicate Sane(d: Course) {
    && |d.open.log| == |d.open.first| == |d.m.vals| == |d.m.initial|
    && (d.m.started ==> d.open.times != [])
  }

  /** How full the change buffer is. */
  ghost function Filled(d: Course): nat {
    1 + Taken(d.open.log, |d.open.log|)
  }

  /** Nothing is in it. */
  ghost predicate Empty(d: Course) {
    Filled(d) <= 1
  }

  /** The next time change calls for a flush. */
  ghost predicate Due(breakSize: nat, d: Course) {
    Filled(d) >= breakSize || d.pending
  }

  /** A time change that calls for a flush when there is nothing to flush. */
  ghost predicate IdleFlush(breakSize: nat, d: Course, c: Call) {
    c.TimeChange? && d.m.started && Due(breakSize, d) && Empty(d)
  }

  function NoChanges(n: nat): (log: seq<seq<Change>>)
    ensures |log| == n && forall h :: 0 <= h < n ==> log[h] == []
  {
    seq(n, _ => [])
  }

  ghost function LaterTime(breakSize: nat, d: Course, tim: nat): (r: Course)
    requires Sane(d) && d.m.started
    ensures Sane(r)
  {
    var due, empty := Due(breakSize, d), Empty(d);
    var m, p := Step(d.m, TimeChange(tim)), d.open;
    var times := TimeTable.Ticked(TimeTable.Clock([], 0, 0, d.m.now), p.times, tim, due, empty);
    if due && !empty then
      Course(m, false, 1, Part(d.m.now, tim, [d.m.now, tim], times, 0, m.vals, NoChanges(|m.vals|)), d.parts + [p])
    else
      Course(m, false, d.index + 1,
             p.(endTim := tim, announced := p.announced + [tim], times := times, idle := p.idle + if due then 1 else 0),
             d.parts)
  }

  ghost function Advance(breakSize: nat, d: Course, c: Call): (r: Course)
    requires Sane(d)
    ensures Sane(r) && r.m == Step(d.m, c)
  {
    var m := Step(d.m, c);
    match c
    case FlushContext => d.(pending := d.pending || d.index > 1)
    case ValueChange(handle, val) =>
      if handle == 0 || handle > |m.vals| then d
      else if d.m.started then
        d.(m := m, open := d.open.(log := d.open.log[handle - 1 := d.open.log[handle - 1] + [Change(d.index, val)]]))
      else d.(m := m, open := d.open.(first := m.vals))
    case TimeChange(tim) =>
      if d.m.started then LaterTime(breakSize, d, tim)
      else d.(m := m, open := d.open.(begTim := if m.given then 0 else tim, endTim := tim, announced := [tim], times := [tim]))
  }

  ghost function Outset(lens: seq<nat>): (d: Course)
    ensures Sane(d)
  {
    Course(Start(lens), false, 0, Part(0, 0, [], [], 0, Writer.AllUnknown(lens), NoChanges(|lens|)), [])
  }

  ghost function Follow(breakSize: nat, lens: seq<nat>, calls: seq<Call>): (d: Course)
    ensures Sane(d) && d.m == Run(Start(lens), calls)
    decreases |calls|
  {
    if calls == [] then Outset(lens)
    else Advance(breakSize, Follow(breakSize, lens, calls[..|calls| - 1]), calls[|calls| - 1])
  }

  lemma FollowSnoc(breakSize: nat, lens: seq<nat>, calls: seq<Call>, i: nat)
    requires i < |calls|
    ensures Follow(breakSize, lens, calls[..i + 1]) == Advance(breakSize, Follow(breakSize, lens, calls[..i]), calls[i])
  {
    hide Advance;
    assert calls[..i + 1][..i] == calls[..i];
  }

  /** The sections in the file once it is closed: one without changes is cut off,
      and if there was never a time change, every value is a change at time zero. */
  ghost function Final(d: Course): seq<Part> {
    if d.m.started then d.parts + if Empty(d) then [] else [d.open]
    else if d.m.vals == [] then []
    else [Part(0, 0, [0], [0], 0, d.m.vals, Writer.AtZero(d.m.vals))]
  }

  // ----- time indices -----

  /** As many times announced as there are indices, the last one being now; every
      change at one of them. */
  ghost predicate Indexed(d: Course) {
    && Sane(d)
    && (if d.m.started then
          && |d.open.announced| == d.index + 1 && d.open.announced[d.index] == d.m.now == d.open.endTim
          && AllAt(d.open)
        else
          && d.parts == [] && d.m.events == [] && d.index == 0 && d.open.announced == [] && d.open.idle == 0 && !d.pending
          && d.open.first == d.m.vals == d.m.initial && forall h :: 0 <= h < |d.open.log| ==> d.open.log[h] == [])
    && forall k :: 0 <= k < |d.parts| ==> AllAt(d.parts[k]) && |d.parts[k].log| == |d.parts[k].first| == |d.m.vals|
  }

  ghost predicate AllAt(p: Part) {
    p.announced != [] && forall h :: 0 <= h < |p.log| ==> AllInTable(p.log[h], |p.announced|)
  }

  lemma IndexedStep(breakSize: nat, d: Course, c: Call)
    requires Indexed(d)
    ensures Indexed(Advance(breakSize, d, c))
  {
    hide TimeTable.Ticked, Due, Empty;
  }

  lemma {:induction false} IndexedAlong(breakSize: nat, lens: seq<nat>, calls: seq<Call>)
    ensures Indexed(Follow(breakSize, lens, calls))
    decreases |calls|
  {
    hide Advance, Indexed;
    if calls == [] {
      IndexedOutset(lens);
    } else {
      IndexedAlong(breakSize, lens, calls[..|calls| - 1]);
      IndexedStep(breakSize, Follow(breakSize, lens, calls[..|calls| - 1]), calls[|calls| - 1]);
    }
  }

  lemma IndexedOutset(lens: seq<nat>)
    ensures Indexed(Outset(lens))
  {
  }

  // ----- every change is in one section -----

  /** The value changes of signal `h` in one section. */
  ghost function Made(p: Part, h: nat): seq<Event> {
    if h < |p.log| && AllInTable(p.log[h], |p.announced|) then Delivery(p.announced, h, p.log[h]) else []
  }

  ghost function Told(parts: seq<Part>, h: nat): seq<Event> {
    if parts == [] then [] else Told(parts[..|parts| - 1], h) + Made(parts[|parts| - 1], h)
  }

  lemma ToldSnoc(parts: seq<Part>, p: Part, h: nat)
    ensures Told(parts + [p], h) == Told(parts, h) + Made(p, h)
  {
    assert (parts + [p])[..|parts|] == parts;
  }

  lemma ToldOne(p: Part, h: nat)
    ensures Told([p], h) == Made(p, h) && Told([], h) == []
  {
    assert [p][..0] == [];
  }

  /** The sections hold exactly the value changes made, in order. */
  ghost predicate Tells(d: Course) {
    forall h :: 0 <= h < |d.m.vals| ==> TellsOne(d, h)
  }

  ghost predicate TellsOne(d: Course, h: nat) {
    Told(d.parts, h) + Made(d.open, h) == Of(d.m.events, h)
  }

  lemma MadeValue(p: Part, idx: nat, g: nat, val: seq<byte>, h: nat)
    requires g < |p.log| && AllAt(p) && idx < |p.announced|
    ensures Made(p.(log := p.log[g := p.log[g] + [Change(idx, val)]]), h)
         == Made(p, h) + if h == g then [Event(p.announced[idx], h + 1, val)] else []
  {
    var cs := p.log[g] + [Change(idx, val)];
    assert AllInTable(p.log[g], |p.announced|);
    if h == g {
      assert AllInTable(cs, |p.announced|);
      assert Delivery(p.announced, h, cs) == Delivery(p.announced, h, p.log[g]) + [Event(p.announced[idx], h + 1, val)];
    }
  }

  /** Announcing one more time changes nothing. */
  lemma MadeTime(p: Part, q: Part, tim: nat, h: nat)
    requires AllAt(p) && q.log == p.log && q.announced == p.announced + [tim]
    ensures Made(q, h) == Made(p, h)
  {
    if h < |p.log| {
      assert AllInTable(p.log[h], |p.announced|);
      assert Delivery(p.announced + [tim], h, p.log[h]) == Delivery(p.announced, h, p.log[h]);
    }
  }

  lemma MadeNone(p: Part, h: nat)
    requires h < |p.log| ==> p.log[h] == []
    ensures Made(p, h) == []
  {
  }

  lemma TellsStep(breakSize: nat, d: Course, c: Call, h: nat)
    requires Indexed(d) && h < |d.m.vals| && TellsOne(d, h)
    ensures TellsOne(Advance(breakSize, d, c), h)
  {
    hide TimeTable.Ticked, Due, Empty, Made, Told, Of;
    var r := Advance(breakSize, d, c);
    match c
    case FlushContext =>
    case ValueChange(handle, val) =>
      if 0 < handle <= |d.m.vals| && d.m.started {
        MadeValue(d.open, d.index, handle - 1, val, h);
        OfSnoc(d.m.events, Event(d.m.now, handle, val), h);
        Assoc(Told(d.parts, h), Made(d.open, h), if h == handle - 1 then [Event(d.m.now, h + 1, val)] else []);
      } else {
        SameLog(d.open, r.open, h);
      }
    case TimeChange(tim) =>
      if !d.m.started {
        MadeNone(d.open, h);
        MadeNone(r.open, h);
      } else if r.parts == d.parts {
        MadeTime(d.open, r.open, tim, h);
      } else {
        ToldSnoc(d.parts, d.open, h);
        MadeNone(r.open, h);
      }
  }

  lemma SameLog(p: Part, q: Part, h: nat)
    requires p.log == q.log && p.announced == q.announced
    ensures Made(p, h) == Made(q, h)
  {
  }

  lemma Assoc(a: seq<Event>, b: seq<Event>, c: seq<Event>)
    ensures a + (b + c) == (a + b) + c && a + [] == a
  {
  }

  lemma {:induction false} TellsAlong(breakSize: nat, lens: seq<nat>, calls: seq<Call>)
    ensures Tells(Follow(breakSize, lens, calls))
    decreases |calls|
  {
    hide Advance, Indexed, TellsOne;
    var d := Follow(breakSize, lens, calls);
    if calls == [] {
      forall h | 0 <= h < |d.m.vals| ensures TellsOne(d, h) { TellsOutset(lens, h); }
    } else {
      var front, c := calls[..|calls| - 1], calls[|calls| - 1];
      var e := Follow(breakSize, lens, front);
      IndexedAlong(breakSize, lens, front);
      TellsAlong(breakSize, lens, front);
      SameWidth(e.m, c);
      forall h | 0 <= h < |d.m.vals| ensures TellsOne(d, h) { TellsStep(breakSize, e, c, h); }
    }
  }

  lemma SameWidth(m: Meaning, c: Call)
    ensures |Step(m, c).vals| == |m.vals|
  {
  }

  lemma TellsOutset(lens: seq<nat>, h: nat)
    ensures TellsOne(Outset(lens), h)
  {
    MadeNone(Outset(lens).open, h);
  }

  /** Everything that was said: the value changes after the first time change, or
      every value at time zero if there was no time change. */
  ghost function Said(m: Meaning, h: nat): seq<Event> {
    if m.started then Of(m.events, h) else if h < |m.vals| then [Event(0, h + 1, m.vals[h])] else []
  }

  /** The sections of the file tell exactly that. */
  lemma FinalTells(d: Course, h: nat)
    requires Indexed(d) && Tells(d) && h < |d.m.vals|
    ensures Told(Final(d), h) == Said(d.m, h)
  {
    hide Made, Told, Of;
    assert TellsOne(d, h);
    if d.m.started {
      if Empty(d) {
        EmptyMakesNone(d, h);
        assert d.parts + [] == d.parts;
      } else {
        ToldSnoc(d.parts, d.open, h);
      }
    } else {
      ZeroPart(d.m.vals, h);
    }
  }

  lemma ZeroPart(vals: seq<seq<byte>>, h: nat)
    requires h < |vals|
    ensures Told([Part(0, 0, [0], [0], 0, vals, Writer.AtZero(vals))], h) == [Event(0, h + 1, vals[h])]
  {
    var p := Part(0, 0, [0], [0], 0, vals, Writer.AtZero(vals));
    ToldOne(p, h);
    assert AllInTable(p.log[h], 1);
  }

  /** Nothing in the buffer means no change of any signal: every record takes up
      some of it. */
  lemma EmptyMakesNone(d: Course, h: nat)
    requires Empty(d)
    ensures Made(d.open, h) == []
  {
    EmptyMeans(d);
    MadeNone(d.open, h);
  }

  /** The change buffer is empty exactly if no signal changed in the section. */
  lemma EmptyMeans(d: Course)
    ensures Empty(d) <==> forall h :: 0 <= h < |d.open.log| ==> d.open.log[h] == []
  {
    var log := d.open.log;
    if Empty(d) {
      forall h | 0 <= h < |log| ensures log[h] == [] {
        TakenGrows(log, h + 1, |log|);
        Writer.TakenOne(log, h);
        SomeBytes(log[h]);
      }
    } else {
      var h := TakenSome(log, |log|);
    }
  }

  lemma SomeBytes(cs: seq<Change>)
    ensures ChainWriter.RawBytes(0, cs) == 0 ==> cs == []
  {
  }

  // ----- when time tables are in step -----

  /** The time table is as long as the list of the times announced. */
  predicate InStep(p: Part) {
    |p.times| == |p.announced|
  }

  /** In every section there is one entry too many for each flush that found
      nothing to flush. */
  ghost predicate Surplus(d: Course) {
    && |d.open.times| == |d.open.announced| + d.open.idle
    && forall k :: 0 <= k < |d.parts| ==> |d.parts[k].times| == |d.parts[k].announced| + d.parts[k].idle
  }

  lemma SurplusStep(breakSize: nat, d: Course, c: Call)
    requires Indexed(d) && Surplus(d)
    ensures Surplus(Advance(breakSize, d, c))
  {
    hide TimeTable.Wrap64, Due, Empty, AllAt;
  }

  lemma {:induction false} SurplusAlong(breakSize: nat, lens: seq<nat>, calls: seq<Call>)
    ensures Surplus(Follow(breakSize, lens, calls))
    decreases |calls|
  {
    hide Advance, Indexed;
    if calls != [] {
      IndexedAlong(breakSize, lens, calls[..|calls| - 1]);
      SurplusAlong(breakSize, lens, calls[..|calls| - 1]);
      SurplusStep(breakSize, Follow(breakSize, lens, calls[..|calls| - 1]), calls[|calls| - 1]);
    }
  }

  function Section(d: Course, k: nat): Part
    requires k <= |d.parts|
  {
    if k < |d.parts| then d.parts[k] else d.open
  }

  /** The section in which call `i` is made. */
  ghost function SectionAt(breakSize: nat, lens: seq<nat>, calls: seq<Call>, i: nat): nat
    requires i <= |calls|
  {
    |Follow(breakSize, lens, calls[..i]).parts|
  }

  /** Call `i` is a time change that calls for a flush with nothing to flush. */
  ghost predicate IdleAt(breakSize: nat, lens: seq<nat>, calls: seq<Call>, i: nat)
    requires i < |calls|
  {
    IdleFlush(breakSize, Follow(breakSize, lens, calls[..i]), calls[i])
  }

  /** No call made in section `k` is one. */
  ghost predicate IdleFree(breakSize: nat, lens: seq<nat>, calls: seq<Call>, k: nat) {
    forall i :: 0 <= i < |calls| && SectionAt(breakSize, lens, calls, i) == k ==> !IdleAt(breakSize, lens, calls, i)
  }

  lemma PrefixSame(breakSize: nat, lens: seq<nat>, calls: seq<Call>, n: nat, i: nat)
    requires i < n <= |calls|
    ensures SectionAt(breakSize, lens, calls[..n], i) == SectionAt(breakSize, lens, calls, i)
    ensures IdleAt(breakSize, lens, calls[..n], i) == IdleAt(breakSize, lens, calls, i)
  {
    hide Follow, IdleFlush;
    assert calls[..n][..i] == calls[..i];
  }

  /** What one call does to the idle flushes of the sections. */
  lemma IdleStep(breakSize: nat, d: Course, c: Call, k: nat)
    requires Sane(d)
    ensures var r := Advance(breakSize, d, c);
      && |d.parts| <= |r.parts| <= |d.parts| + 1
      && (k < |d.parts| ==> Section(r, k) == Section(d, k))
      && (k == |d.parts| ==> Section(r, k).idle == Section(d, k).idle + if IdleFlush(breakSize, d, c) then 1 else 0)
      && (k == |r.parts| > |d.parts| ==> Section(r, k).idle == 0 && !IdleFlush(breakSize, d, c))
  {
    hide TimeTable.Ticked, Due, Empty;
  }

  /** Sections are never reopened. */
  lemma {:induction false} SectionsGrow(breakSize: nat, lens: seq<nat>, calls: seq<Call>, i: nat, j: nat)
    requires i <= j <= |calls|
    ensures SectionAt(breakSize, lens, calls, i) <= SectionAt(breakSize, lens, calls, j)
    decreases j
  {
    hide Follow, Advance, IdleFlush;
    if i < j {
      SectionsGrow(breakSize, lens, calls, i, j - 1);
      FollowSnoc(breakSize, lens, calls, j - 1);
      IdleStep(breakSize, Follow(breakSize, lens, calls[..j - 1]), calls[j - 1], 0);
    }
  }

  lemma IdleFreeSnoc(breakSize: nat, lens: seq<nat>, calls: seq<Call>, k: nat)
    requires calls != []
    ensures var n := |calls| - 1;
      IdleFree(breakSize, lens, calls, k) <==>
      IdleFree(breakSize, lens, calls[..n], k) && !(SectionAt(breakSize, lens, calls, n) == k && IdleAt(breakSize, lens, calls, n))
  {
    hide SectionAt, IdleAt;
    var n := |calls| - 1;
    forall i | 0 <= i < n
      ensures SectionAt(breakSize, lens, calls[..n], i) == SectionAt(breakSize, lens, calls, i)
      ensures IdleAt(breakSize, lens, calls[..n], i) == IdleAt(breakSize, lens, calls, i)
    {
      PrefixSame(breakSize, lens, calls, n, i);
    }
  }

  /** In a section not begun before the last call nothing was called. */
  lemma NewSection(breakSize: nat, lens: seq<nat>, calls: seq<Call>, k: nat)
    requires calls != [] && SectionAt(breakSize, lens, calls, |calls| - 1) < k
    ensures IdleFree(breakSize, lens, calls, k)
  {
    hide SectionAt, IdleAt;
    forall i | 0 <= i < |calls| ensures SectionAt(breakSize, lens, calls, i) < k {
      SectionsGrow(breakSize, lens, calls, i, |calls| - 1);
    }
  }

  /** A section has idle flushes exactly if one of the calls made in it was one. */
  lemma {:induction false} IdleExactly(breakSize: nat, lens: seq<nat>, calls: seq<Call>, k: nat)
    requires k <= |Follow(breakSize, lens, calls).parts|
    ensures Section(Follow(breakSize, lens, calls), k).idle == 0 <==> IdleFree(breakSize, lens, calls, k)
    decreases |calls|
  {
    if calls == [] {
      assert IdleFree(breakSize, lens, calls, k);
    } else {
      hide Follow, Advance, IdleFlush, SectionAt, IdleAt, IdleFree;
      var n := |calls| - 1;
      var e := Follow(breakSize, lens, calls[..n]);
      LastSection(breakSize, lens, calls);
      IdleStep(breakSize, e, calls[n], k);
      IdleFreeSnoc(breakSize, lens, calls, k);
      if k <= |e.parts| {
        IdleExactly(breakSize, lens, calls[..n], k);
      } else {
        NewSection(breakSize, lens, calls, k);
      }
    }
  }

  lemma LastSection(breakSize: nat, lens: seq<nat>, calls: seq<Call>)
    requires calls != []
    ensures var n := |calls| - 1; var e := Follow(breakSize, lens, calls[..n]);
      && SectionAt(breakSize, lens, calls, n) == |e.parts| && IdleAt(breakSize, lens, calls, n) == IdleFlush(breakSize, e, calls[n])
      && Follow(breakSize, lens, calls) == Advance(breakSize, e, calls[n])
  {
    hide Advance, IdleFlush;
  }

  /** The time table of a section is that of the times announced exactly if no
      call made in it was a time change that called for a flush with nothing to
      flush. */
  lemma InStepExactly(breakSize: nat, lens: seq<nat>, calls: seq<Call>, k: nat)
    requires k <= |Follow(breakSize, lens, calls).parts|
    ensures InStep(Section(Follow(breakSize, lens, calls), k)) <==> IdleFree(breakSize, lens, calls, k)
  {
    hide Follow, IdleFree;
    SurplusAlong(breakSize, lens, calls);
    IdleExactly(breakSize, lens, calls, k);
  }

  lemma {:induction false} StartedStays(breakSize: nat, lens: seq<nat>, calls: seq<Call>, i: nat, j: nat)
    requires i <= j <= |calls| && Follow(breakSize, lens, calls[..i]).m.started
    ensures Follow(breakSize, lens, calls[..j]).m.started
    decreases j
  {
    hide Follow;
    if i < j {
      StartedStays(breakSize, lens, calls, i, j - 1);
      FollowSnoc(breakSize, lens, calls, j - 1);
    }
  }

  /** For the sections that are written to the file. */
  lemma FinalInStep(breakSize: nat, lens: seq<nat>, calls: seq<Call>)
    ensures var parts := Final(Follow(breakSize, lens, calls));
      forall k :: 0 <= k < |parts| ==> (InStep(parts[k]) <==> IdleFree(breakSize, lens, calls, k))
  {
    hide Follow, IdleFree, Filled;
    var d := Follow(breakSize, lens, calls);
    var parts := Final(d);
    forall k | 0 <= k < |parts| ensures InStep(parts[k]) <==> IdleFree(breakSize, lens, calls, k) {
      if d.m.started {
        InStepExactly(breakSize, lens, calls, k);
        assert parts[k] == Section(d, k);
      } else {
        NeverStarted(breakSize, lens, calls, k);
      }
    }
  }

  lemma NeverStarted(breakSize: nat, lens: seq<nat>, calls: seq<Call>, k: nat)
    requires !Follow(breakSize, lens, calls).m.started
    ensures IdleFree(breakSize, lens, calls, k)
  {
    hide Follow;
    assert calls[..|calls|] == calls;
    forall i | 0 <= i < |calls| ensures !IdleAt(breakSize, lens, calls, i) {
      if IdleAt(breakSize, lens, calls, i) { StartedStays(breakSize, lens, calls, i, |calls|); }
    }
  }

  /** Without flush requests, and with a break size that an empty buffer does not
      reach, no flush finds nothing to flush. */
  lemma {:induction false} NoRequests(breakSize: nat, lens: seq<nat>, calls: seq<Call>, i: nat)
    requires breakSize > 1 && i <= |calls| && forall k :: 0 <= k < |calls| ==> !calls[k].FlushContext?
    ensures !Follow(breakSize, lens, calls[..i]).pending
    ensures i < |calls| ==> !IdleAt(breakSize, lens, calls, i)
    decreases i
  {
    hide Filled, TimeTable.Ticked;
    if i > 0 {
      NoRequests(breakSize, lens, calls, i - 1);
      FollowSnoc(breakSize, lens, calls, i - 1);
    } else {
      assert calls[..0] == [];
    }
  }

  // ----- what sections begin with -----

  function LastOf(val: seq<byte>, events: seq<Event>): seq<byte> {
    if events == [] then val else events[|events| - 1].val
  }

  /** Every section begins with the values last told by the sections before it, or
      else those from before the first time change. */
  ghost predicate Begins(d: Course) {
    forall h :: 0 <= h < |d.m.vals| ==> BeginsOne(d, h)
  }

  ghost predicate BeginsOne(d: Course, h: nat)
    requires h < |d.m.vals|
  {
    && Sane(d)
    && FirstsOf(d.m.initial, d.parts, h)
    && d.open.first[h] == LastOf(d.m.initial[h], Told(d.parts, h))
    && d.m.vals[h] == LastOf(d.m.initial[h], Told(d.parts, h) + Made(d.open, h))
  }

  ghost predicate FirstsOf(initial: seq<seq<byte>>, parts: seq<Part>, h: nat)
    requires h < |initial|
  {
    forall k :: 0 <= k < |parts| ==> h < |parts[k].first| && parts[k].first[h] == LastOf(initial[h], Told(parts[..k], h))
  }

  lemma FirstsSnoc(initial: seq<seq<byte>>, parts: seq<Part>, p: Part, h: nat)
    requires h < |initial| && FirstsOf(initial, parts, h)
    requires h < |p.first| && p.first[h] == LastOf(initial[h], Told(parts, h))
    ensures FirstsOf(initial, parts + [p], h)
  {
    hide LastOf, Told;
    var more := parts + [p];
    forall k | 0 <= k < |more|
      ensures h < |more[k].first| && more[k].first[h] == LastOf(initial[h], Told(more[..k], h))
    {
      assert more[..k] == parts[..k];
      assert parts[..|parts|] == parts;
    }
  }

  lemma BeginsStep(breakSize: nat, d: Course, c: Call, h: nat)
    requires Indexed(d) && h < |d.m.vals| && BeginsOne(d, h)
    ensures BeginsOne(Advance(breakSize, d, c), h)
  {
    hide BeginsOne, Indexed;
    match c
    case FlushContext => BeginsFlush(breakSize, d, h);
    case ValueChange(handle, val) =>
      if d.m.started { BeginsValue(breakSize, d, handle, val, h); } else { BeginsEarly(breakSize, d, c, h); }
    case TimeChange(tim) =>
      if d.m.started { BeginsTime(breakSize, d, tim, h); } else { BeginsEarly(breakSize, d, c, h); }
  }

  lemma BeginsFlush(breakSize: nat, d: Course, h: nat)
    requires h < |d.m.vals| && BeginsOne(d, h)
    ensures BeginsOne(Advance(breakSize, d, FlushContext), h)
  {
    hide Made, Told, FirstsOf;
  }

  lemma BeginsEarly(breakSize: nat, d: Course, c: Call, h: nat)
    requires Indexed(d) && h < |d.m.vals| && BeginsOne(d, h) && !d.m.started
    ensures BeginsOne(Advance(breakSize, d, c), h)
  {
    hide Made, Told, FirstsOf;
    var r := Advance(breakSize, d, c);
    NothingTold(d, h);
    MadeNone(r.open, h);
    FirstsNone(r.m.initial, h);
  }

  lemma BeginsValue(breakSize: nat, d: Course, handle: nat, val: seq<byte>, h: nat)
    requires Indexed(d) && h < |d.m.vals| && BeginsOne(d, h) && d.m.started
    ensures BeginsOne(Advance(breakSize, d, ValueChange(handle, val)), h)
  {
    hide Made, Told, FirstsOf;
    if 0 < handle <= |d.m.vals| {
      MadeValue(d.open, d.index, handle - 1, val, h);
      Assoc(Told(d.parts, h), Made(d.open, h), if h == handle - 1 then [Event(d.m.now, h + 1, val)] else []);
    }
  }

  lemma BeginsTime(breakSize: nat, d: Course, tim: nat, h: nat)
    requires Indexed(d) && h < |d.m.vals| && BeginsOne(d, h) && d.m.started
    ensures BeginsOne(Advance(breakSize, d, TimeChange(tim)), h)
  {
    hide TimeTable.Ticked, Due, Empty, Made, Told, FirstsOf;
    var r := Advance(breakSize, d, TimeChange(tim));
    if r.parts == d.parts {
      MadeTime(d.open, r.open, tim, h);
    } else {
      ToldSnoc(d.parts, d.open, h);
      FirstsSnoc(d.m.initial, d.parts, d.open, h);
      MadeNone(r.open, h);
      Assoc(Told(r.parts, h), [], []);
    }
  }

  lemma FirstsNone(initial: seq<seq<byte>>, h: nat)
    requires h < |initial|
    ensures FirstsOf(initial, [], h)
  {
  }

  lemma NothingTold(d: Course, h: nat)
    requires Indexed(d) && !d.m.started && h < |d.m.vals|
    ensures Told(d.parts, h) == [] && Made(d.open, h) == [] && Told(d.parts, h) + Made(d.open, h) == []
  {
    MadeNone(d.open, h);
  }

  lemma {:induction false} BeginsAlong(breakSize: nat, lens: seq<nat>, calls: seq<Call>)
    ensures Begins(Follow(breakSize, lens, calls))
    decreases |calls|
  {
    hide Advance, Indexed, BeginsOne;
    var d := Follow(breakSize, lens, calls);
    if calls == [] {
      forall h | 0 <= h < |d.m.vals| ensures BeginsOne(d, h) { BeginsOutset(lens, h); }
    } else {
      var front, c := calls[..|calls| - 1], calls[|calls| - 1];
      var e := Follow(breakSize, lens, front);
      IndexedAlong(breakSize, lens, front);
      BeginsAlong(breakSize, lens, front);
      SameWidth(e.m, c);
      forall h | 0 <= h < |d.m.vals| ensures BeginsOne(d, h) { BeginsStep(breakSize, e, c, h); }
    }
  }

  lemma BeginsOutset(lens: seq<nat>, h: nat)
    requires h < |lens|
    ensures BeginsOne(Outset(lens), h)
  {
    IndexedOutset(lens);
    NothingTold(Outset(lens), h);
  }

  lemma FinalBegins(d: Course, h: nat)
    requires Indexed(d) && Begins(d) && h < |d.m.vals|
    ensures h < |d.m.initial| && FirstsOf(d.m.initial, Final(d), h)
  {
    hide Told, Made;
    assert BeginsOne(d, h);
    if d.m.started {
      if Empty(d) {
        assert d.parts + [] == d.parts;
      } else {
        FirstsSnoc(d.m.initial, d.parts, d.open, h);
      }
    } else {
      ToldOne(d.open, h);
      assert forall k :: 0 <= k < |Final(d)| ==> Final(d)[..k] == [];
    }
  }

  // ----- where the first section begins -----

  /** The first section begins at the first time, or at 0 if a value was given
      before it; its first time is the first time announced. */
  ghost predicate Opens(d: Course) {
    d.m.started ==>
      var p := Section(d, 0);
      && p.begTim == (if d.m.given then 0 else d.m.begin)
      && p.times != [] && p.times[0] == d.m.begin
  }

  lemma OpensStep(breakSize: nat, d: Course, c: Call)
    requires Indexed(d) && Opens(d)
    ensures Opens(Advance(breakSize, d, c))
  {
    hide TimeTable.Wrap64, Due, Empty, AllAt;
  }

  lemma {:induction false} OpensAlong(breakSize: nat, lens: seq<nat>, calls: seq<Call>)
    ensures Opens(Follow(breakSize, lens, calls))
    decreases |calls|
  {
    hide Advance, Indexed;
    if calls != [] {
      var front := calls[..|calls| - 1];
      IndexedAlong(breakSize, lens, front);
      OpensAlong(breakSize, lens, front);
      OpensStep(breakSize, Follow(breakSize, lens, front), calls[|calls| - 1]);
    }
  }

  /** The values a file begins with are reported exactly if it has a section at
      all, a value of a known signal was given before the first time change, and
      that was at another time than zero. */
  ghost predicate ShowsFirst(m: Meaning, parts: seq<Part>) {
    m.started && m.given && m.begin != 0 && parts != []
  }

  lemma FinalOpens(d: Course)
    requires Opens(d)
    ensures var parts := Final(d);
      && (parts != [] && parts[0].times != [] && parts[0].begTim != parts[0].times[0] <==> ShowsFirst(d.m, parts))
      && (ShowsFirst(d.m, parts) ==> parts[0].begTim == 0)
      && (parts != [] ==> parts[0].times != [])
  {
    hide Empty;
  }

  // ----- time goes forward -----

  /** Times are announced in order. */
  ghost predicate TimeGoesOn(calls: seq<Call>) {
    forall i, j :: 0 <= i < j < |calls| && calls[i].TimeChange? && calls[j].TimeChange? ==> calls[i].tim <= calls[j].tim
  }

  ghost predicate ForwardOne(p: Part) {
    && p.announced != [] && Reader.Ascending(p.announced) && p.begTim <= p.announced[0]
    && p.endTim == p.announced[|p.announced| - 1]
  }

  /** Every section begins where the one before it ended, and in each the times
      announced are in order. */
  ghost predicate Forward(parts: seq<Part>) {
    && (forall k :: 0 <= k < |parts| ==> ForwardOne(parts[k]))
    && forall k :: 0 < k < |parts| ==> parts[k].begTim == parts[k - 1].endTim
  }

  ghost predicate GoesForward(d: Course) {
    if d.m.started then Forward(d.parts + [d.open]) else d.parts == []
  }

  lemma AscendingSnoc(times: seq<nat>, t: nat)
    requires Reader.Ascending(times) && (times != [] ==> times[|times| - 1] <= t)
    ensures Reader.Ascending(times + [t])
  {
    forall k | 0 <= k < |times| ensures times[k] <= t {
      assert k < |times| - 1 ==> times[k] <= times[|times| - 1];
    }
  }

  lemma ForwardStep(breakSize: nat, d: Course, c: Call)
    requires Indexed(d) && GoesForward(d) && (c.TimeChange? && d.m.started ==> d.m.now <= c.tim)
    ensures GoesForward(Advance(breakSize, d, c))
  {
    hide TimeTable.Ticked, Due, Empty, AllAt, Reader.Ascending;
    var r := Advance(breakSize, d, c);
    if d.m.started {
      var n := |d.parts|;
      assert (d.parts + [d.open])[n] == d.open;
      assert forall k :: 0 <= k < n ==> (d.parts + [d.open])[k] == d.parts[k];
      if c.TimeChange? {
        AscendingSnoc(d.open.announced, c.tim);
        TwoAscend(d.m.now, c.tim);
      }
      ForwardLast(d, r);
    } else if c.TimeChange? {
      OneAscends(c.tim);
      assert r.parts + [r.open] == [r.open];
    }
  }

  lemma OneAscends(t: nat)
    ensures Reader.Ascending([t])
  {
  }

  lemma TwoAscend(t: nat, u: nat)
    requires t <= u
    ensures Reader.Ascending([t, u])
  {
  }

  lemma ForwardLast(d: Course, r: Course)
    requires Forward(d.parts + [d.open]) && ForwardOne(r.open)
    requires (r.parts == d.parts && r.open.begTim == d.open.begTim)
          || (r.parts == d.parts + [d.open] && r.open.begTim == d.open.endTim)
    ensures Forward(r.parts + [r.open])
  {
    hide ForwardOne;
    var a, b := d.parts + [d.open], r.parts + [r.open];
    forall k | 0 <= k < |b| ensures ForwardOne(b[k]) {
      if k < |r.parts| { assert b[k] == a[k]; }
    }
    forall k | 0 < k < |b| ensures b[k].begTim == b[k - 1].endTim {
      assert k < |a| ==> a[k].begTim == a[k - 1].endTim;
    }
  }

  lemma {:induction false} ForwardAlong(breakSize: nat, lens: seq<nat>, calls: seq<Call>)
    requires TimeGoesOn(calls)
    ensures GoesForward(Follow(breakSize, lens, calls))
    decreases |calls|
  {
    hide Advance, Indexed, Forward;
    if calls != [] {
      var n := |calls| - 1;
      IndexedAlong(breakSize, lens, calls[..n]);
      ForwardAlong(breakSize, lens, calls[..n]);
      if Follow(breakSize, lens, calls[..n]).m.started { var j := NowIsCall(Start(lens), calls[..n]); }
      ForwardStep(breakSize, Follow(breakSize, lens, calls[..n]), calls[n]);
    }
  }

  lemma {:induction false} NowIsCall(m: Meaning, calls: seq<Call>) returns (j: nat)
    requires !m.started && Run(m, calls).started
    ensures j < |calls| && calls[j] == TimeChange(Run(m, calls).now)
    decreases |calls|
  {
    var n := |calls| - 1;
    if calls[n].TimeChange? { j := n; } else { j := NowIsCall(m, calls[..n]); }
  }

  lemma FinalForward(d: Course)
    requires GoesForward(d)
    ensures Forward(Final(d))
  {
    hide Empty, ForwardOne;
    if d.m.started {
      var all := d.parts + [d.open];
      assert forall k :: 0 <= k < |d.parts| ==> d.parts[k] == all[k];
      assert d.parts + [] == d.parts;
    } else {
      ZeroForward(d.m.vals);
    }
  }

  lemma ZeroForward(vals: seq<seq<byte>>)
    ensures ForwardOne(Part(0, 0, [0], [0], 0, vals, Writer.AtZero(vals)))
  {
  }

  // ----- sizes -----

  /** What the caller of the writer has to see to. */
  ghost predicate Acceptable(lens: seq<nat>, c: Call) {
    match c
    case TimeChange(tim) => tim < TWO_64
    case ValueChange(handle, val) => handle >= 1 && (handle <= |lens| ==> |val| == lens[handle - 1])
    case FlushContext => true
  }

  /** The buffer never outgrows the positions there are for its chains, which
      have 31 bits, nor the number of calls the 32 bits of a time index. */
  ghost predicate Roomy(breakSize: nat, lens: seq<nat>, calls: seq<Call>) {
    |calls| < TWO_32 - 1 && forall i :: 0 <= i <= |calls| ==> Filled(Follow(breakSize, lens, calls[..i])) <= 0x4000_0000
  }

  ghost predicate SizedOne(n: nat, p: Part) {
    && |p.announced| <= n && (p.announced == [] ==> p.idle == 0) && (p.announced != [] ==> p.idle < |p.announced|)
    && p.begTim < TWO_64 && p.endTim < TWO_64
  }

  ghost predicate Sized(n: nat, d: Course) {
    && d.m.now < TWO_64 && SizedOne(n, d.open) && (d.m.started ==> d.open.announced != [])
    && forall k :: 0 <= k < |d.parts| ==> SizedOne(n, d.parts[k])
  }

  lemma SizedStep(breakSize: nat, lens: seq<nat>, n: nat, d: Course, c: Call)
    requires Indexed(d) && Sized(n, d) && Acceptable(lens, c)
    ensures Sized(n + 1, Advance(breakSize, d, c))
  {
    hide TimeTable.Ticked, Due, Empty, AllAt;
  }

  lemma {:induction false} SizedAlong(breakSize: nat, lens: seq<nat>, calls: seq<Call>)
    requires forall k :: 0 <= k < |calls| ==> Acceptable(lens, calls[k])
    ensures Sized(|calls|, Follow(breakSize, lens, calls))
    decreases |calls|
  {
    hide Advance, Acceptable, Indexed;
    if calls != [] {
      var n := |calls| - 1;
      IndexedAlong(breakSize, lens, calls[..n]);
      SizedAlong(breakSize, lens, calls[..n]);
      SizedStep(breakSize, lens, n, Follow(breakSize, lens, calls[..n]), calls[n]);
    }
  }

  lemma FinalSized(n: nat, d: Course)
    requires Sized(n, d)
    ensures forall k :: 0 <= k < |Final(d)| ==> SizedOne(n + 1, Final(d)[k])
  {
    hide Empty;
  }

  // ----- when sections end -----

  /** A flush request does nothing but be remembered, and only if the section has had
      three times announced. */
  lemma RequestTaken(breakSize: nat, lens: seq<nat>, calls: seq<Call>)
    ensures var d, r := Follow(breakSize, lens, calls), Follow(breakSize, lens, calls + [FlushContext]);
      r == d.(pending := r.pending) && (r.pending <==> d.pending || |d.open.announced| >= 3)
  {
    hide Follow, AllAt;
    FollowMore(breakSize, lens, calls, FlushContext);
    IndexedAlong(breakSize, lens, calls);
  }

  lemma FollowMore(breakSize: nat, lens: seq<nat>, calls: seq<Call>, c: Call)
    ensures Follow(breakSize, lens, calls + [c]) == Advance(breakSize, Follow(breakSize, lens, calls), c)
  {
    hide Advance;
    assert (calls + [c])[..|calls|] == calls;
  }

  /** A time change ends the section if the buffer has reached the break size or a flush
      is asked for, and if anything changed in the section. The next one begins at the
      time that was now, with that time and the new one. */
  lemma SectionEnds(breakSize: nat, lens: seq<nat>, calls: seq<Call>, tim: nat)
    requires Run(Start(lens), calls).started
    ensures var d, r := Follow(breakSize, lens, calls), Follow(breakSize, lens, calls + [TimeChange(tim)]);
      var ends := (Filled(d) >= breakSize || d.pending) && exists h :: 0 <= h < |d.open.log| && d.open.log[h] != [];
      && !r.pending
      && (ends ==> r.parts == d.parts + [d.open] && r.open.begTim == d.m.now && r.open.announced == [d.m.now, tim]
                   && r.open.first == d.m.vals && forall h :: 0 <= h < |r.open.log| ==> r.open.log[h] == [])
      && (!ends ==> r.parts == d.parts && r.open.log == d.open.log && r.open.announced == d.open.announced + [tim]
                    && r.open.begTim == d.open.begTim && r.open.first == d.open.first)
  {
    hide Follow, Filled, TimeTable.Ticked, Run;
    FollowMore(breakSize, lens, calls, TimeChange(tim));
    EmptyMeans(Follow(breakSize, lens, calls));
  }

  // ----- how full the buffer gets -----

  /** Changes are at indices up to the present one, in order. */
  ghost predicate Recent(d: Course) {
    forall h :: 0 <= h < |d.open.log| ==> RecentOne(d.open.log[h], d.index)
  }

  ghost predicate RecentOne(cs: seq<Change>, idx: nat) {
    (forall i :: 0 <= i < |cs| ==> cs[i].tidx <= idx) && forall i, j :: 0 <= i < j < |cs| ==> cs[i].tidx <= cs[j].tidx
  }

  /** What a call adds to the buffer at most. */
  function Weight(c: Call): nat {
    if c.ValueChange? then 10 + |c.val| else 0
  }

  function Weights(calls: seq<Call>): nat {
    if calls == [] then 0 else Weights(calls[..|calls| - 1]) + Weight(calls[|calls| - 1])
  }

  lemma RecentStep(breakSize: nat, d: Course, c: Call)
    requires Sane(d) && Recent(d)
    ensures Recent(Advance(breakSize, d, c))
  {
    hide TimeTable.Ticked, Due, Empty;
  }

  lemma TakenMore(log: seq<seq<Change>>, g: nat, idx: nat, val: seq<byte>)
    requires g < |log| && RecentOne(log[g], idx) && idx < TWO_32
    ensures Taken(log[g := log[g] + [Change(idx, val)]], |log|) <= Taken(log, |log|) + 10 + |val|
  {
    hide Taken, ChainWriter.RawBytes, ChainWriter.RawSize;
    var c := Change(idx, val);
    ChainWriter.RawBytesSnoc(0, log[g], c);
    TakenUpdate(log, g, log[g] + [c], |log|);
    Writer.RecordSize(idx - (if log[g] == [] then 0 else ChainWriter.LastTime(log[g])), val);
  }

  lemma FilledStep(breakSize: nat, d: Course, c: Call)
    requires Sane(d) && Recent(d) && d.index < TWO_32
    ensures Filled(Advance(breakSize, d, c)) <= Filled(d) + Weight(c)
  {
    hide TimeTable.Ticked, Due, Taken, RecentOne;
    var r := Advance(breakSize, d, c);
    if c.ValueChange? && 0 < c.handle <= |d.m.vals| && d.m.started {
      TakenMore(d.open.log, c.handle - 1, d.index, c.val);
    } else if r.open.log != d.open.log {
      NothingTaken(r.open.log, |r.open.log|);
    }
  }

  /** The buffer is never fuller than all value changes together. */
  lemma {:induction false} FilledBound(breakSize: nat, lens: seq<nat>, calls: seq<Call>)
    requires |calls| < TWO_32 && forall k :: 0 <= k < |calls| ==> Acceptable(lens, calls[k])
    ensures Recent(Follow(breakSize, lens, calls)) && Filled(Follow(breakSize, lens, calls)) <= 1 + Weights(calls)
    decreases |calls|
  {
    hide Advance, Acceptable, Indexed, Filled, Recent;
    if calls == [] {
      FilledOutset(lens);
    } else {
      var n := |calls| - 1;
      var d := Follow(breakSize, lens, calls[..n]);
      FilledBound(breakSize, lens, calls[..n]);
      IndexSmall(breakSize, lens, calls[..n]);
      RecentStep(breakSize, d, calls[n]);
      FilledStep(breakSize, d, calls[n]);
    }
  }

  lemma FilledOutset(lens: seq<nat>)
    ensures Recent(Outset(lens)) && Filled(Outset(lens)) == 1
  {
    NothingTaken(Outset(lens).open.log, |lens|);
  }

  lemma IndexSmall(breakSize: nat, lens: seq<nat>, calls: seq<Call>)
    requires forall k :: 0 <= k < |calls| ==> Acceptable(lens, calls[k])
    ensures Follow(breakSize, lens, calls).index <= |calls|
  {
    hide Follow, Acceptable, AllAt;
    SizedAlong(breakSize, lens, calls);
    IndexedAlong(breakSize, lens, calls);
  }

  /** A run whose value changes take up less than 2^30 bytes has room, whenever it
      flushes. */
  lemma SmallIsRoomy(breakSize: nat, lens: seq<nat>, calls: seq<Call>)
    requires |calls| < TWO_32 - 1 && forall k :: 0 <= k < |calls| ==> Acceptable(lens, calls[k])
    requires Weights(calls) < 0x4000_0000
    ensures Roomy(breakSize, lens, calls)
  {
    hide Follow, Filled, Acceptable;
    forall i | 0 <= i <= |calls| ensures Filled(Follow(breakSize, lens, calls[..i])) <= 0x4000_0000 {
      FilledBound(breakSize, lens, calls[..i]);
      WeightsGrow(calls, i, |calls|);
      assert calls[..|calls|] == calls;
    }
  }

  lemma {:induction false} WeightsGrow(calls: seq<Call>, i: nat, n: nat)
    requires i <= n <= |calls|
    ensures Weights(calls[..i]) <= Weights(calls[..n])
    decreases n
  {
    if i < n {
      assert calls[..n][..n - 1] == calls[..n - 1];
      WeightsGrow(calls, i, n - 1);
    }
  }

  /** A run without flush requests whose value changes do not reach the break size has
      one section only. */
  lemma {:induction false} OneSection(breakSize: nat, lens: seq<nat>, calls: seq<Call>)
    requires |calls| < TWO_32 && forall k :: 0 <= k < |calls| ==> Acceptable(lens, calls[k]) && !calls[k].FlushContext?
    requires 1 + Weights(calls) < breakSize
    ensures var d := Follow(breakSize, lens, calls); !d.pending && d.parts == [] && |Final(d)| <= 1
    decreases |calls|
  {
    hide Acceptable, Filled, TimeTable.Ticked, Indexed;
    if calls != [] {
      var n := |calls| - 1;
      OneSection(breakSize, lens, calls[..n]);
      FilledBound(breakSize, lens, calls[..n]);
    }
  }

  // ----- from the calls -----

  /** Call `i` is the first time change of all. */
  ghost predicate FirstTime(calls: seq<Call>, i: nat) {
    i < |calls| && calls[i].TimeChange? && forall j :: 0 <= j < i ==> !calls[j].TimeChange?
  }

  /** Call `i` is the last one. */
  ghost predicate LastTime(calls: seq<Call>, i: nat) {
    i < |calls| && calls[i].TimeChange? && forall j :: i < j < |calls| ==> !calls[j].TimeChange?
  }

  /** Call `i` gives a value to a known signal. */
  predicate Gives(n: nat, calls: seq<Call>, i: nat) {
    i < |calls| && calls[i].ValueChange? && 1 <= calls[i].handle <= n
  }

  /** When a run has begun, and at what time. */
  lemma {:induction false} MeansOfBegin(lens: seq<nat>, calls: seq<Call>)
    ensures var m := Run(Start(lens), calls);
      && (m.started <==> exists i :: 0 <= i < |calls| && calls[i].TimeChange?)
      && forall i: nat :: FirstTime(calls, i) ==> m.begin == calls[i].tim
    decreases |calls|
  {
    hide Run, Step;
    if calls == [] {
      RunNothing(lens);
    } else {
      var n := |calls| - 1;
      MeansOfBegin(lens, calls[..n]);
      TimeSnoc(lens, calls);
      forall i: nat | FirstTime(calls, i) ensures Run(Start(lens), calls).begin == calls[i].tim {
        if i < n { assert FirstTime(calls[..n], i); }
      }
    }
  }

  lemma RunNothing(lens: seq<nat>)
    ensures Run(Start(lens), []) == Start(lens)
  {
  }

  /** What time it is. */
  lemma {:induction false} MeansOfTime(lens: seq<nat>, calls: seq<Call>, i: nat)
    requires LastTime(calls, i)
    ensures Run(Start(lens), calls).now == calls[i].tim
    decreases |calls|
  {
    hide Run, Step;
    var n := |calls| - 1;
    TimeSnoc(lens, calls);
    if i < n {
      assert LastTime(calls[..n], i);
      MeansOfTime(lens, calls[..n], i);
    }
  }

  lemma TimeSnoc(lens: seq<nat>, calls: seq<Call>)
    requires calls != []
    ensures var n := |calls| - 1;
      var m, r, c := Run(Start(lens), calls[..n]), Run(Start(lens), calls), calls[n];
      && r.started == (m.started || c.TimeChange?) && r.begin == (if !m.started && c.TimeChange? then c.tim else m.begin)
      && r.now == (if c.TimeChange? then c.tim else m.now)
      && r.given == (m.given || (!m.started && Gives(|m.vals|, calls, n))) && |r.vals| == |m.vals|
  {
  }

  /** Whether a known signal was given a value before the first time change. */
  lemma {:induction false} MeansOfGiven(lens: seq<nat>, calls: seq<Call>)
    ensures var m := Run(Start(lens), calls);
      |m.vals| == |lens| && (m.given <==> exists i: nat :: GivesEarly(|lens|, calls, i))
    decreases |calls|
  {
    if calls != [] {
      var n := |calls| - 1;
      MeansOfGiven(lens, calls[..n]);
      MeansOfBegin(lens, calls[..n]);
      TimeSnoc(lens, calls);
      forall i: nat | i < n ensures GivesEarly(|lens|, calls, i) <==> GivesEarly(|lens|, calls[..n], i) {
      }
      if Run(Start(lens), calls).given && !Run(Start(lens), calls[..n]).given { assert GivesEarly(|lens|, calls, n); }
    }
  }

  ghost predicate GivesEarly(n: nat, calls: seq<Call>, i: nat) {
    Gives(n, calls, i) && forall j :: 0 <= j < i ==> !calls[j].TimeChange?
  }

  /** A file begins at the first time, or at 0 if a value of a known signal came before
      it; it ends at the last time if a signal has changed since the last flush, and
      otherwise where that flush left off. */
  lemma FileSpan(breakSize: nat, lens: seq<nat>, calls: seq<Call>)
    ensures var d := Follow(breakSize, lens, calls); var parts := Final(d);
      d.m.started && parts != [] ==>
        && parts[0].begTim == (if d.m.given then 0 else d.m.begin)
        && parts[|parts| - 1].endTim == (if Empty(d) then d.parts[|d.parts| - 1].endTim else d.m.now)
  {
    hide Follow, Filled;
    OpensAlong(breakSize, lens, calls);
    IndexedAlong(breakSize, lens, calls);
  }
}
