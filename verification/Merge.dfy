/** The merge at the heart of fstReaderIterBlocks2 (src/fst/fstapi.c): chains of
    many signals are played back in time order by a bucket queue made of two
    index arrays. tc_head[t] is one more than the first signal whose next change
    is at time index t, scatterptr[h] one more than the signal after h in the
    same bucket, and zero ends a bucket. */
module Merge {
  import opened Bytes
  import opened Chain
  import Varint

  /** One callback: the signal's handle counts from 1. */
  datatype Event = Event(time: nat, handle: nat, val: seq<byte>)

  // ----- buckets in two index arrays -----

  /** The link to element `j` of a bucket. */
  ghost function Link(bucket: seq<nat>, j: nat): nat {
    if j < |bucket| then bucket[j] + 1 else 0
  }

  ghost predicate Linked(head: nat, scatter: seq<nat>, bucket: seq<nat>) {
    && head == Link(bucket, 0)
    && forall j :: 0 <= j < |bucket| ==> bucket[j] < |scatter| && scatter[bucket[j]] == Link(bucket, j + 1)
  }

  /** No signal is in two places. */
  ghost predicate NoDuplicates(buckets: seq<seq<nat>>) {
    forall t, j, u, k ::
      (0 <= t < |buckets| && 0 <= j < |buckets[t]| && 0 <= u < |buckets| && 0 <= k < |buckets[u]|
       && buckets[t][j] == buckets[u][k]) ==> t == u && j == k
  }

  ghost predicate Queue(heads: seq<nat>, scatter: seq<nat>, buckets: seq<seq<nat>>) {
    && |heads| == |buckets|
    && (forall t :: 0 <= t < |heads| ==> Linked(heads[t], scatter, buckets[t]))
    && NoDuplicates(buckets)
  }

  ghost predicate Nowhere(buckets: seq<seq<nat>>, h: nat) {
    forall t :: 0 <= t < |buckets| ==> h !in buckets[t]
  }

  lemma LinkedElsewhere(head: nat, scatter: seq<nat>, bucket: seq<nat>, h: nat, link: nat)
    requires Linked(head, scatter, bucket) && h < |scatter| && h !in bucket
    ensures Linked(head, scatter[h := link], bucket)
  {
  }

  lemma LinkedPush(head: nat, scatter: seq<nat>, bucket: seq<nat>, h: nat)
    requires Linked(head, scatter, bucket) && h < |scatter| && h !in bucket
    ensures Linked(h + 1, scatter[h := head], [h] + bucket)
  {
    var pushed := [h] + bucket;
    assert forall j :: 0 <= j < |pushed| ==> pushed[j] == if j == 0 then h else bucket[j - 1];
  }

  lemma NoDuplicatesPush(buckets: seq<seq<nat>>, t: nat, h: nat)
    requires NoDuplicates(buckets) && t < |buckets| && Nowhere(buckets, h)
    ensures NoDuplicates(buckets[t := [h] + buckets[t]])
  {
    var after := buckets[t := [h] + buckets[t]];
    assert forall j :: 0 < j < |after[t]| ==> after[t][j] == buckets[t][j - 1];
    assert forall u, k :: 0 <= u < |buckets| && 0 <= k < |buckets[u]| ==> buckets[u][k] != h;
  }

  lemma Push(heads: seq<nat>, scatter: seq<nat>, buckets: seq<seq<nat>>, h: nat, t: nat)
    requires Queue(heads, scatter, buckets) && t < |heads| && h < |scatter| && Nowhere(buckets, h)
    ensures Queue(heads[t := h + 1], scatter[h := heads[t]], buckets[t := [h] + buckets[t]])
  {
    hide Linked, NoDuplicates;
    NoDuplicatesPush(buckets, t, h);
    LinkedPush(heads[t], scatter, buckets[t], h);
    forall u | 0 <= u < |heads| && u != t ensures Linked(heads[u], scatter[h := heads[t]], buckets[u]) {
      LinkedElsewhere(heads[u], scatter, buckets[u], h, heads[t]);
    }
  }

  lemma LinkedPop(head: nat, scatter: seq<nat>, bucket: seq<nat>)
    requires Linked(head, scatter, bucket) && bucket != [] && bucket[0] !in bucket[1..]
    ensures head == bucket[0] + 1 && bucket[0] < |scatter|
    ensures Linked(scatter[bucket[0]], scatter[bucket[0] := 0], bucket[1..])
  {
    var rest := bucket[1..];
    assert forall j :: 0 <= j < |rest| ==> rest[j] == bucket[j + 1];
  }

  lemma NoDuplicatesPop(buckets: seq<seq<nat>>, t: nat)
    requires NoDuplicates(buckets) && t < |buckets| && buckets[t] != []
    ensures NoDuplicates(buckets[t := buckets[t][1..]])
    ensures Nowhere(buckets[t := buckets[t][1..]], buckets[t][0])
  {
    var after := buckets[t := buckets[t][1..]];
    assert forall j :: 0 <= j < |after[t]| ==> after[t][j] == buckets[t][j + 1];
  }

  lemma Pop(heads: seq<nat>, scatter: seq<nat>, buckets: seq<seq<nat>>, t: nat)
    requires Queue(heads, scatter, buckets) && t < |heads| && heads[t] != 0
    ensures buckets[t] != [] && heads[t] == buckets[t][0] + 1 && buckets[t][0] < |scatter|
    ensures var h := buckets[t][0];
      && Queue(heads[t := scatter[h]], scatter[h := 0], buckets[t := buckets[t][1..]])
      && Nowhere(buckets[t := buckets[t][1..]], h)
  {
    hide NoDuplicates;
    assert Linked(heads[t], scatter, buckets[t]);
    NoDuplicatesPop(buckets, t);
    var h, after := buckets[t][0], buckets[t := buckets[t][1..]];
    assert h !in after[t];
    LinkedPop(heads[t], scatter, buckets[t]);
    forall u | 0 <= u < |heads| && u != t ensures Linked(heads[u], scatter[h := 0], buckets[u]) {
      assert h !in after[u];
      LinkedElsewhere(heads[u], scatter, buckets[u], h, 0);
    }
  }

  // ----- signals and their buckets -----

  /** A signal with changes left is in the bucket of its next change, and only
      such signals are in buckets. */
  ghost predicate Placed(buckets: seq<seq<nat>>, todo: seq<seq<Change>>) {
    && (forall t, h :: 0 <= t < |buckets| && h in buckets[t] ==> Next(todo, h, t))
    && (forall h :: 0 <= h < |todo| && todo[h] != [] ==> In(buckets, h, todo[h][0].tidx))
  }

  predicate Next(todo: seq<seq<Change>>, h: nat, t: nat) {
    h < |todo| && todo[h] != [] && todo[h][0].tidx == t
  }

  predicate In(buckets: seq<seq<nat>>, h: nat, t: nat) {
    t < |buckets| && h in buckets[t]
  }

  lemma PlacedPush(buckets: seq<seq<nat>>, todo: seq<seq<Change>>, h: nat, cs: seq<Change>)
    requires Placed(buckets, todo) && h < |todo| && todo[h] == [] && cs != [] && cs[0].tidx < |buckets|
    ensures Nowhere(buckets, h)
    ensures var t := cs[0].tidx; Placed(buckets[t := [h] + buckets[t]], todo[h := cs])
  {
    forall t | 0 <= t < |buckets| ensures h !in buckets[t] {
      assert !Next(todo, h, t);
    }
    var t := cs[0].tidx;
    var after, todo' := buckets[t := [h] + buckets[t]], todo[h := cs];
    forall u, g | 0 <= u < |after| && g in after[u] ensures Next(todo', g, u) {
      if g in buckets[u] { assert Next(todo, g, u); } else { assert g == h && u == t; }
    }
    forall g | 0 <= g < |todo'| && todo'[g] != [] ensures In(after, g, todo'[g][0].tidx) {
      if g == h { assert after[t][0] == h; } else {
        assert In(buckets, g, todo[g][0].tidx);
        if todo[g][0].tidx == t { InTail(h, buckets[t], g); }
      }
    }
  }

  lemma Somewhere(buckets: seq<seq<nat>>, todo: seq<seq<Change>>, h: nat)
    requires Placed(buckets, todo) && h < |todo|
    ensures todo[h] != [] ==> exists t :: 0 <= t < |buckets| && buckets[t] != []
  {
    if todo[h] != [] {
      assert In(buckets, h, todo[h][0].tidx);
    }
  }

  lemma InTail(h: nat, rest: seq<nat>, g: nat)
    ensures g in [h] + rest <==> g == h || g in rest
  {
  }

  lemma PlacedPop(buckets: seq<seq<nat>>, todo: seq<seq<Change>>, t: nat)
    requires Placed(buckets, todo) && NoDuplicates(buckets) && t < |buckets| && buckets[t] != []
    ensures var h := buckets[t][0];
      && Next(todo, h, t)
      && Placed(buckets[t := buckets[t][1..]], todo[h := []])
  {
    hide NoDuplicates;
    var h := buckets[t][0];
    assert h in buckets[t];
    assert Next(todo, h, t);
    NoDuplicatesPop(buckets, t);
    var after, todo' := buckets[t := buckets[t][1..]], todo[h := []];
    assert buckets[t] == [h] + after[t];
    forall u, g | 0 <= u < |after| && g in after[u] ensures Next(todo', g, u) {
      InTail(h, after[t], g);
      assert g in buckets[u];
      assert Next(todo, g, u);
      assert h !in after[u];
    }
    forall g | 0 <= g < |todo'| && todo'[g] != [] ensures In(after, g, todo'[g][0].tidx) {
      assert In(buckets, g, todo[g][0].tidx);
      InTail(h, after[t], g);
    }
  }

  // ----- what comes out -----

  /** The callbacks of one signal. */
  function Of(events: seq<Event>, h: nat): seq<Event> {
    if events == [] then []
    else
      var front, e := events[..|events| - 1], events[|events| - 1];
      Of(front, h) + if e.handle == h + 1 then [e] else []
  }

  lemma OfSnoc(events: seq<Event>, e: Event, h: nat)
    ensures Of(events + [e], h) == Of(events, h) + if e.handle == h + 1 then [e] else []
  {
    assert (events + [e])[..|events|] == events;
  }

  /** The callbacks a signal's changes stand for. */
  function Delivery(times: seq<nat>, h: nat, cs: seq<Change>): (r: seq<Event>)
    requires forall k :: 0 <= k < |cs| ==> cs[k].tidx < |times|
    ensures |r| == |cs|
  {
    seq(|cs|, k requires 0 <= k < |cs| => Event(times[cs[k].tidx], h + 1, cs[k].val))
  }

  lemma DeliveryCons(times: seq<nat>, h: nat, cs: seq<Change>)
    requires cs != [] && forall k :: 0 <= k < |cs| ==> cs[k].tidx < |times|
    ensures Delivery(times, h, cs) == [Event(times[cs[0].tidx], h + 1, cs[0].val)] + Delivery(times, h, cs[1..])
  {
  }

  ghost predicate InTable(cs: seq<seq<Change>>, nTimes: nat) {
    forall h, k :: 0 <= h < |cs| && 0 <= k < |cs[h]| ==> cs[h][k].tidx < nTimes
  }

  /** Nothing is lost and nothing repeated: what each signal has delivered,
      followed by what it has left, is what it began with. */
  ghost predicate Account(times: seq<nat>, events: seq<Event>, todo: seq<seq<Change>>, start: seq<seq<Change>>) {
    && |todo| == |start| && InTable(todo, |times|) && InTable(start, |times|)
    && (forall k :: 0 <= k < |events| ==> 1 <= events[k].handle <= |start|)
    && forall h :: 0 <= h < |start| ==>
         Of(events, h) + Delivery(times, h, todo[h]) == Delivery(times, h, start[h])
  }

  lemma AccountNew(times: seq<nat>, events: seq<Event>, todo: seq<seq<Change>>, start: seq<seq<Change>>, h: nat, cs: seq<Change>)
    requires Account(times, events, todo, start) && events == []
    requires h < |todo| && forall k :: 0 <= k < |cs| ==> cs[k].tidx < |times|
    ensures Account(times, events, todo[h := cs], start[h := cs])
  {
    assert Of(events, h) == [];
  }

  lemma AccountStep(times: seq<nat>, events: seq<Event>, todo: seq<seq<Change>>, start: seq<seq<Change>>, h: nat)
    requires Account(times, events, todo, start) && h < |todo| && todo[h] != []
    ensures todo[h][0].tidx < |times|
    ensures var e := Event(times[todo[h][0].tidx], h + 1, todo[h][0].val);
      Account(times, events + [e], todo[h := todo[h][1..]], start)
  {
    hide Of, Delivery;
    var e := Event(times[todo[h][0].tidx], h + 1, todo[h][0].val);
    var rest := todo[h := todo[h][1..]];
    forall g | 0 <= g < |start|
      ensures Of(events + [e], g) + Delivery(times, g, rest[g]) == Delivery(times, g, start[g])
    {
      OfSnoc(events, e, g);
      if g == h { DeliveryCons(times, h, todo[h]); }
    }
  }

  lemma InOrderStep(events: seq<Event>, at: seq<nat>, times: seq<nat>, now: nat, handle: nat, val: seq<byte>)
    requires InOrder(events, at, times, now) && now < |times|
    ensures InOrder(events + [Event(times[now], handle, val)], at + [now], times, now)
  {
  }

  /** The callbacks are in time order: their time indices never decrease. */
  ghost predicate InOrder(events: seq<Event>, at: seq<nat>, times: seq<nat>, now: nat) {
    && |at| == |events|
    && (forall k :: 0 <= k < |at| ==> at[k] <= now && at[k] < |times| && events[k].time == times[at[k]])
    && (forall j, k :: 0 <= j < k < |at| ==> at[j] <= at[k])
  }

  /** Changes left to deliver. */
  ghost function Count(todo: seq<seq<Change>>): nat {
    if todo == [] then 0 else |todo[0]| + Count(todo[1..])
  }

  lemma {:induction false} CountLess(todo: seq<seq<Change>>, h: nat, cs: seq<Change>)
    requires h < |todo| && |cs| < |todo[h]|
    ensures Count(todo[h := cs]) < Count(todo)
    decreases |todo|
  {
    if h == 0 {
      assert todo[h := cs][1..] == todo[1..];
    } else {
      assert todo[h := cs][1..] == todo[1..][h - 1 := cs];
      CountLess(todo[1..], h - 1, cs);
    }
  }

  // ----- a signal's place in its chain -----

  /** The bytes from `head` on are the changes `cs`, the one before them having
      been at time index `prev`. */
  ghost predicate Cursor(mem: seq<byte>, len: nat, prev: nat, head: nat, remaining: nat, cs: seq<Change>, nTimes: nat) {
    && 1 <= len && head + remaining <= |mem|
    && Decode(len, prev, mem, head, head + remaining) == Changes(cs)
    && forall k :: 0 <= k < |cs| ==> cs[k].tidx < nTimes
  }

  lemma CursorStep(mem: seq<byte>, len: nat, prev: nat, head: nat, remaining: nat, cs: seq<Change>, nTimes: nat)
    requires Cursor(mem, len, prev, head, remaining, cs, nTimes) && cs != []
    ensures var e := ReadRecord(len, mem, head);
      && e.Entry? && e.next <= head + remaining
      && cs[0] == Change(prev + e.delta, e.val)
      && Cursor(mem, len, cs[0].tidx, e.next, head + remaining - e.next, cs[1..], nTimes)
  {
    hide ReadRecord;
  }

  lemma CursorInTable(mem: seq<byte>, len: nat, prev: nat, head: nat, remaining: nat, cs: seq<Change>, nTimes: nat)
    requires Cursor(mem, len, prev, head, remaining, cs, nTimes)
    ensures forall k :: 0 <= k < |cs| ==> cs[k].tidx < nTimes
  {
  }

  lemma CursorEnd(mem: seq<byte>, len: nat, prev: nat, head: nat, remaining: nat, cs: seq<Change>, nTimes: nat)
    requires Cursor(mem, len, prev, head, remaining, cs, nTimes)
    ensures cs == [] <==> remaining == 0
  {
    hide ReadRecord;
  }

  lemma {:induction false} DecodeMoved(bytes: seq<byte>, q: nat, end: nat, mem: seq<byte>, p: nat, len: nat, prev: nat)
    requires 1 <= len && q <= end <= |bytes| && At(mem, p, bytes)
    requires Decode(len, prev, bytes, q, end).Changes?
    ensures Decode(len, prev, mem, p + q, p + end) == Decode(len, prev, bytes, q, end)
    decreases end - q
  {
    hide ReadRecord;
    if q < end {
      RecordMoved(bytes, q, mem, p, len);
      var e := ReadRecord(len, bytes, q);
      DecodeMoved(bytes, e.next, end, mem, p, len, prev + e.delta);
    }
  }

  lemma CursorExtend(mem: seq<byte>, more: seq<byte>, len: nat, prev: nat, head: nat, remaining: nat, cs: seq<Change>, nTimes: nat)
    requires Cursor(mem, len, prev, head, remaining, cs, nTimes)
    ensures Cursor(mem + more, len, prev, head, remaining, cs, nTimes)
  {
    hide Decode;
    assert At(mem + more, 0, mem);
    DecodeMoved(mem, head, head + remaining, mem + more, 0, len, prev);
  }

  lemma CursorNew(mem: seq<byte>, bytes: seq<byte>, len: nat, cs: seq<Change>, nTimes: nat)
    requires 1 <= len && Decode(len, 0, bytes, 0, |bytes|) == Changes(cs)
    requires forall k :: 0 <= k < |cs| ==> cs[k].tidx < nTimes
    ensures Cursor(mem + bytes, len, 0, |mem|, |bytes|, cs, nTimes)
  {
    hide Decode;
    assert At(mem + bytes, |mem|, bytes);
    DecodeMoved(bytes, 0, |bytes|, mem + bytes, |mem|, len, 0);
  }

  lemma RecordMoved(bytes: seq<byte>, q: nat, mem: seq<byte>, p: nat, len: nat)
    requires 1 <= len && q <= |bytes| && At(mem, p, bytes)
    requires ReadRecord(len, bytes, q).Entry?
    ensures var e := ReadRecord(len, bytes, q);
      ReadRecord(len, mem, p + q) == Entry(e.delta, e.val, p + e.next)
  {
    hide UnpackBits, At, Varint.Skip, Varint.Get;
    HasLength(len, bytes, q);
    var n := Varint.Skip(bytes, q);
    NumberMoved(bytes, q, mem, p);
    if len > 1 {
      var e := ReadRecord(len, bytes, q);
      Slice(bytes, q + n, e.next, mem, p);
      UnpackMoved(bytes, q + n, mem, p + q + n, len);
    }
  }

  lemma HasLength(len: nat, bytes: seq<byte>, q: nat)
    requires 1 <= len && q <= |bytes| && ReadRecord(len, bytes, q).Entry?
    ensures 0 < Varint.Skip(bytes, q) && q + Varint.Skip(bytes, q) <= ReadRecord(len, bytes, q).next
  {
  }

  lemma NumberMoved(bytes: seq<byte>, q: nat, mem: seq<byte>, p: nat)
    requires q <= |bytes| && At(mem, p, bytes) && Varint.Skip(bytes, q) > 0
    ensures p + q <= |mem| && Varint.Skip(mem, p + q) == Varint.Skip(bytes, q)
    ensures Varint.Get(mem, p + q, Varint.W32) == Varint.Get(bytes, q, Varint.W32)
  {
    var n := Varint.Skip(bytes, q);
    Slice(bytes, q, q + n, mem, p);
    Varint.Local(bytes, q, mem, p + q, n);
  }

  lemma Slice(bytes: seq<byte>, a: nat, b: nat, mem: seq<byte>, p: nat)
    requires a <= b <= |bytes| && At(mem, p, bytes)
    ensures p + b <= |mem| && mem[p + a..p + b] == bytes[a..b]
    ensures forall k {:trigger bytes[k]} :: a <= k < b ==> mem[p + k] == bytes[k]
  {
  }

  lemma UnpackMoved(bytes: seq<byte>, q: nat, mem: seq<byte>, r: nat, len: nat)
    ensures (q + (len + 7) / 8 <= |bytes| && r + (len + 7) / 8 <= |mem|
      && mem[r..r + (len + 7) / 8] == bytes[q..q + (len + 7) / 8])
      ==> UnpackBits(len, mem, r) == UnpackBits(len, bytes, q)
  {
    var w := (len + 7) / 8;
    if q + w <= |bytes| && r + w <= |mem| && mem[r..r + w] == bytes[q..q + w] {
      forall j | 0 <= j < len ensures mem[r + j / 8] == bytes[q + j / 8] {
        assert mem[r..r + w][j / 8] == bytes[q..q + w][j / 8];
      }
    }
  }

  // ----- reading one record -----

  /** The time distance of the record at `p`, without stepping over it: what is left
      of its number without the bits of the value. */
  method PeekDelta(len: nat, mem: seq<byte>, p: nat) returns (tdelta: nat)
    requires 1 <= len && p <= |mem| && ReadRecord(len, mem, p).Entry?
    ensures tdelta == ReadRecord(len, mem, p).delta
  {
    var vli, skiplen := Varint.GetVarint(mem, p, Varint.W32);
    if len == 1 {
      tdelta := if vli % 2 == 0 then vli / 4 else vli / 16;
    } else {
      tdelta := vli / 2;
    }
  }

  /** The value of the record, and how many bytes it takes up. */
  method ReadChange(len: nat, mem: seq<byte>, p: nat) returns (val: seq<byte>, skiplen: nat)
    requires 1 <= len && p <= |mem| && ReadRecord(len, mem, p).Entry?
    ensures var e := ReadRecord(len, mem, p); val == e.val && p + skiplen == e.next
  {
    var vli;
    vli, skiplen := Varint.GetVarint(mem, p, Varint.W32);
    if len == 1 {
      if vli % 2 == 0 {
        val := [ZERO + vli / 2 % 2];
      } else {
        val := [RCV_STR[vli / 2 % 8]];
      }
    } else if vli % 2 == 0 {
      val := ExpandBits(len, mem, p + skiplen);
      skiplen := skiplen + (len + 7) / 8;
    } else {
      val := mem[p + skiplen..p + skiplen + len];
      skiplen := skiplen + len;
    }
  }

  /** Packed bits as characters, the top bit of a byte first. */
  method ExpandBits(len: nat, mem: seq<byte>, p: nat) returns (val: seq<byte>)
    requires p + (len + 7) / 8 <= |mem|
    ensures val == UnpackBits(len, mem, p)
  {
    val := [];
    var j := 0;
    while j < len
      invariant 0 <= j <= len && |val| == j
      invariant forall i :: 0 <= i < j ==> val[i] == UnpackBits(len, mem, p)[i]
    {
      val := val + [ZERO + Bit(mem[p + j / 8], j % 8)];
      j := j + 1;
    }
  }

  // ----- the merge -----

  class Merger {
    /** The block's time table, and the widths of the signals. */
    const times: seq<nat>
    const lens: seq<nat>

    /** mem_for_traversal, as far as it is filled. */
    var mem: seq<byte>
    const tcHead: array<nat>
    const scatter: array<nat>
    const headptr: array<nat>
    const remaining: array<nat>

    /** The callbacks made so far. */
    var events: seq<Event>

    ghost var start: seq<seq<Change>>
    ghost var todo: seq<seq<Change>>
    ghost var prev: seq<nat>
    ghost var buckets: seq<seq<nat>>
    ghost var at: seq<nat>

    ghost predicate Shape()
      reads this
    {
      && tcHead.Length == |times| && scatter.Length == headptr.Length == remaining.Length == |lens|
      && |start| == |todo| == |prev| == |lens| && |buckets| == |times|
      && tcHead != scatter && tcHead != headptr && tcHead != remaining
      && scatter != headptr && scatter != remaining && headptr != remaining
      && forall h :: 0 <= h < |lens| ==> lens[h] >= 1
    }

    /** Every signal in `left` with changes is in exactly one bucket. */
    ghost predicate Scheduled(left: seq<seq<Change>>)
      reads this, tcHead, scatter
    {
      Queue(tcHead[..], scatter[..], buckets) && Placed(buckets, left)
    }

    ghost predicate Cursors()
      requires Shape()
      reads this, headptr, remaining
    {
      forall h :: 0 <= h < |lens| ==> Cursor(mem, lens[h], prev[h], headptr[h], remaining[h], todo[h], |times|)
    }

    /** At time index `now`, all earlier buckets being empty. */
    ghost predicate Valid(now: nat)
      reads this, tcHead, scatter, headptr, remaining
    {
      && Shape() && Scheduled(todo) && Cursors() && Account(times, events, todo, start) && InOrder(events, at, times, now)
      && forall t :: 0 <= t < now && t < |times| ==> buckets[t] == []
    }

    constructor (times: seq<nat>, lens: seq<nat>)
      requires forall h :: 0 <= h < |lens| ==> lens[h] >= 1
      ensures Valid(0) && this.times == times && this.lens == lens
      ensures mem == [] && events == [] && forall h :: 0 <= h < |lens| ==> start[h] == [] == todo[h]
      ensures fresh(tcHead) && fresh(scatter) && fresh(headptr) && fresh(remaining)
    {
      this.times, this.lens := times, lens;
      tcHead := new nat[|times|](_ => 0);
      scatter := new nat[|lens|](_ => 0);
      headptr := new nat[|lens|](_ => 0);
      remaining := new nat[|lens|](_ => 0);
      mem, events := [], [];
      start, todo := seq(|lens|, _ => []), seq(|lens|, _ => []);
      prev, buckets, at := seq(|lens|, _ => 0), seq(|times|, _ => []), [];
    }

    /** Put a signal at the head of the bucket of its next change. */
    method Enqueue(h: nat, t: nat, ghost left: seq<seq<Change>>, ghost cs: seq<Change>)
      requires Shape() && Scheduled(left) && |left| == |lens|
      requires h < |lens| && left[h] == [] && cs != [] && cs[0].tidx == t < |times|
      modifies this`buckets, tcHead, scatter
      ensures Scheduled(left[h := cs]) && buckets == old(buckets)[t := [h] + old(buckets)[t]]
    {
      hide Queue, Placed;
      ghost var heads: seq<nat>, links: seq<nat> := tcHead[..], scatter[..];
      QueueLengths(heads, links, buckets);
      PlacedPush(buckets, left, h, cs);
      Push(heads, links, buckets, h, t);
      scatter[h] := tcHead[t];
      tcHead[t] := h + 1;
      assert scatter[..] == links[h := heads[t]] && tcHead[..] == heads[t := h + 1];
      buckets := buckets[t := [h] + buckets[t]];
    }

    /** Take the first signal out of a bucket. */
    method Dequeue(t: nat, ghost left: seq<seq<Change>>) returns (h: nat)
      requires Shape() && Scheduled(left) && |left| == |lens| && t < |times| && tcHead[t] != 0
      modifies this`buckets, tcHead, scatter
      ensures h < |lens| && Next(left, h, t)
      ensures Scheduled(left[h := []])
      ensures |buckets| == |old(buckets)| && forall u :: 0 <= u < |buckets| && u != t ==> buckets[u] == old(buckets)[u]
    {
      hide Placed;
      ghost var heads: seq<nat>, links: seq<nat> := tcHead[..], scatter[..];
      Pop(heads, links, buckets, t);
      PlacedPop(buckets, left, t);
      hide Queue;
      h := tcHead[t] - 1;
      tcHead[t] := scatter[h];
      scatter[h] := 0;
      assert scatter[..] == links[h := 0] && tcHead[..] == heads[t := links[h]];
      buckets := buckets[t := buckets[t][1..]];
    }

    /** Load one chain, and put its signal into the bucket of its first change. */
    method AddChain(h: nat, bytes: seq<byte>, ghost cs: seq<Change>)
      requires Valid(0) && events == [] && h < |lens| && start[h] == [] == todo[h]
      requires bytes != [] && Decode(lens[h], 0, bytes, 0, |bytes|) == Changes(cs)
      requires forall k :: 0 <= k < |cs| ==> cs[k].tidx < |times|
      modifies this`mem, this`start, this`todo, this`prev, this`buckets, tcHead, scatter, headptr, remaining
      ensures Valid(0) && mem == old(mem) + bytes
      ensures start == old(start)[h := cs] && todo == old(todo)[h := cs]
    {
      hide Decode, Queue, Placed, Cursor, Account, InOrder;
      ghost var left := todo;
      var tdelta := AppendChain(h, bytes, cs);
      Enqueue(h, tdelta, left, cs);
      AccountNew(times, events, left, start, h, cs);
      start := start[h := cs];
    }

    /** Put the bytes after those loaded so far. */
    method AppendChain(h: nat, bytes: seq<byte>, ghost cs: seq<Change>) returns (tdelta: nat)
      requires Shape() && Cursors() && h < |lens|
      requires bytes != [] && Decode(lens[h], 0, bytes, 0, |bytes|) == Changes(cs)
      requires forall k :: 0 <= k < |cs| ==> cs[k].tidx < |times|
      modifies this`mem, this`todo, this`prev, headptr, remaining
      ensures Shape() && Cursors() && mem == old(mem) + bytes && todo == old(todo)[h := cs]
      ensures cs != [] && cs[0].tidx == tdelta
    {
      hide Decode, Cursor;
      CursorNew(mem, bytes, lens[h], cs, |times|);
      CursorEnd(mem + bytes, lens[h], 0, |mem|, |bytes|, cs, |times|);
      CursorStep(mem + bytes, lens[h], 0, |mem|, |bytes|, cs, |times|);
      ExtendCursors(bytes);
      headptr[h] := |mem|;
      remaining[h] := |bytes|;
      mem := mem + bytes;
      todo, prev := todo[h := cs], prev[h := 0];
      tdelta := PeekDelta(lens[h], mem, headptr[h]);
    }

    lemma Lengths()
      requires Valid(0)
      ensures |start| == |todo| == |lens|
    {
    }

    lemma ExtendCursors(bytes: seq<byte>)
      requires Shape() && Cursors()
      ensures forall h :: 0 <= h < |lens| ==>
        Cursor(mem + bytes, lens[h], prev[h], headptr[h], remaining[h], todo[h], |times|)
    {
      forall h | 0 <= h < |lens|
        ensures Cursor(mem + bytes, lens[h], prev[h], headptr[h], remaining[h], todo[h], |times|)
      {
        CursorExtend(mem, bytes, lens[h], prev[h], headptr[h], remaining[h], todo[h], |times|);
      }
    }

    /** One turn of the inner loop: deliver the next change of the first signal
        in bucket `i`, and put the signal where its change after that belongs. */
    method Step(i: nat)
      requires Valid(i) && i < |times| && tcHead[i] != 0
      modifies this`events, this`todo, this`prev, this`buckets, this`at, tcHead, scatter, headptr, remaining
      ensures Valid(i) && Count(todo) < Count(old(todo))
    {
      hide Queue, Placed, Cursor, Account, InOrder;
      ghost var left := todo;
      var idx := Dequeue(i, left);
      ghost var cs := left[idx];
      AccountStep(times, events, todo, start, idx);
      InOrderStep(events, at, times, i, idx + 1, cs[0].val);
      var val := TakeChange(idx, i);
      events := events + [Event(times[i], idx + 1, val)];
      at := at + [i];
      assert left[idx := []][idx := cs[1..]] == left[idx := cs[1..]];
      Requeue(idx, i, left[idx := []], cs[1..]);
      CountLess(left, idx, cs[1..]);
    }

    /** Read the next change of a signal and step over it. */
    method TakeChange(idx: nat, i: nat) returns (val: seq<byte>)
      requires Shape() && Cursors() && Next(todo, idx, i) && idx < |lens|
      modifies this`todo, this`prev, headptr, remaining
      ensures Shape() && Cursors() && val == old(todo)[idx][0].val
      ensures todo == old(todo)[idx := old(todo)[idx][1..]] && prev[idx] == i
    {
      hide Cursor, Cursors, ReadRecord;
      CursorsAt(idx);
      CursorStep(mem, lens[idx], prev[idx], headptr[idx], remaining[idx], todo[idx], |times|);
      var skiplen;
      val, skiplen := ReadChange(lens[idx], mem, headptr[idx]);
      AdvanceCursor(idx, skiplen, i);
    }

    /** A signal with bytes left goes where its next change belongs. */
    method Requeue(idx: nat, i: nat, ghost left: seq<seq<Change>>, ghost rest: seq<Change>)
      requires Shape() && Cursors() && idx < |lens| && prev[idx] == i && todo[idx] == rest
      requires Scheduled(left) && |left| == |lens| && left[idx] == []
      requires forall t :: 0 <= t < i && t < |times| ==> buckets[t] == []
      modifies this`buckets, tcHead, scatter
      ensures Scheduled(left[idx := rest])
      ensures |buckets| == |times| && forall t :: 0 <= t < i && t < |times| ==> buckets[t] == []
    {
      hide Queue, Placed, Cursor, Cursors;
      CursorsAt(idx);
      CursorEnd(mem, lens[idx], prev[idx], headptr[idx], remaining[idx], rest, |times|);
      assert rest == [] ==> left[idx := rest] == left;
      if remaining[idx] != 0 {
        CursorStep(mem, lens[idx], prev[idx], headptr[idx], remaining[idx], rest, |times|);
        CursorInTable(mem, lens[idx], prev[idx], headptr[idx], remaining[idx], rest, |times|);
        var tdelta := PeekDelta(lens[idx], mem, headptr[idx]);
        Enqueue(idx, i + tdelta, left, rest);
      }
    }

    lemma CursorsAt(h: nat)
      requires Shape() && Cursors() && h < |lens|
      ensures Cursor(mem, lens[h], prev[h], headptr[h], remaining[h], todo[h], |times|)
    {
    }

    /** Step over the change just delivered. */
    method AdvanceCursor(h: nat, skiplen: nat, now: nat)
      requires Shape() && Cursors() && h < |lens| && todo[h] != [] && todo[h][0].tidx == now
      requires ReadRecord(lens[h], mem, headptr[h]).Entry?
      requires headptr[h] + skiplen == ReadRecord(lens[h], mem, headptr[h]).next
      modifies this`todo, this`prev, headptr, remaining
      ensures Shape() && Cursors()
      ensures todo == old(todo)[h := old(todo)[h][1..]] && prev == old(prev)[h := now]
    {
      hide Cursor, ReadRecord;
      CursorsAt(h);
      CursorStep(mem, lens[h], prev[h], headptr[h], remaining[h], todo[h], |times|);
      headptr[h] := headptr[h] + skiplen;
      remaining[h] := remaining[h] - skiplen;
      todo, prev := todo[h := todo[h][1..]], prev[h := now];
    }

    /** Bucket after bucket is emptied: every signal delivers its whole chain, in
        time order overall. */
    method Play()
      requires Valid(0)
      modifies this`events, this`todo, this`prev, this`buckets, this`at, tcHead, scatter, headptr, remaining
      ensures forall h :: 0 <= h < |lens| ==> AllInTable(start[h], |times|) && Of(events, h) == Delivery(times, h, start[h])
      ensures forall k :: 0 <= k < |events| ==> 1 <= events[k].handle <= |lens|
      ensures InOrder(events, at, times, |times|)
    {
      hide Queue, Placed, Cursor, InOrder, Account;
      var i := 0;
      while i < |times|
        invariant 0 <= i <= |times| && Valid(i)
      {
        while tcHead[i] != 0
          invariant Valid(i)
          decreases Count(todo)
        {
          Step(i);
        }
        BucketDone(i);
        i := i + 1;
      }
      AllDone();
    }

    lemma BucketDone(i: nat)
      requires Valid(i) && i < |times| && tcHead[i] == 0
      ensures Valid(i + 1)
    {
      hide Placed, NoDuplicates, Cursor, Account;
      assert Linked(tcHead[..][i], scatter[..], buckets[i]);
      assert buckets[i] == [];
    }

    lemma AllDone()
      requires Valid(|times|)
      ensures forall h :: 0 <= h < |lens| ==> AllInTable(start[h], |times|) && Of(events, h) == Delivery(times, h, start[h])
      ensures forall k :: 0 <= k < |events| ==> 1 <= events[k].handle <= |lens|
      ensures InOrder(events, at, times, |times|)
    {
      hide Queue, Placed, Cursor, Of, InOrder;
      forall h | 0 <= h < |lens| ensures AllInTable(start[h], |times|) && Of(events, h) == Delivery(times, h, start[h]) {
        Somewhere(buckets, todo, h);
        assert Of(events, h) + Delivery(times, h, todo[h]) == Delivery(times, h, start[h]);
      }
    }
  }

  lemma QueueLengths(heads: seq<nat>, scatter: seq<nat>, buckets: seq<seq<nat>>)
    requires Queue(heads, scatter, buckets)
    ensures |heads| == |buckets|
  {
  }

  predicate AllInTable(cs: seq<Change>, nTimes: nat) {
    forall k :: 0 <= k < |cs| ==> cs[k].tidx < nTimes
  }

  /** When time does not run backwards, neither do the callbacks. */
  lemma TimesNeverDecrease(events: seq<Event>, at: seq<nat>, times: seq<nat>, now: nat)
    requires InOrder(events, at, times, now)
    requires forall i, j :: 0 <= i < j < |times| ==> times[i] <= times[j]
    ensures forall j, k :: 0 <= j < k < |events| ==> events[j].time <= events[k].time
  {
    forall j, k | 0 <= j < k < |events| ensures events[j].time <= events[k].time {
      assert at[j] <= at[k];
      if at[j] < at[k] { assert times[at[j]] <= times[at[k]]; }
    }
  }
}
