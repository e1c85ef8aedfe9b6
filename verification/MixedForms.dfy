/** A chain that is also what another chain is compressed to: the flush of
    src/fst/fstapi.c finds duplicates by the stored bytes alone, and cannot tell
    the two apart. */
module MixedForms {
  import opened Bytes
  import opened Chain
  import opened Stored
  import ChainStore
  import FastLz
  import opened FastLzFormat
  import opened FastLzParse
  import Lz
  import Varint

  /** A 39-bit signal given alternating characters of codes 120 and 1 at the
      first time, and its chain. */
  function Wide(): seq<Change> {
    [Change(0, WideChain()[1..])]
  }

  function WideChain(): (s: seq<byte>)
    ensures |s| == 40
  {
    seq(40, i => if i % 2 == 0 then 1 else 120)
  }

  /** A one-bit signal: unknown twice at the first time, then 0 at index 30 and
      again at 886, and so on. */
  function Narrow(): seq<Change> {
    [Change(0, [120]), Change(0, [120]), Change(30, [48]), Change(886, [48]), Change(886, [120]),
     Change(886, [49]), Change(916, [48]), Change(916, [120]), Change(946, [48])]
  }

  function Block(): seq<byte> {
    [1, 1, 120, 224, 26, 1, 2, 120, 1, 120]
  }

  // ----- the chains -----

  lemma WideIs()
    ensures Ordered(39, 0, Wide()) && Encode(39, 0, Wide()) == WideChain()
  {
    var cs, val := Wide(), WideChain()[1..];
    assert val[0] == 120 && !IsBinary(val);
    assert cs[1..] == [];
    assert Varint.Encode(1) == [1];
    assert Record(0, val) == [1] + val;
    assert Encode(39, 0, cs) == Record(0, val) + Encode(39, 0, cs[1..]);
    assert [1] + val == WideChain();
  }

  ghost predicate Chained(prev: nat, cs: seq<Change>, bytes: seq<byte>) {
    Ordered(1, prev, cs) && Encode(1, prev, cs) == bytes
  }

  lemma Cons(prev: nat, c: Change, rest: seq<Change>, bytes: seq<byte>)
    requires Chained(c.tidx, rest, bytes) && prev <= c.tidx && |c.val| == 1
    ensures Chained(prev, [c] + rest, Record(c.tidx - prev, c.val) + bytes)
  {
    hide Record;
    assert ([c] + rest)[1..] == rest;
  }

  /** The packed numbers of the one-bit records. */
  lemma NarrowRecords()
    ensures Record(0, [120]) == [1] && Record(30, [48]) == [120] && Record(0, [49]) == [2]
    ensures Record(856, [48]) == [224, 26]
  {
    hide Varint.Encode;
    SmallNumber(1);
    SmallNumber(2);
    SmallNumber(120);
    TwoBytes();
  }

  lemma SmallNumber(v: nat)
    requires v < 128
    ensures Varint.Encode(v) == [v]
  {
  }

  lemma TwoBytes()
    ensures Varint.Encode(3424) == [224, 26]
  {
    SmallNumber(26);
    assert Varint.Encode(3424) == [224] + Varint.Encode(26);
  }

  lemma NarrowIs()
    ensures Chained(0, Narrow(), Block())
  {
    hide Record, Chained;
    LastFour();
    FirstFive([Change(886, [49]), Change(916, [48]), Change(916, [120]), Change(946, [48])], [2, 120, 1, 120]);
    assert Narrow() == [Change(0, [120]), Change(0, [120]), Change(30, [48]), Change(886, [48]), Change(886, [120])]
      + [Change(886, [49]), Change(916, [48]), Change(916, [120]), Change(946, [48])];
    assert Block() == [1, 1, 120, 224, 26, 1] + [2, 120, 1, 120];
  }

  lemma LastFour()
    ensures Chained(886, [Change(886, [49]), Change(916, [48]), Change(916, [120]), Change(946, [48])], [2, 120, 1, 120])
  {
    hide Record, Chained;
    var a, b, c, d := Change(886, [49]), Change(916, [48]), Change(916, [120]), Change(946, [48]);
    NarrowRecords();
    Nothing(946);
    Cons(916, d, [], []);
    assert [d] + [] == [d] && [120] + [] == [120];
    Cons(916, c, [d], [120]);
    assert [c] + [d] == [c, d] && [1] + [120] == [1, 120];
    Cons(886, b, [c, d], [1, 120]);
    assert [b] + [c, d] == [b, c, d] && [120] + [1, 120] == [120, 1, 120];
    Cons(886, a, [b, c, d], [120, 1, 120]);
    assert [a] + [b, c, d] == [a, b, c, d] && [2] + [120, 1, 120] == [2, 120, 1, 120];
  }

  lemma FirstFive(rest: seq<Change>, bytes: seq<byte>)
    requires Chained(886, rest, bytes)
    ensures Chained(0, [Change(0, [120]), Change(0, [120]), Change(30, [48]), Change(886, [48]), Change(886, [120])] + rest,
      [1, 1, 120, 224, 26, 1] + bytes)
  {
    hide Record, Chained;
    var x, b, c, d := Change(0, [120]), Change(30, [48]), Change(886, [48]), Change(886, [120]);
    NarrowRecords();
    Cons(886, d, rest, bytes);
    Cons(30, c, [d] + rest, [1] + bytes);
    assert [c] + ([d] + rest) == [c, d] + rest && [224, 26] + ([1] + bytes) == [224, 26, 1] + bytes;
    Cons(0, b, [c, d] + rest, [224, 26, 1] + bytes);
    assert [b] + ([c, d] + rest) == [b, c, d] + rest && [120] + ([224, 26, 1] + bytes) == [120, 224, 26, 1] + bytes;
    Cons(0, x, [b, c, d] + rest, [120, 224, 26, 1] + bytes);
    assert [x] + ([b, c, d] + rest) == [x, b, c, d] + rest;
    assert [1] + ([120, 224, 26, 1] + bytes) == [1, 120, 224, 26, 1] + bytes;
    Cons(0, x, [x, b, c, d] + rest, [1, 120, 224, 26, 1] + bytes);
    assert [x] + ([x, b, c, d] + rest) == [x, x, b, c, d] + rest;
    assert [1] + ([1, 120, 224, 26, 1] + bytes) == [1, 1, 120, 224, 26, 1] + bytes;
  }

  lemma Nothing(prev: nat)
    ensures Chained(prev, [], [])
  {
  }

  // ----- the compression -----

  lemma Alternates()
    ensures var s := WideChain(); Lz.Periodic(s, 2, 2, 37) && s[0..2] == [1, 120] && s[37..40] == [120, 1, 120]
    ensures var s := WideChain(); SameThree(s, 0, 2)
  {
  }

  lemma FirstFind(hash: nat -> Lz.Slot)
    ensures Good(WideChain(), Begin(WideChain()))
    ensures var f := Find(One, WideChain(), hash, Begin(WideChain()).htab, 2); f.distance == 2 && f.len == 3
  {
    hide WideChain;
    Alternates();
  }

  /** Whatever the hash function, the third byte's slot holds position 0, where
      a match of 35 bytes begins. */
  lemma FirstTurn(hash: nat -> Lz.Slot)
    ensures Good(WideChain(), Begin(WideChain()))
    ensures var p := Turn(One, WideChain(), hash, Begin(WideChain()));
      Good(WideChain(), p) && p.ip == 37 && p.copy == 0 && p.ts == [Run([1, 120]), Match(2, 35)]
  {
    hide WideChain, Find, FirstOdd;
    var s := WideChain();
    Alternates();
    FirstFind(hash);
    FirstOddIs(s, 2, 5, 37, 37);
    assert [] + [Run([1, 120])] == [Run([1, 120])];
    assert Pieces(One, 2, 35) == [Match(2, 35)];
    assert [Run([1, 120])] + [Match(2, 35)] == [Run([1, 120]), Match(2, 35)];
  }

  lemma LeftOver(hash: nat -> Lz.Slot, p: Parse)
    requires Good(WideChain(), p) && p.ip == 37 && p.copy == 0
    ensures Rest(One, WideChain(), hash, p) == p.ts + [Run([120, 1, 120])]
  {
    var s := WideChain();
    var p1 := Literal(s, p);
    var p2 := Literal(s, p1);
    var p3 := Literal(s, p2);
    assert Rest(One, s, hash, p) == Rest(One, s, hash, p1) == Rest(One, s, hash, p2) == Rest(One, s, hash, p3);
    Alternates();
  }

  lemma TokensAre(hash: nat -> Lz.Slot)
    ensures Tokens(One, WideChain(), hash) == [Run([1, 120]), Match(2, 35), Run([120, 1, 120])]
  {
    hide Turn;
    var s := WideChain();
    FirstTurn(hash);
    LeftOver(hash, Turn(One, s, hash, Begin(s)));
    assert Rest(One, s, hash, Begin(s)) == Rest(One, s, hash, Turn(One, s, hash, Begin(s)));
  }

  lemma WiresAre()
    ensures Valid(One, Run([1, 120])) && FastLzFormat.Wire(One, Run([1, 120])) == [1, 1, 120]
    ensures Valid(One, Match(2, 35)) && FastLzFormat.Wire(One, Match(2, 35)) == [224, 26, 1]
    ensures Valid(One, Run([120, 1, 120])) && FastLzFormat.Wire(One, Run([120, 1, 120])) == [2, 120, 1, 120]
  {
  }

  lemma StreamIs()
    ensures Stream(One, [Run([1, 120]), Match(2, 35), Run([120, 1, 120])]) == Block()
  {
    hide FastLzFormat.Wire, Valid;
    WiresAre();
    var a, b, c: Token := Run([1, 120]), Match(2, 35), Run([120, 1, 120]);
    assert [a, b, c][..2] == [a, b] && [a, b][..1] == [a] && [a][..0] == [];
    assert WireAll(One, [a]) == [1, 1, 120];
    assert WireAll(One, [a, b]) == [1, 1, 120] + [224, 26, 1];
  }

  /** Whatever the hash function, the wide chain is compressed to the narrow
      chain's bytes. */
  lemma CompressedIs(hash: nat -> Lz.Slot)
    ensures FastForm(hash, WideChain()) == Packed(40, Block()) && FastForm(hash, Block()) == Raw(Block())
  {
    hide Tokens, Stream, WideChain;
    TokensAre(hash);
    StreamIs();
  }

  /** Store both, the narrow one last: it gets a reference to the wide one, and
      no reader will find its own chain. */
  method MixedUp(hash: nat -> Lz.Slot, jhash: seq<byte> -> nat, size: nat) returns (store: ChainStore.Store)
    requires size > 0
    ensures store.Valid() && |store.entries| == |store.forms| == 2
    ensures Ordered(39, 0, Wide()) && Ordered(1, 0, Narrow())
    ensures store.chains == [Encode(39, 0, Wide()), Encode(1, 0, Narrow())]
    ensures store.entries[1] == -1 && ChainStore.Mixed(store.entries, store.forms, 1)
  {
    hide Encode, Ordered, ChainStore.Store.Valid, Wide, Narrow, WideChain, Block, FastForm;
    WideIs();
    NarrowIs();
    BlockSize();
    CompressedIs(hash);
    store := new ChainStore.Store(FastPack, hash, jhash, size);
    ChainCount(store);
    store.Add(WideChain());
    ChainCount(store);
    store.Add(Block());
    SecondRefers(store);
  }

  lemma BlockSize()
    ensures |Block()| == 10
  {
  }

  lemma ChainCount(store: ChainStore.Store)
    requires store.Valid()
    ensures |store.entries| == |store.chains| == |store.forms|
  {
  }

  lemma SecondRefers(store: ChainStore.Store)
    requires store.Valid() && store.chains == [WideChain(), Block()] && |Block()| == 10
    requires |store.forms| == 2 && store.forms[0] == Packed(40, Block()) && store.forms[1] == Raw(Block())
    ensures |store.entries| == 2 && store.entries[1] == -1
  {
    hide Block, Holds, ChainStore.Store.Cells;
    ChainStore.LaidSizes(store.mode, store.area, store.entries, store.forms, store.chains);
    ChainStore.NoEntry(store.mode, store.area, store.entries, store.forms, store.chains, 0);
    ChainStore.NoEntry(store.mode, store.area, store.entries, store.forms, store.chains, 1);
  }
}
