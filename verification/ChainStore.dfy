/** The chains of one block as the flush in src/fst/fstapi.c stores them: each
    after the one before it, unless the same bytes were stored already, in which
    case the signal gets a reference to the one they were stored for. */
module ChainStore {
  import opened Bytes
  import opened Stored
  import ChainIndex
  import HashTable
  import Lz

  // ----- what is in the area -----

  /** `entries` says where the chains are in `area`: signal `i` has the chain
      `chains[i]`, stored or to be stored in the form `forms[i]`. */
  ghost predicate Laid(mode: Mode, area: seq<byte>, entries: seq<int>, forms: seq<Form>, chains: seq<seq<byte>>) {
    && |entries| == |forms| == |chains| && ChainIndex.WellFormed(entries, |area|) && ChainIndex.StartsAtOne(entries, |area|)
    && forall i :: 0 <= i < |entries| ==> Slot(mode, area, entries, forms, chains, i)
  }

  ghost predicate Slot(mode: Mode, area: seq<byte>, entries: seq<int>, forms: seq<Form>, chains: seq<seq<byte>>, i: nat)
    requires i < |entries| == |forms| == |chains|
    requires forall i :: 0 <= i < |entries| && entries[i] < 0 ==> -entries[i] - 1 < i
  {
    && |chains[i]| < 0x4000_0000
    && (entries[i] == 0 <==> chains[i] == [])
    && (entries[i] != 0 ==> Holds(mode, forms[i], chains[i]))
    && (entries[i] > 0 ==>
          && At(area, entries[i], Wire(forms[i]))
          && ChainIndex.NextPos(entries, i, |area|) == entries[i] + |Wire(forms[i])|)
    && (entries[i] < 0 ==> forms[-entries[i] - 1].bytes == forms[i].bytes)
  }

  /** Signal `i` was given the chain of a signal whose chain is stored
      compressed, its own not being compressed, or the other way around. */
  predicate Mixed(entries: seq<int>, forms: seq<Form>, i: nat)
    requires i < |entries| == |forms|
    requires entries[i] < 0 ==> -entries[i] - 1 < |forms|
  {
    entries[i] < 0 && forms[-entries[i] - 1].Raw? != forms[i].Raw?
  }

  /** What the index says about signal `i` leads to a stored chain, which is its
      own chain unless forms were mixed up. */
  lemma ChainFound(mode: Mode, area: seq<byte>, entries: seq<int>, forms: seq<Form>, chains: seq<seq<byte>>, i: nat)
    returns (j: nat)
    requires Laid(mode, area, entries, forms, chains) && i < |entries| && chains[i] != []
    ensures j <= i && entries[j] > 0 && Holds(mode, forms[j], chains[j]) && |chains[j]| < 0x4000_0000
    ensures var pos, length := ChainIndex.Where(entries, i), ChainIndex.LengthOf(entries, i, |area|);
      pos > 0 && At(area, pos, Wire(forms[j])) && length == |Wire(forms[j])|
    ensures chains[j] == chains[i] <==> !Mixed(entries, forms, i)
  {
    hide Holds, At, Wire, ChainIndex.NextPos;
    assert Slot(mode, area, entries, forms, chains, i);
    j := if entries[i] < 0 then -entries[i] - 1 else i;
    assert Slot(mode, area, entries, forms, chains, j);
    if j != i { SameBytes(mode, forms[j], chains[j], forms[i], chains[i]); }
  }

  lemma NoEntry(mode: Mode, area: seq<byte>, entries: seq<int>, forms: seq<Form>, chains: seq<seq<byte>>, i: nat)
    requires Laid(mode, area, entries, forms, chains) && i < |entries|
    ensures entries[i] == 0 <==> chains[i] == []
  {
    hide Holds, At, Wire, ChainIndex.NextPos;
    assert Slot(mode, area, entries, forms, chains, i);
  }

  /** No bytes are stored twice. */
  ghost predicate NothingTwice(entries: seq<int>, forms: seq<Form>) {
    |entries| == |forms| &&
    forall i, j :: 0 <= i < j < |entries| && entries[i] > 0 && entries[j] > 0 ==> forms[i].bytes != forms[j].bytes
  }

  // ----- one more signal -----

  lemma {:induction false} NextPosSnoc(entries: seq<int>, i: nat, x: int, total: nat, total': nat)
    requires i < |entries| && (x > 0 ==> x == total) && (x <= 0 ==> total' == total)
    ensures ChainIndex.NextPos(entries + [x], i, total') == ChainIndex.NextPos(entries, i, total)
    decreases |entries| - i
  {
    if i + 1 < |entries| {
      NextPosSnoc(entries, i + 1, x, total, total');
    } else if x <= 0 {
      assert ChainIndex.NextPos(entries + [x], i + 1, total') == total';
    }
  }

  lemma NextPosLast(entries: seq<int>, x: int, total: nat)
    ensures ChainIndex.NextPos(entries + [x], |entries|, total) == total
  {
  }

  /** What was laid out before stays where it is. */
  lemma SlotStays(mode: Mode, area: seq<byte>, entries: seq<int>, forms: seq<Form>, chains: seq<seq<byte>>,
                  more: seq<byte>, x: int, f: Form, chain: seq<byte>, i: nat)
    requires Laid(mode, area, entries, forms, chains) && i < |entries|
    requires (x > 0 ==> x == |area|) && (x <= 0 ==> more == [] && -x - 1 < |entries|)
    ensures Slot(mode, area + more, entries + [x], forms + [f], chains + [chain], i)
  {
    hide Holds, At, Wire, ChainIndex.NextPos;
    assert Slot(mode, area, entries, forms, chains, i);
    NextPosSnoc(entries, i, x, |area|, |area + more|);
    if entries[i] > 0 { AtStays(area, entries[i], Wire(forms[i]), more); }
  }

  lemma AtStays(s: seq<byte>, p: nat, part: seq<byte>, more: seq<byte>)
    requires At(s, p, part)
    ensures At(s + more, p, part)
  {
  }

  lemma LaidMore(mode: Mode, area: seq<byte>, entries: seq<int>, forms: seq<Form>, chains: seq<seq<byte>>,
                 more: seq<byte>, x: int, f: Form, chain: seq<byte>)
    requires Laid(mode, area, entries, forms, chains)
    requires (x > 0 ==> x == |area|) && (x <= 0 ==> more == [] && -x - 1 < |entries|)
    requires |entries| + 1 < 0x4000_0000 && |area + more| < 0x8000_0000 && |chain| < 0x4000_0000
    requires x == 0 <==> chain == []
    requires x != 0 ==> Holds(mode, f, chain)
    requires x > 0 ==> more == Wire(f)
    requires x < 0 ==> entries[-x - 1] > 0 && forms[-x - 1].bytes == f.bytes
    ensures Laid(mode, area + more, entries + [x], forms + [f], chains + [chain])
  {
    hide Slot, Holds, ChainIndex.StartsAtOne;
    var entries' := entries + [x];
    StartsMore(entries, |area|, x, |area + more|);
    WellFormedMore(entries, |area|, x, |area + more|);
    forall i | 0 <= i < |entries'| ensures Slot(mode, area + more, entries', forms + [f], chains + [chain], i) {
      if i < |entries| {
        SlotStays(mode, area, entries, forms, chains, more, x, f, chain, i);
      } else {
        SlotNew(mode, area, entries, forms, chains, more, x, f, chain);
      }
    }
  }

  lemma {:induction false} FirstPosPrefix(entries: seq<int>, x: int, k: nat)
    requires k <= |entries|
    ensures ChainIndex.FirstPos(entries + [x], k) == ChainIndex.FirstPos(entries, k)
    decreases k
  {
    if k > 0 { FirstPosPrefix(entries, x, k - 1); }
  }

  lemma StartsMore(entries: seq<int>, total: nat, x: int, total': nat)
    requires ChainIndex.StartsAtOne(entries, total) && (x > 0 ==> x == total) && (x <= 0 ==> total' == total)
    ensures ChainIndex.StartsAtOne(entries + [x], total')
  {
    hide ChainIndex.FirstPos;
    FirstPosPrefix(entries, x, |entries|);
    ChainIndex.FirstPosStep(entries + [x], |entries| + 1);
  }

  lemma WellFormedMore(entries: seq<int>, total: nat, x: int, total': nat)
    requires ChainIndex.WellFormed(entries, total) && |entries| + 1 < 0x4000_0000
    requires total <= total' < 0x8000_0000 && (x > 0 ==> x == total < total')
    requires x < 0 ==> -x - 1 < |entries| && entries[-x - 1] > 0
    ensures ChainIndex.WellFormed(entries + [x], total')
  {
  }

  lemma SlotNew(mode: Mode, area: seq<byte>, entries: seq<int>, forms: seq<Form>, chains: seq<seq<byte>>,
                more: seq<byte>, x: int, f: Form, chain: seq<byte>)
    requires |entries| == |forms| == |chains| && ChainIndex.WellFormed(entries + [x], |area + more|)
    requires |chain| < 0x4000_0000 && (x == 0 <==> chain == []) && (x != 0 ==> Holds(mode, f, chain))
    requires x > 0 ==> x == |area| && more == Wire(f)
    requires x < 0 ==> -x - 1 < |forms| && forms[-x - 1].bytes == f.bytes
    ensures Slot(mode, area + more, entries + [x], forms + [f], chains + [chain], |entries|)
  {
    hide Holds, Wire, ChainIndex.NextPos;
    NextPosLast(entries, x, |area + more|);
    assert forall k {:trigger more[k]} :: 0 <= k < |more| ==> (area + more)[|area| + k] == more[k];
  }

  class Store {
    const mode: Mode
    const hash: nat -> Lz.Slot

    /** What is written so far, from the pack type on: fpos is its length. */
    var area: seq<byte>

    /** What valpos_mem[4*i+2] is set to, for the signals done so far. */
    var entries: seq<int>

    /** unc_memreq. */
    var memReq: nat
    const table: HashTable.Table

    ghost var forms: seq<Form>
    ghost var chains: seq<seq<byte>>

    ghost predicate Valid()
      reads this, table, table.ar, table.nodes
    {
      && table.Valid() && Laid(mode, area, entries, forms, chains) && Cells(entries, forms)
      && |area| >= 1 && area[0] == PackType(mode)
      && NothingTwice(entries, forms) && memReq == Total(chains)
    }

    /** The table knows exactly the bytes stored, and for which signal. */
    ghost predicate Cells(entries: seq<int>, forms: seq<Form>)
      reads table, table.nodes
    {
      && |entries| == |forms|
      && (forall key :: key in table.cells ==> Known(entries, forms, key))
      && (forall i :: 0 <= i < |entries| && entries[i] > 0 ==> forms[i].bytes in table.cells)
    }

    ghost predicate Known(entries: seq<int>, forms: seq<Form>, key: seq<byte>)
      requires key in table.cells && |entries| == |forms|
      reads table, table.nodes
    {
      && table.cells[key] in table.nodes && table.cells[key].key == key
      && var p := table.cells[key].payload;
         1 <= p <= |entries| && entries[p - 1] > 0 && forms[p - 1].bytes == key
    }

    /** A signal without a stored chain of its own changes nothing for the table. */
    lemma CellsMore(entries: seq<int>, forms: seq<Form>, x: int, f: Form)
      requires Cells(entries, forms) && x <= 0
      ensures Cells(entries + [x], forms + [f])
    {
      forall key | key in table.cells ensures Known(entries + [x], forms + [f], key) {
        assert Known(entries, forms, key);
      }
    }

    constructor (mode: Mode, hash: nat -> Lz.Slot, jhash: seq<byte> -> nat, size: nat)
      requires size > 0
      ensures Valid() && chains == [] && |area| == 1 && this.mode == mode && this.hash == hash
      ensures fresh(table) && fresh(table.ar) && fresh(table.nodes)
    {
      this.mode, this.hash := mode, hash;
      area, entries, memReq, forms, chains := [PackType(mode)], [], 0, [], [];
      table := new HashTable.Table(jhash, size);
    }

    /** A signal without changes. */
    method Skip()
      requires Valid() && |entries| + 1 < 0x4000_0000
      modifies this
      ensures Valid() && chains == old(chains) + [[]] && area == old(area)
    {
      hide Laid, HashTable.Table.Valid, Holds, Wire, Cells, Total;
      LaidSizes(mode, area, entries, forms, chains);
      LaidMore(mode, area, entries, forms, chains, [], 0, Raw([]), []);
      NotTwice(entries, forms, 0, Raw([]));
      CellsMore(entries, forms, 0, Raw([]));
      TotalSnoc(chains, []);
      entries, forms, chains := entries + [0], forms + [Raw([])], chains + [[]];
      assert area + [] == area;
    }

    /** Store the chain of the next signal, or refer to where it is stored. */
    method Add(chain: seq<byte>)
      requires Valid() && chain != [] && |chain| < 0x4000_0000
      requires |entries| + 1 < 0x4000_0000 && |area| + 2 * |chain| + 1 < 0x8000_0000
      modifies this, table, table.ar, table.nodes
      ensures Valid() && chains == old(chains) + [chain]
      ensures |forms| == old(|forms|) + 1 && forms[..|forms| - 1] == old(forms)
      ensures mode.FastPack? ==> forms[|forms| - 1] == FastForm(hash, chain)
      ensures |area| <= old(|area|) + 2 * |chain| + 1
      ensures fresh(table.nodes - old(table.nodes))
    {
      hide Laid, Valid, Holds, FastForm;
      var f := Pack(mode, hash, chain);
      Put(f, chain);
    }

    /** The chain in its form, unless the same bytes were stored before. */
    method Put(f: Form, chain: seq<byte>)
      requires Valid() && chain != [] && |chain| < 0x4000_0000 && Holds(mode, f, chain)
      requires |entries| + 1 < 0x4000_0000 && |area| + 2 * |chain| + 1 < 0x8000_0000
      modifies this, table, table.ar, table.nodes
      ensures Valid() && chains == old(chains) + [chain] && forms == old(forms) + [f]
      ensures |area| <= old(|area|) + 2 * |chain| + 1
      ensures fresh(table.nodes - old(table.nodes))
    {
      hide Laid, HashTable.Table.Valid, Holds, Wire, NothingTwice, Total;
      LaidSizes(mode, area, entries, forms, chains);
      var pv;
      ghost var at;
      pv, at := table.Ins(f.bytes);
      if pv.payload != 0 {
        Refer(pv, f, chain);
      } else {
        Append(pv, f, chain);
      }
    }

    /** The signal refers to the one the same bytes were stored for. */
    method Refer(pv: HashTable.Node, f: Form, chain: seq<byte>)
      requires Valid() && |entries| + 1 < 0x4000_0000
      requires chain != [] && |chain| < 0x4000_0000 && Holds(mode, f, chain)
      requires f.bytes in table.cells && table.cells[f.bytes] == pv
      modifies this
      ensures Valid() && chains == old(chains) + [chain] && area == old(area) && forms == old(forms) + [f]
    {
      hide Laid, HashTable.Table.Valid, Holds, Wire, NothingTwice, Total;
      LaidSizes(mode, area, entries, forms, chains);
      KnownCell(f.bytes);
      hide Cells, Known;
      var x := -(pv.payload as int);
      LaidMore(mode, area, entries, forms, chains, [], x, f, chain);
      CellsMore(entries, forms, x, f);
      assert area + [] == area;
      NotTwice(entries, forms, x, f);
      TotalSnoc(chains, chain);
      memReq := memReq + |chain|;
      entries, forms, chains := entries + [x], forms + [f], chains + [chain];
    }

    lemma KnownCell(key: seq<byte>)
      requires Cells(entries, forms) && key in table.cells
      ensures var p := table.cells[key].payload;
        && |entries| == |forms| && 1 <= p <= |entries| && entries[p - 1] > 0 && forms[p - 1].bytes == key
    {
      assert Known(entries, forms, key);
    }

    /** The cell remembers the signal, and number and bytes go after those stored
        so far. */
    method Append(pv: HashTable.Node, f: Form, chain: seq<byte>)
      requires table.Valid() && Laid(mode, area, entries, forms, chains) && NothingTwice(entries, forms)
      requires memReq == Total(chains) && |area| >= 1 && area[0] == PackType(mode)
      requires |entries| + 1 < 0x4000_0000 && |area| + 2 * |chain| + 1 < 0x8000_0000
      requires chain != [] && |chain| < 0x4000_0000 && Holds(mode, f, chain)
      requires f.bytes in table.cells && table.cells[f.bytes] == pv && pv in table.nodes && pv.key == f.bytes
      requires forall key :: key in table.cells && key != f.bytes ==> Known(entries, forms, key)
      requires forall i :: 0 <= i < |entries| && entries[i] > 0 ==>
        forms[i].bytes in table.cells && forms[i].bytes != f.bytes
      modifies this, pv`payload
      ensures Valid() && chains == old(chains) + [chain] && forms == old(forms) + [f]
      ensures |area| <= old(|area|) + 2 * |chain| + 1
    {
      hide Laid, HashTable.Table.Valid, Holds, Wire, NothingTwice, Total, Known, Cells;
      LaidSizes(mode, area, entries, forms, chains);
      WireSize(mode, f, chain);
      LaidMore(mode, area, entries, forms, chains, Wire(f), |area|, f, chain);
      NotTwice(entries, forms, |area|, f);
      TotalSnoc(chains, chain);
      MarkNew(pv, f);
      memReq := memReq + |chain|;
      entries := entries + [|area|];
      area := area + Wire(f);
      forms, chains := forms + [f], chains + [chain];
    }

    method MarkNew(pv: HashTable.Node, f: Form)
      requires table.Valid() && |entries| == |forms| && |area| > 0
      requires f.bytes in table.cells && table.cells[f.bytes] == pv && pv in table.nodes && pv.key == f.bytes
      requires forall key :: key in table.cells && key != f.bytes ==> Known(entries, forms, key)
      requires forall i :: 0 <= i < |entries| && entries[i] > 0 ==> forms[i].bytes in table.cells
      modifies pv`payload
      ensures table.Valid() && Cells(entries + [|area|], forms + [f])
    {
      hide HashTable.Table.Valid;
      table.Mark(pv, |entries| + 1);
      ghost var entries', forms' := entries + [|area|], forms + [f];
      forall key | key in table.cells ensures Known(entries', forms', key) {
        if key != f.bytes { assert old(Known(entries, forms, key)); }
      }
    }
  }

  lemma LaidSizes(mode: Mode, area: seq<byte>, entries: seq<int>, forms: seq<Form>, chains: seq<seq<byte>>)
    requires Laid(mode, area, entries, forms, chains)
    ensures |entries| == |forms| == |chains| && |area| < 0x8000_0000
  {
  }

  lemma NotTwice(entries: seq<int>, forms: seq<Form>, x: int, f: Form)
    requires NothingTwice(entries, forms)
    requires x > 0 ==> forall i :: 0 <= i < |entries| && entries[i] > 0 ==> forms[i].bytes != f.bytes
    ensures NothingTwice(entries + [x], forms + [f])
  {
  }

  function Total(chains: seq<seq<byte>>): nat {
    if chains == [] then 0 else Total(chains[..|chains| - 1]) + |chains[|chains| - 1]|
  }

  lemma TotalSnoc(chains: seq<seq<byte>>, chain: seq<byte>)
    ensures Total(chains + [chain]) == Total(chains) + |chain|
  {
    assert (chains + [chain])[..|chains|] == chains;
  }
}
