/** The table of src/fst/fstapi.c that finds a chain stored before (JenkinsIns):
    buckets of linked nodes, a hit moving to the front of its bucket. The hash
    of a byte string is an arbitrary number. */
module HashTable {
  import opened Bytes

  /** A stored key and the cell handed out for it. */
  class Node {
    const key: seq<byte>
    const fullhash: nat
    var payload: nat
    var next: Node?

    constructor (key: seq<byte>, fullhash: nat, next: Node?)
      ensures this.key == key && this.fullhash == fullhash && this.next == next && payload == 0
    {
      this.key, this.fullhash, this.next, payload := key, fullhash, next, 0;
    }
  }

  ghost function NodeAt(nodes: seq<Node>, i: nat): Node? {
    if i < |nodes| then nodes[i] else null
  }

  /** The nodes reachable from `head` are `nodes`, in order. */
  ghost predicate Chained(head: Node?, nodes: seq<Node>)
    reads nodes
  {
    && head == NodeAt(nodes, 0)
    && forall i :: 0 <= i < |nodes| ==> nodes[i].next == NodeAt(nodes, i + 1)
  }

  ghost predicate Distinct(nodes: seq<Node>) {
    forall i, j :: 0 <= i < j < |nodes| ==> nodes[i] != nodes[j]
  }

  /** Every node of bucket `h` belongs there and is the cell of its key. */
  ghost predicate Homed(hash: seq<byte> -> nat, size: nat, cells: map<seq<byte>, Node>, h: nat, nodes: seq<Node>) {
    size > 0 && forall n :: n in nodes ==>
      && hash(n.key) % size == h && n.fullhash == hash(n.key)
      && n.key in cells && cells[n.key] == n
  }

  /** The hit is taken out of the bucket and becomes its new head. */
  method Relink(head: Node?, ghost b: seq<Node>, ghost i: nat, chain: Node, pchain: Node) returns (first: Node)
    requires Chained(head, b) && Distinct(b) && 0 < i < |b|
    requires b[i] == chain && b[i - 1] == pchain
    modifies pchain`next, chain`next
    ensures first == chain && Chained(first, Moved(b, i))
  {
    pchain.next := chain.next;
    chain.next := head;
    first := chain;
    ghost var moved := Moved(b, i);
    forall j | 0 <= j < |moved| ensures moved[j].next == NodeAt(moved, j + 1) {
      if j > i { assert moved[j] == b[j]; }
      else if j > 0 { assert moved[j] == b[j - 1]; }
    }
  }

  ghost function Moved(b: seq<Node>, i: nat): seq<Node>
    requires i < |b|
  {
    [b[i]] + b[..i] + b[i + 1..]
  }

  /** Moving to the front only permutes a bucket. */
  lemma MovedPermutes(b: seq<Node>, i: nat)
    requires i < |b|
    ensures multiset(Moved(b, i)) == multiset(b)
  {
    assert b == b[..i] + [b[i]] + b[i + 1..];
  }

  lemma MovedSame(b: seq<Node>, i: nat, n: Node)
    requires i < |b|
    ensures n in Moved(b, i) <==> n in b
  {
    MovedPermutes(b, i);
    assert n in multiset(b) <==> n in multiset(Moved(b, i));
  }

  lemma MovedDistinct(b: seq<Node>, i: nat)
    requires i < |b| && Distinct(b)
    ensures Distinct(Moved(b, i))
  {
    var m := Moved(b, i);
    assert forall j :: 0 <= j < |m| ==> m[j] == if j == 0 then b[i] else if j <= i then b[j - 1] else b[j];
  }

  /** Nodes of different buckets differ. */
  lemma OtherBucket(hash: seq<byte> -> nat, size: nat, cells: map<seq<byte>, Node>, g: nat, a: seq<Node>, h: nat, b: seq<Node>)
    requires Homed(hash, size, cells, g, a) && Homed(hash, size, cells, h, b) && g != h
    ensures forall n :: n in a ==> n !in b
  {
  }

  class Table {
    const hash: seq<byte> -> nat
    const ar: array<Node?>
    ghost var buckets: seq<seq<Node>>
    ghost var cells: map<seq<byte>, Node>
    ghost var nodes: set<Node>

    /** The bucket of a key: its hash cut to the size of the table. */
    function Slot(key: seq<byte>): (h: nat)
      requires ar.Length > 0
      ensures h < ar.Length
    {
      hash(key) % ar.Length
    }

    /** Buckets partition the cells: every node in a bucket is the cell of its
        key, and the cell of a key is in the bucket of that key. */
    ghost predicate Valid()
      reads this, ar, nodes
    {
      && ar.Length > 0 && |buckets| == ar.Length
      && (forall h, n :: 0 <= h < |buckets| && n in buckets[h] ==> n in nodes)
      && (forall h :: 0 <= h < |buckets| ==> Chained(ar[h], buckets[h]))
      && Partition()
    }

    ghost predicate Partition()
      reads this
    {
      PartitionOf(buckets, cells)
    }

    ghost predicate PartitionOf(buckets: seq<seq<Node>>, cells: map<seq<byte>, Node>) {
      && ar.Length > 0 && |buckets| == ar.Length
      && (forall h :: 0 <= h < |buckets| ==> Distinct(buckets[h]) && Homed(hash, ar.Length, cells, h, buckets[h]))
      && (forall key :: key in cells ==> cells[key].key == key && cells[key] in buckets[Slot(key)])
    }

    constructor (hash: seq<byte> -> nat, size: nat)
      requires size > 0
      ensures Valid() && cells == map[] && nodes == {} && this.hash == hash && fresh(ar)
    {
      this.hash := hash;
      ar := new Node?[size](_ => null);
      buckets := seq(size, _ => []);
      cells, nodes := map[], {};
    }

    /** Walk one bucket: the node with the key, if there, its index, and the
        node before it. */
    method Find(h: nat, mem: seq<byte>) returns (chain: Node?, pchain: Node?, ghost i: nat)
      requires Valid() && h == Slot(mem)
      ensures chain != null <==> mem in cells
      ensures chain != null ==> chain == cells[mem] && i < |buckets[h]| && buckets[h][i] == chain
      ensures chain != null ==> pchain == if i == 0 then chain else buckets[h][i - 1]
    {
      var hf := hash(mem);
      ghost var b := buckets[h];
      assert Chained(ar[h], b);
      chain, pchain, i := ar[h], ar[h], 0;
      while chain != null
        invariant i <= |b| && chain == NodeAt(b, i)
        invariant pchain == if i == 0 then chain else b[i - 1]
        invariant forall j :: 0 <= j < i ==> b[j].key != mem
        decreases |b| - i
      {
        assert b[i] in b;
        if chain.fullhash == hf && |chain.key| == |mem| && chain.key == mem { return; }
        pchain := chain;
        chain, i := chain.next, i + 1;
      }
      assert mem !in cells;
    }

    /** JenkinsIns: the cell of a byte string, a new one with an empty payload
        if it was never stored; `at` is where in its bucket a hit was found. */
    method Ins(mem: seq<byte>) returns (cell: Node, ghost at: nat)
      requires Valid()
      modifies this, ar, nodes
      ensures Valid() && cell.key == mem
      ensures mem in old(cells) ==> cell == old(cells)[mem] && cells == old(cells)
      ensures mem !in old(cells) ==> fresh(cell) && cell.payload == 0 && cells == old(cells)[mem := cell]
      ensures mem in old(cells) ==> at < |old(buckets)[Slot(mem)]|
      ensures mem in old(cells) ==> buckets == old(buckets)[Slot(mem) := Moved(old(buckets)[Slot(mem)], at)]
      ensures nodes == old(nodes) + {cell}
      ensures mem !in old(cells) ==> buckets == old(buckets)[Slot(mem) := [cell] + old(buckets)[Slot(mem)]]
      ensures forall n :: n in old(nodes) ==> n.payload == old(n.payload)
    {
      hide Valid, Partition, Chained, Homed, Moved;
      ValidFacts();
      var h := Slot(mem);
      var chain, pchain;
      chain, pchain, at := Find(h, mem);
      if chain != null {
        cell := chain;
        if pchain != chain {
          MoveToFront(h, chain, pchain, at);
        } else {
          FirstAlready(h, at);
        }
      } else {
        cell := new Node(mem, hash(mem), ar[h]);
        InsertFront(h, cell);
      }
    }

    /** Over any sequence of calls, equal byte strings get the same cell and
        different ones different cells. */
    method InsAll(mems: seq<seq<byte>>) returns (found: seq<Node>)
      requires Valid() && cells == map[] && nodes == {}
      modifies this, ar
      ensures Valid() && |found| == |mems|
      ensures forall i, j :: 0 <= i < j < |mems| ==> (found[i] == found[j] <==> mems[i] == mems[j])
    {
      hide Valid;
      found := [];
      while |found| < |mems|
        invariant Valid() && |found| <= |mems| && fresh(nodes)
        invariant forall i :: 0 <= i < |found| ==> mems[i] in cells && cells[mems[i]] == found[i] && found[i].key == mems[i]
      {
        ValidFacts();
        var cell;
        ghost var at;
        cell, at := Ins(mems[|found|]);
        found := found + [cell];
      }
    }

    /** The caller sets what a cell holds. */
    method Mark(cell: Node, value: nat)
      requires Valid()
      modifies cell`payload
      ensures Valid() && cell.payload == value
    {
      hide Homed, Distinct;
      cell.payload := value;
      assert forall h :: 0 <= h < |buckets| ==> old(Chained(ar[h], buckets[h]));
    }

    lemma ValidFacts()
      requires Valid()
      ensures ar.Length > 0 && |buckets| == ar.Length
      ensures forall h, n :: 0 <= h < |buckets| && n in buckets[h] ==> n in nodes
      ensures forall key :: key in cells ==> cells[key] in nodes && cells[key].key == key
    {
    }

    lemma FirstAlready(h: nat, at: nat)
      requires Valid() && h < |buckets| && at < |buckets[h]|
      requires buckets[h][at] == if at == 0 then buckets[h][at] else buckets[h][at - 1]
      ensures at == 0 && Moved(buckets[h], at) == buckets[h]
    {
      assert Distinct(buckets[h]);
    }

    method MoveToFront(h: nat, chain: Node, pchain: Node, ghost i: nat)
      requires Valid() && h < |buckets| && 0 < i < |buckets[h]|
      requires buckets[h][i] == chain && buckets[h][i - 1] == pchain
      modifies this`buckets, ar, pchain`next, chain`next
      ensures Valid()
      ensures buckets == old(buckets)[h := Moved(old(buckets)[h], i)]
    {
      hide Partition, Homed, Moved, Chained;
      ghost var all := buckets;
      ValidParts();
      OthersDiffer(all, h, i);
      RelinkBucket(h, chain, pchain, i);
      buckets := all[h := Moved(all[h], i)];
      MovedPartition(h, i, all);
      MovedMembers(all[h], i);
    }

    method RelinkBucket(h: nat, chain: Node, pchain: Node, ghost i: nat)
      requires |buckets| == ar.Length && h < |buckets| && 0 < i < |buckets[h]| && Distinct(buckets[h])
      requires buckets[h][i] == chain && buckets[h][i - 1] == pchain
      requires forall g :: 0 <= g < |buckets| ==> Chained(ar[g], buckets[g])
      requires forall g, n :: 0 <= g < |buckets| && g != h && n in buckets[g] ==> n != chain && n != pchain
      modifies ar, pchain`next, chain`next
      ensures forall g :: 0 <= g < |buckets| && g != h ==> Chained(ar[g], buckets[g])
      ensures Chained(ar[h], Moved(buckets[h], i))
    {
      hide Moved;
      var first := Relink(ar[h], buckets[h], i, chain, pchain);
      ar[h] := first;
      assert forall g :: 0 <= g < |buckets| && g != h ==> old(Chained(ar[g], buckets[g]));
      assert forall g, n: Node :: 0 <= g < |buckets| && g != h && n in buckets[g] ==> n.next == old(n.next);
    }

    lemma ValidParts()
      requires Valid()
      ensures Partition() && ar.Length > 0 && |buckets| == ar.Length
      ensures forall g :: 0 <= g < |buckets| ==> Chained(ar[g], buckets[g]) && Distinct(buckets[g])
      ensures forall g :: 0 <= g < |buckets| ==> Homed(hash, ar.Length, cells, g, buckets[g])
      ensures forall h, n :: 0 <= h < |buckets| && n in buckets[h] ==> n in nodes
      ensures forall key :: key in cells ==> cells[key].key == key && cells[key] in buckets[Slot(key)]
    {
    }

    lemma MovedMembers(b: seq<Node>, i: nat)
      requires i < |b| && forall n :: n in b ==> n in nodes
      ensures forall n :: n in Moved(b, i) ==> n in nodes
    {
      forall n ensures n in Moved(b, i) <==> n in b {
        MovedSame(b, i, n);
      }
    }

    lemma OthersDiffer(all: seq<seq<Node>>, h: nat, i: nat)
      requires |all| == ar.Length > 0 && h < |all| && 0 < i < |all[h]|
      requires forall g :: 0 <= g < |all| ==> Homed(hash, ar.Length, cells, g, all[g])
      ensures forall g, n :: 0 <= g < |all| && g != h && n in all[g] ==> n != all[h][i] && n != all[h][i - 1]
    {
      forall g, n | 0 <= g < |all| && g != h && n in all[g] ensures n != all[h][i] && n != all[h][i - 1] {
        OtherBucket(hash, ar.Length, cells, g, all[g], h, all[h]);
        assert all[h][i] in all[h] && all[h][i - 1] in all[h];
      }
    }

    lemma MovedPartition(h: nat, i: nat, all: seq<seq<Node>>)
      requires |all| == ar.Length > 0 && h < |all| && i < |all[h]| && buckets == all[h := Moved(all[h], i)]
      requires forall g :: 0 <= g < |all| ==> Distinct(all[g]) && Homed(hash, ar.Length, cells, g, all[g])
      requires forall key :: key in cells ==> cells[key].key == key && cells[key] in all[Slot(key)]
      ensures Partition()
    {
      MovedDistinct(all[h], i);
      forall n ensures n in Moved(all[h], i) <==> n in all[h] {
        MovedSame(all[h], i, n);
      }
    }

    method InsertFront(h: nat, cell: Node)
      requires Valid() && h == Slot(cell.key) && cell.fullhash == hash(cell.key)
      requires cell.next == ar[h] && cell.key !in cells
      requires cell !in nodes
      modifies this`buckets, this`cells, this`nodes, ar
      ensures Valid() && nodes == old(nodes) + {cell}
      ensures buckets == old(buckets)[h := [cell] + old(buckets)[h]] && cells == old(cells)[cell.key := cell]
    {
      hide PartitionOf, Homed, Chained;
      ghost var all := buckets;
      ValidParts();
      InsertedPartition(h, cell, all);
      InsertedChained(ar[h], all[h], cell);
      ar[h] := cell;
      buckets := all[h := [cell] + all[h]];
      cells, nodes := cells[cell.key := cell], nodes + {cell};
      assert Partition();
    }

    lemma InsertedChained(head: Node?, b: seq<Node>, cell: Node)
      requires Chained(head, b) && cell.next == head
      ensures Chained(cell, [cell] + b)
    {
      var longer := [cell] + b;
      assert forall j :: 0 <= j < |longer| ==> longer[j] == if j == 0 then cell else b[j - 1];
    }

    lemma InsertedPartition(h: nat, cell: Node, all: seq<seq<Node>>)
      requires |all| == ar.Length > 0 && h == Slot(cell.key) && cell.fullhash == hash(cell.key)
      requires cell.key !in cells && cell !in nodes
      requires forall g, n :: 0 <= g < |all| && n in all[g] ==> n in nodes
      requires forall g :: 0 <= g < |all| ==> Distinct(all[g]) && Homed(hash, ar.Length, cells, g, all[g])
      requires forall key :: key in cells ==> cells[key].key == key && cells[key] in all[Slot(key)]
      ensures PartitionOf(all[h := [cell] + all[h]], cells[cell.key := cell])
    {
      var after := all[h := [cell] + all[h]];
      assert Distinct(after[h]) by {
        assert cell !in all[h];
        assert forall j :: 0 < j < |after[h]| ==> after[h][j] == all[h][j - 1];
      }
    }
  }
}
