/** The two lists of writes of src/RegFileTrace.h and src/MemTrace.h, and the
    query both answer by replaying the list. */
module Accesses {

  /** RegFileAccess and MemAccess. */
  datatype Access = Access(time: nat, wr: bool, addr: nat, value: nat)

  datatype Lookup = Found(value: nat) | Absent

  /** What is at `addr` once every write up to time `t`, wherever it is in the
      list, has been done in order to what was there before. */
  function Replay(before: Lookup, trace: seq<Access>, t: nat, addr: nat): Lookup
    decreases |trace|
  {
    if trace == [] then before
    else
      var m := trace[|trace| - 1];
      if m.time <= t && m.wr && m.addr == addr then Found(m.value) else Replay(before, trace[..|trace| - 1], t, addr)
  }

  ghost predicate InTimeOrder(trace: seq<Access>) {
    forall j, k :: 0 <= j < k < |trace| ==> trace[j].time <= trace[k].time
  }

  /** The scan of getValue, which stops at the first access after `t`. */
  method Scan(before: Lookup, trace: seq<Access>, t: nat, addr: nat) returns (found: Lookup)
    requires InTimeOrder(trace)
    ensures found == Replay(before, trace, t, addr)
  {
    found := before;
    var i := 0;
    while i < |trace|
      invariant i <= |trace| && found == Replay(before, trace[..i], t, addr)
      invariant forall k :: 0 <= k < i ==> trace[k].time <= t
    {
      var m := trace[i];
      if m.time > t {
        NothingLater(before, trace, t, addr, i, |trace|);
        assert trace[..|trace|] == trace;
        return;
      }
      if m.wr && m.addr == addr {
        found := Found(m.value);
      }
      assert trace[..i + 1][..i] == trace[..i];
      i := i + 1;
    }
    assert trace[..i] == trace;
  }

  lemma {:induction false} NothingLater(before: Lookup, trace: seq<Access>, t: nat, addr: nat, i: nat, n: nat)
    requires i <= n <= |trace| && forall k :: i <= k < n ==> trace[k].time > t
    ensures Replay(before, trace[..n], t, addr) == Replay(before, trace[..i], t, addr)
    decreases n
  {
    if i < n {
      assert trace[..n][..n - 1] == trace[..n - 1];
      NothingLater(before, trace, t, addr, i, n - 1);
    }
  }

  lemma {:induction false} ReplayConcat(before: Lookup, a: seq<Access>, b: seq<Access>, t: nat, addr: nat)
    ensures Replay(before, a + b, t, addr) == Replay(Replay(before, a, t, addr), b, t, addr)
    decreases |b|
  {
    if b == [] {
      assert a + b == a;
    } else {
      assert (a + b)[..|a + b| - 1] == a + b[..|b| - 1];
      ReplayConcat(before, a, b[..|b| - 1], t, addr);
    }
  }

  /** The last write up to `t` decides; without one, what was there before. */
  lemma {:induction false} ReplayIsLast(before: Lookup, trace: seq<Access>, t: nat, addr: nat)
    ensures forall k :: LastWrite(trace, t, addr, k) ==> Replay(before, trace, t, addr) == Found(trace[k].value)
    ensures (forall k :: 0 <= k < |trace| ==> !Writes(trace[k], t, addr)) ==> Replay(before, trace, t, addr) == before
    decreases |trace|
  {
    if trace != [] {
      var n := |trace| - 1;
      ReplayIsLast(before, trace[..n], t, addr);
      if !Writes(trace[n], t, addr) {
        forall k | LastWrite(trace, t, addr, k) ensures LastWrite(trace[..n], t, addr, k) {
        }
      }
    }
  }

  predicate Writes(m: Access, t: nat, addr: nat) {
    m.time <= t && m.wr && m.addr == addr
  }

  ghost predicate LastWrite(trace: seq<Access>, t: nat, addr: nat, k: int) {
    0 <= k < |trace| && Writes(trace[k], t, addr) && forall j :: k < j < |trace| ==> !Writes(trace[j], t, addr)
  }
}
