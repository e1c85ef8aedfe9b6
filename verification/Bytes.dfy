/** Bytes, machine-word moduli, and the little facts about sequences that
    every buffer in the project shares. */
module Bytes {

  type byte = b: int | 0 <= b < 256

  const TWO_32: nat := 0x1_0000_0000
  const TWO_64: nat := 0x1_0000_0000_0000_0000

  /** `part` occurs in `s` starting at position `p`. */
  ghost predicate At<T>(s: seq<T>, p: nat, part: seq<T>) {
    p + |part| <= |s| && forall k {:trigger part[k]} :: 0 <= k < |part| ==> s[p + k] == part[k]
  }

  lemma AtConcat<T>(s: seq<T>, p: nat, a: seq<T>, b: seq<T>)
    requires At(s, p, a + b)
    ensures At(s, p, a) && At(s, p + |a|, b)
  {
    forall k {:trigger a[k]} | 0 <= k < |a| ensures s[p + k] == a[k] {
      assert (a + b)[k] == a[k];
    }
    forall k {:trigger b[k]} | 0 <= k < |b| ensures s[p + |a| + k] == b[k] {
      assert (a + b)[|a| + k] == b[k];
    }
  }

  lemma AtSlice<T>(s: seq<T>, p: nat, part: seq<T>)
    requires p + |part| <= |s|
    ensures At(s, p, part) <==> s[p..p + |part|] == part
  {
    if s[p..p + |part|] == part {
      assert forall k {:trigger part[k]} :: 0 <= k < |part| ==> s[p..p + |part|][k] == s[p + k];
    }
  }

  /** Two to the power of `n`. */
  function PowerOfTwo(n: nat): (r: nat)
    ensures r >= 1
  {
    if n == 0 then 1 else 2 * PowerOfTwo(n - 1)
  }
}
