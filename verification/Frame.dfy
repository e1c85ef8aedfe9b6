/** The frame of a block in src/fst/fstapi.c (curval_mem): every signal's value,
    one after the other, each as wide as its signal. */
module Frame {
  import opened Bytes

  ghost predicate Widths(lens: seq<nat>, vals: seq<seq<byte>>) {
    |vals| == |lens| && forall h :: 0 <= h < |lens| ==> lens[h] >= 1 && |vals[h]| == lens[h]
  }

  function FrameOf(vals: seq<seq<byte>>): seq<byte> {
    if vals == [] then [] else FrameOf(vals[..|vals| - 1]) + vals[|vals| - 1]
  }

  /** Where the value of signal `h` is. */
  function Offset(lens: seq<nat>, h: nat): nat
    requires h <= |lens|
  {
    if h == 0 then 0 else Offset(lens, h - 1) + lens[h - 1]
  }

  ghost predicate Offsets(lens: seq<nat>, offs: seq<nat>) {
    |offs| == |lens| && forall h :: 0 <= h < |lens| ==> offs[h] == Offset(lens, h)
  }

  lemma {:induction false} OffsetGrows(lens: seq<nat>, g: nat, h: nat)
    requires g <= h <= |lens|
    ensures Offset(lens, g) <= Offset(lens, h)
    decreases h
  {
    if g < h { OffsetGrows(lens, g, h - 1); }
  }

  lemma {:induction false} OffsetOfPrefix(lens: seq<nat>, n: nat, h: nat)
    requires h <= n <= |lens|
    ensures Offset(lens[..n], h) == Offset(lens, h)
    decreases h
  {
    if h > 0 { OffsetOfPrefix(lens, n, h - 1); }
  }

  lemma {:induction false} FrameSize(lens: seq<nat>, vals: seq<seq<byte>>)
    requires Widths(lens, vals)
    ensures |FrameOf(vals)| == Offset(lens, |lens|)
    decreases |lens|
  {
    if lens != [] {
      var n := |lens| - 1;
      FrameSize(lens[..n], vals[..n]);
      OffsetOfPrefix(lens, n, n);
    }
  }

  /** Each value is where its offset says. */
  lemma {:induction false} FrameAt(lens: seq<nat>, vals: seq<seq<byte>>, h: nat)
    requires Widths(lens, vals) && h < |lens|
    ensures At(FrameOf(vals), Offset(lens, h), vals[h])
    decreases |lens|
  {
    var n := |lens| - 1;
    FrameSize(lens[..n], vals[..n]);
    OffsetOfPrefix(lens, n, n);
    if h < n {
      FrameAt(lens[..n], vals[..n], h);
      OffsetOfPrefix(lens, n, h);
    }
  }

  /** Overwriting one value where it is gives the frame with that value. */
  lemma {:induction false} FrameUpdate(lens: seq<nat>, vals: seq<seq<byte>>, h: nat, val: seq<byte>)
    requires Widths(lens, vals) && h < |lens| && |val| == lens[h]
    ensures Offset(lens, h) + lens[h] <= |FrameOf(vals)|
    ensures FrameOf(vals[h := val])
         == FrameOf(vals)[..Offset(lens, h)] + val + FrameOf(vals)[Offset(lens, h) + lens[h]..]
    decreases |lens|
  {
    var n := |lens| - 1;
    FrameSize(lens[..n], vals[..n]);
    OffsetOfPrefix(lens, n, n);
    var front := FrameOf(vals[..n]);
    if h < n {
      FrameUpdate(lens[..n], vals[..n], h, val);
      OffsetOfPrefix(lens, n, h);
      assert vals[h := val][..n] == vals[..n][h := val];
      Overwrite(front, vals[n], Offset(lens, h), val);
    } else {
      UpdateLast(vals, val);
    }
  }

  lemma UpdateLast(vals: seq<seq<byte>>, val: seq<byte>)
    requires vals != [] && |val| == |vals[|vals| - 1]|
    ensures var n, front := |vals| - 1, FrameOf(vals[..|vals| - 1]);
      && |FrameOf(vals)| == |front| + |val|
      && FrameOf(vals[n := val]) == FrameOf(vals)[..|front|] + val + FrameOf(vals)[|front| + |val|..]
  {
    var n, front := |vals| - 1, FrameOf(vals[..|vals| - 1]);
    assert vals[n := val][..n] == vals[..n];
    assert FrameOf(vals)[..|front|] == front;
  }

  lemma Overwrite(front: seq<byte>, last: seq<byte>, p: nat, val: seq<byte>)
    requires p + |val| <= |front|
    ensures (front[..p] + val + front[p + |val|..]) + last
         == (front + last)[..p] + val + (front + last)[p + |val|..]
  {
  }

  /** A value is copied over the one at its signal's place in the frame. */
  method SetValue(curval: array<byte>, offs: seq<nat>, h: nat, val: seq<byte>, ghost lens: seq<nat>, ghost vals: seq<seq<byte>>)
    requires Widths(lens, vals) && h < |lens| && |val| == lens[h]
    requires curval[..] == FrameOf(vals) && Offsets(lens, offs)
    modifies curval
    ensures curval[..] == FrameOf(vals[h := val]) && Widths(lens, vals[h := val])
  {
    hide FrameOf, Offset;
    FrameUpdate(lens, vals, h, val);
    var p := offs[h];
    forall i | 0 <= i < |val| {
      curval[p + i] := val[i];
    }
    assert curval[..] == FrameOf(vals)[..p] + val + FrameOf(vals)[p + lens[h]..];
  }
}
