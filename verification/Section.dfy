/** The bytes of one value-change block in src/fst/fstapi.c: as the writer lays
    them out, first with a placeholder header that is patched when the block is
    finished, and as the reader finds its way about in them. */
module Section {
  import opened Bytes
  import Varint

  // ----- fixed-size numbers -----

  /** fstWriterUint64: eight bytes, big end first. */
  function U64(v: nat): (s: seq<byte>)
    ensures |s| == 8
  {
    U32(v / 0x1_0000_0000) + U32(v)
  }

  function U32(v: nat): (s: seq<byte>)
    ensures |s| == 4
  {
    [v / 0x100_0000 % 256, v / 0x1_0000 % 256, v / 256 % 256, v % 256]
  }

  function Get32(s: seq<byte>, p: nat): nat
    requires p + 4 <= |s|
  {
    0x100_0000 * (s[p] as int) + 0x1_0000 * (s[p + 1] as int) + 256 * (s[p + 2] as int) + s[p + 3] as int
  }

  /** fstReaderUint64. */
  function Get64(s: seq<byte>, p: nat): nat
    requires p + 8 <= |s|
  {
    0x1_0000_0000 * Get32(s, p) + Get32(s, p + 4)
  }

  lemma U32Back(s: seq<byte>, p: nat, v: nat)
    requires At(s, p, U32(v))
    ensures Get32(s, p) == v % 0x1_0000_0000
  {
    var w := U32(v);
    assert s[p] == w[0] && s[p + 1] == w[1] && s[p + 2] == w[2] && s[p + 3] == w[3];
    Digits(v);
  }

  lemma Digits(v: nat)
    ensures 0x100_0000 * (v / 0x100_0000 % 256) + 0x1_0000 * (v / 0x1_0000 % 256) + 256 * (v / 256 % 256) + v % 256
         == v % 0x1_0000_0000
  {
    assert v / 0x1_0000 == v / 256 / 256 && v / 0x100_0000 == v / 0x1_0000 / 256 && v / 0x1_0000_0000 == v / 0x100_0000 / 256;
  }

  lemma U64Back(s: seq<byte>, p: nat, v: nat)
    requires At(s, p, U64(v)) && v < TWO_64
    ensures Get64(s, p) == v
  {
    hide U32;
    AtConcat(s, p, U32(v / 0x1_0000_0000), U32(v));
    U32Back(s, p, v / 0x1_0000_0000);
    U32Back(s, p + 4, v);
  }

  // ----- compressed parts -----

  /** compress2 and uncompress, which are foreign code: the second undoes the
      first when told the size. */
  datatype Zlib = Zlib(deflate: seq<byte> -> seq<byte>, inflate: (seq<byte>, nat) -> seq<byte>)

  ghost predicate Sound(z: Zlib) {
    forall x :: z.inflate(z.deflate(x), |x|) == x
  }

  /** Stored compressed only if that is smaller, so that the reader can tell by
      comparing the sizes. */
  function Pack(z: Zlib, x: seq<byte>): (r: seq<byte>)
    ensures |r| <= |x|
  {
    if |z.deflate(x)| < |x| then z.deflate(x) else x
  }

  function Unpack(z: Zlib, stored: seq<byte>, uclen: nat): seq<byte> {
    if |stored| == uclen then stored else z.inflate(stored, uclen)
  }

  lemma Unpacked(z: Zlib, x: seq<byte>)
    requires Sound(z)
    ensures Unpack(z, Pack(z, x), |x|) == x
  {
  }

  // ----- the layout -----

  /** FST_BL_VCDATA_DYN_ALIAS2 and FST_BL_SKIP. */
  const VCDATA: byte := 8
  const SKIP: byte := 255

  /** One block: begin and end time, the memory a reader needs for its chains,
      every signal's value when it begins, the number of signals, the chains
      (the pack type coming first), their index, and the time table. */
  datatype Section = Section(
    begTim: nat, endTim: nat, memReq: nat, frame: seq<byte>, maxhandle: nat,
    area: seq<byte>, index: seq<byte>, timeData: seq<byte>, nTimes: nat)

  function Frame(z: Zlib, frame: seq<byte>, maxhandle: nat): seq<byte> {
    Varint.Encode(|frame|) + (Varint.Encode(|Pack(z, frame)|) + (Varint.Encode(maxhandle) + Pack(z, frame)))
  }

  function Chains(z: Zlib, s: Section): seq<byte> {
    Varint.Encode(s.maxhandle) + (s.area + (s.index + (U64(|s.index|) + Times(z, s))))
  }

  function Times(z: Zlib, s: Section): seq<byte> {
    Pack(z, s.timeData) + (U64(|s.timeData|) + (U64(|Pack(z, s.timeData)|) + U64(s.nTimes)))
  }

  /** Tag, length, begin and end time, memory. */
  function Header(tag: byte, seclen: nat, begTim: nat, endTim: nat, memReq: nat): (h: seq<byte>)
    ensures |h| == 33
  {
    [tag] + (U64(seclen) + (U64(begTim) + (U64(endTim) + U64(memReq))))
  }

  function Length(z: Zlib, s: Section): nat {
    32 + |Frame(z, s.frame, s.maxhandle)| + |Chains(z, s)|
  }

  function Wire(z: Zlib, s: Section): seq<byte> {
    Header(VCDATA, Length(z, s), s.begTim, s.endTim, s.memReq) + (Frame(z, s.frame, s.maxhandle) + Chains(z, s))
  }

  /** What fstWriterEmitSectionHeader puts there for a block yet to come. */
  function Opening(z: Zlib, begTim: nat, curtime: nat, frame: seq<byte>, maxhandle: nat): seq<byte> {
    Header(SKIP, 0, begTim, curtime, 0) + Frame(z, frame, maxhandle)
  }

  // ----- patching -----

  /** fseek and fwrite over what is there. */
  function Patch(file: seq<byte>, p: nat, part: seq<byte>): (r: seq<byte>)
    requires p + |part| <= |file|
    ensures |r| == |file|
  {
    file[..p] + part + file[p + |part|..]
  }

  lemma Patched(pre: seq<byte>, was: seq<byte>, part: seq<byte>, post: seq<byte>)
    requires |was| == |part|
    ensures Patch(pre + (was + post), |pre|, part) == pre + (part + post)
  {
    var file := pre + (was + post);
    assert file[..|pre|] == pre;
    assert file[|pre| + |part|..] == post;
  }

  /** The trailer of the flush: block length, then, past the begin time, the end
      time and the memory, and last the tag over the temporary one. */
  method Finish(file: seq<byte>, sectionStart: nat, curtime: nat, memReq: nat,
                ghost pre: seq<byte>, ghost begTim: nat, ghost was: nat, ghost rest: seq<byte>)
    returns (r: seq<byte>)
    requires file == pre + (Header(SKIP, 0, begTim, was, 0) + rest) && sectionStart == |pre| + 1
    ensures r == pre + (Header(VCDATA, 32 + |rest|, begTim, curtime, memReq) + rest)
  {
    hide U64, Patch;
    r := Patch(file, sectionStart, U64(|file| - sectionStart));
    r := Patch(r, sectionStart + 16, U64(curtime));
    r := Patch(r, sectionStart + 24, U64(memReq));
    r := Patch(r, sectionStart - 1, [VCDATA]);
    PatchHeader(pre, begTim, was, rest, curtime, memReq);
  }

  lemma PatchHeader(pre: seq<byte>, begTim: nat, was: nat, rest: seq<byte>, curtime: nat, memReq: nat)
    ensures
      var file := pre + (Header(SKIP, 0, begTim, was, 0) + rest);
      var n := |pre| + 1;
      |file| - n == 32 + |rest| &&
      var r1 := Patch(file, n, U64(32 + |rest|));
      var r2 := Patch(r1, n + 16, U64(curtime));
      var r3 := Patch(r2, n + 24, U64(memReq));
      Patch(r3, n - 1, [VCDATA]) == pre + (Header(VCDATA, 32 + |rest|, begTim, curtime, memReq) + rest)
  {
    hide U64, Patch;
    var file := pre + (Header(SKIP, 0, begTim, was, 0) + rest);
    var len := 32 + |rest|;
    var p1, e, m := pre + [SKIP], U64(was), U64(0);
    assert file == p1 + (U64(0) + (U64(begTim) + e + m + rest));
    Patched(p1, U64(0), U64(len), U64(begTim) + e + m + rest);
    var p2 := p1 + U64(len) + U64(begTim);
    assert p1 + (U64(len) + (U64(begTim) + e + m + rest)) == p2 + (e + (m + rest));
    Patched(p2, e, U64(curtime), m + rest);
    var p3 := p2 + U64(curtime);
    assert p2 + (U64(curtime) + (m + rest)) == p3 + (m + rest);
    Patched(p3, m, U64(memReq), rest);
    var tail := U64(len) + U64(begTim) + U64(curtime) + U64(memReq) + rest;
    assert p3 + (U64(memReq) + rest) == pre + ([SKIP] + tail);
    Patched(pre, [SKIP], [VCDATA], tail);
    assert pre + ([VCDATA] + tail) == pre + (Header(VCDATA, len, begTim, curtime, memReq) + rest);
  }

  // ----- reading -----

  /** What a block is read into: its fields, where its chains begin, and where
      its index begins. */
  datatype Block = Block(section: Section, vcStart: nat, indxPos: nat, next: nat)

  /** All numbers in the block fit in 64 bits. */
  ghost predicate Fits(z: Zlib, s: Section) {
    && s.begTim < TWO_64 && s.endTim < TWO_64 && s.memReq < TWO_64 && s.maxhandle < TWO_64
    && |s.frame| < TWO_64 && |s.timeData| < TWO_64 && s.nTimes < TWO_64 && Length(z, s) < TWO_64
  }

  method ReadVarint64(file: seq<byte>, p: nat, ghost v: nat) returns (rc: nat, next: nat)
    requires At(file, p, Varint.Encode(v)) && v < TWO_64
    ensures rc == v && next == p + |Varint.Encode(v)|
  {
    Varint.ReadBackFits(file, p, v, Varint.W64);
    var skiplen;
    rc, skiplen := Varint.GetVarint(file, p, Varint.W64);
    next := p + skiplen;
  }

  /** fread. */
  method Take(file: seq<byte>, p: nat, n: nat, ghost part: seq<byte>) returns (r: seq<byte>)
    requires At(file, p, part) && n == |part|
    ensures r == part
  {
    r := file[p..p + n];
    AtSlice(file, p, part);
  }

  lemma ReadNumber(file: seq<byte>, p: nat, v: nat)
    requires At(file, p, U64(v)) && v < TWO_64
    ensures p + 8 <= |file| && Get64(file, p) == v
  {
    U64Back(file, p, v);
  }

  /** The time section, found from the end of the block. */
  method ReadTimeSection(z: Zlib, file: seq<byte>, end: nat, ghost s: Section, ghost p: nat)
    returns (timeData: seq<byte>, tsecClen: nat, nTimes: nat)
    requires Sound(z) && At(file, p, Times(z, s)) && end == p + |Times(z, s)|
    requires |s.timeData| < TWO_64 && s.nTimes < TWO_64
    ensures timeData == s.timeData && nTimes == s.nTimes && tsecClen == |Pack(z, s.timeData)|
    ensures end == p + tsecClen + 24
  {
    hide U64, Get64, Pack, Unpack, At;
    ghost var st, q := Pack(z, s.timeData), p + |Pack(z, s.timeData)|;
    AtConcat(file, p, st, U64(|s.timeData|) + (U64(|st|) + U64(s.nTimes)));
    AtConcat(file, q, U64(|s.timeData|), U64(|st|) + U64(s.nTimes));
    AtConcat(file, q + 8, U64(|st|), U64(s.nTimes));
    ReadNumber(file, q, |s.timeData|);
    ReadNumber(file, q + 8, |st|);
    ReadNumber(file, q + 16, s.nTimes);
    var tsecUclen := Get64(file, end - 24);
    tsecClen := Get64(file, end - 16);
    nTimes := Get64(file, end - 8);
    var data := Take(file, end - 24 - tsecClen, tsecClen, st);
    timeData := Unpack(z, data, tsecUclen);
    Unpacked(z, s.timeData);
  }

  lemma FrameParts(z: Zlib, file: seq<byte>, p: nat, frame: seq<byte>, maxhandle: nat)
    requires At(file, p, Frame(z, frame, maxhandle))
    ensures var sf := Pack(z, frame);
      var a, b, c := Varint.Encode(|frame|), Varint.Encode(|sf|), Varint.Encode(maxhandle);
      && At(file, p, a) && At(file, p + |a|, b) && At(file, p + |a| + |b|, c) && At(file, p + |a| + |b| + |c|, sf)
      && |Frame(z, frame, maxhandle)| == |a| + |b| + |c| + |sf|
  {
    hide Pack, At, Varint.Encode;
    var sf := Pack(z, frame);
    var a, b, c := Varint.Encode(|frame|), Varint.Encode(|sf|), Varint.Encode(maxhandle);
    AtConcat(file, p, a, b + (c + sf));
    AtConcat(file, p + |a|, b, c + sf);
    AtConcat(file, p + |a| + |b|, c, sf);
  }

  /** The frame, and where the chains' section begins. */
  method ReadFrame(z: Zlib, file: seq<byte>, p: nat, ghost frame: seq<byte>, ghost maxhandle: nat)
    returns (uc: seq<byte>, frameMaxhandle: nat, next: nat)
    requires Sound(z) && At(file, p, Frame(z, frame, maxhandle)) && |frame| < TWO_64 && maxhandle < TWO_64
    ensures uc == frame && frameMaxhandle == maxhandle && next == p + |Frame(z, frame, maxhandle)|
  {
    hide Pack, Unpack, At, Frame, Varint.Encode;
    ghost var sf := Pack(z, frame);
    FrameParts(z, file, p, frame, maxhandle);
    var uclen, clen, q;
    uclen, q := ReadVarint64(file, p, |frame|);
    clen, q := ReadVarint64(file, q, |sf|);
    frameMaxhandle, q := ReadVarint64(file, q, maxhandle);
    var data := Take(file, q, clen, sf);
    uc := Unpack(z, data, uclen);
    Unpacked(z, frame);
    next := q + clen;
  }

  lemma SectionParts(z: Zlib, file: seq<byte>, p: nat, s: Section)
    requires At(file, p, Wire(z, s))
    ensures At(file, p, Header(VCDATA, Length(z, s), s.begTim, s.endTim, s.memReq))
    ensures At(file, p + 33, Frame(z, s.frame, s.maxhandle))
    ensures At(file, p + 33 + |Frame(z, s.frame, s.maxhandle)|, Chains(z, s))
    ensures |Wire(z, s)| == Length(z, s) + 1
  {
    hide Header, Frame, Chains, At;
    var h := Header(VCDATA, Length(z, s), s.begTim, s.endTim, s.memReq);
    AtConcat(file, p, h, Frame(z, s.frame, s.maxhandle) + Chains(z, s));
    AtConcat(file, p + 33, Frame(z, s.frame, s.maxhandle), Chains(z, s));
  }

  lemma HeaderParts(file: seq<byte>, p: nat, tag: byte, seclen: nat, begTim: nat, endTim: nat, memReq: nat)
    requires At(file, p, Header(tag, seclen, begTim, endTim, memReq))
    requires seclen < TWO_64 && begTim < TWO_64 && endTim < TWO_64 && memReq < TWO_64
    ensures p + 33 <= |file| && file[p] == tag && Get64(file, p + 1) == seclen && Get64(file, p + 9) == begTim
    ensures Get64(file, p + 17) == endTim && Get64(file, p + 25) == memReq
  {
    hide U64, Get64;
    var m := U64(memReq);
    AtConcat(file, p, [tag], U64(seclen) + (U64(begTim) + (U64(endTim) + m)));
    AtConcat(file, p + 1, U64(seclen), U64(begTim) + (U64(endTim) + m));
    AtConcat(file, p + 9, U64(begTim), U64(endTim) + m);
    AtConcat(file, p + 17, U64(endTim), m);
    U64Back(file, p + 1, seclen);
    U64Back(file, p + 9, begTim);
    U64Back(file, p + 17, endTim);
    U64Back(file, p + 25, memReq);
    assert file[p] == [tag][0];
  }

  lemma ChainsParts(z: Zlib, file: seq<byte>, p: nat, s: Section)
    requires At(file, p, Chains(z, s)) && |s.index| < TWO_64
    ensures At(file, p, Varint.Encode(s.maxhandle))
    ensures var q := p + |Varint.Encode(s.maxhandle)|;
      && At(file, q, s.area) && At(file, q + |s.area|, s.index)
      && q + |s.area| + |s.index| + 8 <= |file| && Get64(file, q + |s.area| + |s.index|) == |s.index|
      && At(file, q + |s.area| + |s.index| + 8, Times(z, s))
      && q + |s.area| + |s.index| + 8 + |Times(z, s)| == p + |Chains(z, s)| <= |file|
  {
    hide U64, Get64, Times;
    var v, q := Varint.Encode(s.maxhandle), p + |Varint.Encode(s.maxhandle)|;
    var n := U64(|s.index|);
    AtConcat(file, p, v, s.area + (s.index + (n + Times(z, s))));
    AtConcat(file, q, s.area, s.index + (n + Times(z, s)));
    AtConcat(file, q + |s.area|, s.index, n + Times(z, s));
    AtConcat(file, q + |s.area| + |s.index|, n, Times(z, s));
    ReadNumber(file, q + |s.area| + |s.index|, |s.index|);
  }

  /** The section of the chains, which begins at `p` and ends at `end`: the times
      are found from its end, the index before them, and the chains are between
      the number of signals and the index. */
  method ReadChains(z: Zlib, file: seq<byte>, p: nat, end: nat, ghost s: Section)
    returns (maxhandle: nat, area: seq<byte>, index: seq<byte>, timeData: seq<byte>, nTimes: nat, vcStart: nat, indxPos: nat)
    requires Sound(z) && At(file, p, Chains(z, s)) && end == p + |Chains(z, s)|
    requires s.maxhandle < TWO_64 && |s.index| < TWO_64 && |s.timeData| < TWO_64 && s.nTimes < TWO_64
    ensures maxhandle == s.maxhandle && area == s.area && index == s.index && timeData == s.timeData && nTimes == s.nTimes
    ensures At(file, vcStart, s.area) && indxPos == vcStart + |s.area|
    ensures At(file, indxPos, s.index) && indxPos + |s.index| + 32 <= |file|
  {
    hide At, Chains, Times, Get64, Pack, Varint.Encode, Sound;
    ChainsParts(z, file, p, s);
    ghost var t := end - |Times(z, s)|;
    var tsecClen;
    timeData, tsecClen, nTimes := ReadTimeSection(z, file, end, s, t);
    maxhandle, vcStart := ReadVarint64(file, p, s.maxhandle);
    var indxPntr := end - 24 - tsecClen - 8;
    var chainClen := Get64(file, indxPntr);
    indxPos := indxPntr - chainClen;
    area := Take(file, vcStart, indxPos - vcStart, s.area);
    index := Take(file, indxPos, chainClen, s.index);
  }

  /** Read the block at `blkpos`: every field comes back as it was written. */
  method ReadSection(z: Zlib, file: seq<byte>, blkpos: nat, ghost s: Section) returns (b: Block)
    requires Sound(z) && At(file, blkpos, Wire(z, s)) && Fits(z, s)
    ensures b.section == s && b.next == blkpos + |Wire(z, s)|
    ensures At(file, b.vcStart, s.area) && b.indxPos == b.vcStart + |s.area|
    ensures At(file, b.indxPos, s.index) && b.indxPos + |s.index| + 32 <= |file|
  {
    hide At, Header, Frame, Chains, Times, Get64, Wire, Pack, Sound;
    SectionParts(z, file, blkpos, s);
    SizesFit(z, s);
    HeaderParts(file, blkpos, VCDATA, Length(z, s), s.begTim, s.endTim, s.memReq);
    var q := blkpos + 1;
    var seclen := Get64(file, q);
    var begTim, endTim, memReq := Get64(file, q + 8), Get64(file, q + 16), Get64(file, q + 24);
    var frame, frameMaxhandle, p := ReadFrame(z, file, q + 32, s.frame, s.maxhandle);
    var maxhandle, area, index, timeData, nTimes, vcStart, indxPos := ReadChains(z, file, p, q + seclen, s);
    b := Block(Section(begTim, endTim, memReq, frame, maxhandle, area, index, timeData, nTimes),
               vcStart, indxPos, q + seclen);
  }

  lemma SizesFit(z: Zlib, s: Section)
    requires Fits(z, s)
    ensures |s.index| < TWO_64 && |Times(z, s)| >= 24
  {
    hide U64, Pack, Frame;
  }
}
