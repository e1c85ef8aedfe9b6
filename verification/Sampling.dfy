/** What the three trace extractors of the debugger have in common
    (src/CpuTrace.cc, src/RegFileTrace.cc, src/MemTrace.cc): callbacks keep the
    current numbers of some signals, and the falling clock edge samples them. */
module Sampling {
  import opened Bytes
  import opened Chain
  import opened Merge

  const X: byte := 120    // 'x'
  const Z: byte := 122    // 'z'

  const MINUS: byte := 45
  const PLUS: byte := 43

  /** std::stol(value, nullptr, 2) after the test for unknown bits, as the
      unsigned 64-bit number it is assigned to. It throws if there are no digits
      or the number does not fit in a signed 64-bit one. */
  datatype Parsed = Unknown | Number(n: nat) | Throws

  /** The characters up to a terminating zero. */
  function CString(value: seq<byte>): (s: seq<byte>)
    ensures |s| <= |value| && s == value[..|s|] && 0 !in s
    ensures |s| < |value| ==> value[|s|] == 0
  {
    if value == [] || value[0] == 0 then [] else [value[0]] + CString(value[1..])
  }

  predicate IsSpace(b: byte) {
    b == 32 || 9 <= b <= 13
  }

  /** Leading white space. */
  function Blanks(s: seq<byte>): (n: nat)
    ensures n <= |s| && (forall i :: 0 <= i < n ==> IsSpace(s[i])) && (n < |s| ==> !IsSpace(s[n]))
  {
    if s == [] || !IsSpace(s[0]) then 0 else 1 + Blanks(s[1..])
  }

  predicate IsSign(b: byte) {
    b == MINUS || b == PLUS
  }

  /** Binary digits up to the first other character. */
  function Digits(s: seq<byte>): (n: nat)
    ensures n <= |s| && (forall i :: 0 <= i < n ==> IsBit(s[i])) && (n < |s| ==> !IsBit(s[n]))
  {
    if s == [] || !IsBit(s[0]) then 0 else 1 + Digits(s[1..])
  }

  function Binary(digits: seq<byte>): nat
    requires forall i :: 0 <= i < |digits| ==> IsBit(digits[i])
  {
    if digits == [] then 0 else 2 * Binary(digits[..|digits| - 1]) + if digits[|digits| - 1] == ONE then 1 else 0
  }

  /** The number with its sign. */
  function Signed(digits: seq<byte>, negative: bool): Parsed
    requires forall i :: 0 <= i < |digits| ==> IsBit(digits[i])
  {
    var n := Binary(digits);
    if digits == [] || (if negative then n > TWO_64 / 2 else n >= TWO_64 / 2) then Throws
    else Number(if negative && n > 0 then TWO_64 - n else n)
  }

  function ParseText(s: seq<byte>): Parsed {
    if X in s || Z in s then Unknown
    else
      var t := s[Blanks(s)..];
      var u := if t != [] && IsSign(t[0]) then t[1..] else t;
      Signed(u[..Digits(u)], t != [] && t[0] == MINUS)
  }

  function Parse(value: seq<byte>): Parsed {
    ParseText(CString(value))
  }

  /** The length of the C string. */
  method TextOf(value: seq<byte>) returns (s: seq<byte>)
    ensures s == CString(value)
  {
    var n := 0;
    while n < |value| && value[n] != 0
      invariant n <= |value| && forall i :: 0 <= i < n ==> value[i] != 0
    {
      n := n + 1;
    }
    s := value[..n];
    CStringIs(value, n);
  }

  lemma {:induction false} CStringIs(value: seq<byte>, n: nat)
    requires n <= |value| && (forall i :: 0 <= i < n ==> value[i] != 0) && (n < |value| ==> value[n] == 0)
    ensures CString(value) == value[..n]
    decreases n
  {
    if n > 0 {
      CStringIs(value[1..], n - 1);
      assert value[..n] == [value[0]] + value[1..][..n - 1];
    }
  }

  /** What the extractors do with a value: white space, a sign, digits. */
  method ParseValue(value: seq<byte>) returns (p: Parsed)
    ensures p == Parse(value)
    ensures value != [] && IsBinary(value) ==>
      Weighed(value, 0) >= 0 &&
      p == if Weighed(value, 0) < 0x8000_0000_0000_0000 then Number(Weighed(value, 0)) else Throws
  {
    hide Signed, Weighed, Binary;
    if value != [] && IsBinary(value) { ParseBinary(value); }
    var s := TextOf(value);
    if X in s || Z in s { return Unknown; }
    var i := 0;
    while i < |s| && IsSpace(s[i])
      invariant i <= |s| && forall j :: 0 <= j < i ==> IsSpace(s[j])
    {
      i := i + 1;
    }
    BlanksAre(s, i);
    var negative := i < |s| && s[i] == MINUS;
    var from := if i < |s| && IsSign(s[i]) then i + 1 else i;
    assert s[i..] != [] && IsSign(s[i..][0]) ==> s[i..][1..] == s[from..];
    p := ParseDigits(s[from..], negative);
  }

  /** The digits, until another character or the end. */
  method ParseDigits(u: seq<byte>, negative: bool) returns (p: Parsed)
    ensures p == Signed(u[..Digits(u)], negative)
  {
    var n, acc := 0, 0;
    while n < |u| && IsBit(u[n])
      invariant n <= |u| && forall i :: 0 <= i < n ==> IsBit(u[i])
      invariant acc == Binary(u[..n])
    {
      assert u[..n + 1][..n] == u[..n];
      acc := 2 * acc + (u[n] - ZERO);
      n := n + 1;
    }
    DigitsAre(u, n);
    if n == 0 || (if negative then acc > TWO_64 / 2 else acc >= TWO_64 / 2) {
      p := Throws;
    } else {
      p := Number(if negative && acc > 0 then TWO_64 - acc else acc);
    }
  }

  lemma {:induction false} BlanksAre(s: seq<byte>, n: nat)
    requires n <= |s| && (forall i :: 0 <= i < n ==> IsSpace(s[i])) && (n < |s| ==> !IsSpace(s[n]))
    ensures Blanks(s) == n
    decreases n
  {
    if n > 0 { BlanksAre(s[1..], n - 1); }
  }

  lemma {:induction false} DigitsAre(s: seq<byte>, n: nat)
    requires n <= |s| && (forall i :: 0 <= i < n ==> IsBit(s[i])) && (n < |s| ==> !IsBit(s[n]))
    ensures Digits(s) == n
    decreases n
  {
    if n > 0 { DigitsAre(s[1..], n - 1); }
  }

  /** What the digits from `i` on weigh: each one its value times the power of two of
      the number of digits after it. */
  function Weighed(digits: seq<byte>, i: nat): int
    requires i <= |digits|
    decreases |digits| - i
  {
    if i == |digits| then 0 else (digits[i] as int - 48) * PowerOfTwo(|digits| - 1 - i) + Weighed(digits, i + 1)
  }

  lemma {:induction false} WeighedSnoc(digits: seq<byte>, i: nat, d: byte)
    requires i <= |digits|
    ensures Weighed(digits + [d], i) == 2 * Weighed(digits, i) + (d as int - 48)
    decreases |digits| - i
  {
    var more := digits + [d];
    if i < |digits| {
      WeighedSnoc(digits, i + 1, d);
      Doubled(digits[i] as int - 48, PowerOfTwo(|digits| - 1 - i), PowerOfTwo(|digits| - i));
      assert more[i] == digits[i] && |more| - 1 - i == |digits| - i;
    } else {
      assert Weighed(more, i + 1) == 0 && PowerOfTwo(0) == 1;
    }
  }

  lemma Doubled(x: int, p: nat, q: nat)
    requires q == 2 * p
    ensures x * q == 2 * (x * p)
  {
  }

  /** The number read is the sum of the digits' weights. */
  lemma {:induction false} BinaryWeighs(digits: seq<byte>)
    requires IsBinary(digits)
    ensures Binary(digits) == Weighed(digits, 0)
    decreases |digits|
  {
    hide Weighed;
    if digits == [] {
      NothingWeighs();
    } else {
      var n := |digits| - 1;
      BinaryWeighs(digits[..n]);
      WeighedSnoc(digits[..n], 0, digits[n]);
      assert digits[..n] + [digits[n]] == digits;
    }
  }

  lemma NothingWeighs()
    ensures Weighed([], 0) == 0
  {
  }

  /** What a value of binary digits alone means: the sum of their weights, if that is
      below 2^63. */
  lemma ParseBinary(value: seq<byte>)
    requires value != [] && IsBinary(value)
    ensures Weighed(value, 0) >= 0
    ensures Parse(value) == if Weighed(value, 0) < 0x8000_0000_0000_0000 then Number(Weighed(value, 0)) else Throws
  {
    CStringIs(value, |value|);
    assert value[..|value|] == value;
    BlanksAre(value, 0);
    assert value[0..] == value;
    DigitsAre(value, |value|);
    BinaryWeighs(value);
  }

  predicate Blank(b: byte) {
    b == 32 || b == 9 || b == 10 || b == 11 || b == 12 || b == 13
  }

  /** Blanks, a sign or none, digits, and then anything that is not a digit: the sum
      of the digits' weights, taken from 2^64 if the sign is a minus; refused if there
      are no digits, or if it is not within a signed 64-bit number. */
  lemma ParseMeans(blanks: seq<byte>, sign: seq<byte>, digits: seq<byte>, rest: seq<byte>)
    requires (forall b :: b in blanks ==> Blank(b)) && (sign == [] || sign == [43] || sign == [45])
    requires forall b :: b in digits ==> b == 48 || b == 49
    requires rest == [] || (rest[0] != 48 && rest[0] != 49 && (sign == [] && digits == [] ==> !Blank(rest[0]) && rest[0] != 43 && rest[0] != 45))
    requires 0 !in rest && 120 !in rest && 122 !in rest
    ensures var n := Weighed(digits, 0);
      Parse(blanks + sign + digits + rest) ==
        if digits == [] || n > 0x8000_0000_0000_0000 || (n == 0x8000_0000_0000_0000 && sign != [45]) then Throws
        else if sign == [45] && n > 0 then Number(0x1_0000_0000_0000_0000 - n)
        else Number(if n >= 0 then n else 0)
    ensures Weighed(digits, 0) >= 0
  {
    hide Weighed, Signed, Binary, CString, ParseText;
    var s := blanks + (sign + (digits + rest));
    assert blanks + sign + digits + rest == s;
    NoneUnknown(blanks, sign, digits, rest);
    CStringIs(s, |s|);
    assert s[..|s|] == s;
    TextMeans(blanks, sign, digits, rest);
    BinaryWeighs(digits);
    SignedIs(digits, sign == [45]);
  }

  lemma TextMeans(blanks: seq<byte>, sign: seq<byte>, digits: seq<byte>, rest: seq<byte>)
    requires (forall b :: b in blanks ==> Blank(b)) && (sign == [] || sign == [43] || sign == [45])
    requires forall b :: b in digits ==> b == 48 || b == 49
    requires rest == [] || (rest[0] != 48 && rest[0] != 49 && (sign == [] && digits == [] ==> !Blank(rest[0]) && rest[0] != 43 && rest[0] != 45))
    requires var s := blanks + (sign + (digits + rest)); X !in s && Z !in s
    ensures IsBinary(digits) && ParseText(blanks + (sign + (digits + rest))) == Signed(digits, sign == [45])
  {
    hide Signed, Binary, Blanks, Digits, IsSign, Blank;
    var t := sign + (digits + rest);
    AfterBlanks(sign, digits, rest);
    LeadingBlanks(blanks, t);
    LeadingDigits(digits, rest);
  }

  lemma NoneUnknown(blanks: seq<byte>, sign: seq<byte>, digits: seq<byte>, rest: seq<byte>)
    requires (forall b :: b in blanks ==> Blank(b)) && (sign == [] || sign == [43] || sign == [45])
    requires forall b :: b in digits ==> b == 48 || b == 49
    requires 0 !in rest && 120 !in rest && 122 !in rest
    ensures var s := blanks + (sign + (digits + rest));
      X !in s && Z !in s && forall i :: 0 <= i < |s| ==> s[i] != 0
  {
    var s := blanks + (sign + (digits + rest));
    forall b | b in s ensures b != 0 && b != X && b != Z {
      assert b in blanks || b in sign || b in digits || b in rest;
    }
    assert forall i :: 0 <= i < |s| ==> s[i] in s;
  }

  /** What comes after the blanks is no blank; it begins with the sign if there is one. */
  lemma AfterBlanks(sign: seq<byte>, digits: seq<byte>, rest: seq<byte>)
    requires sign == [] || sign == [43] || sign == [45]
    requires forall b :: b in digits ==> b == 48 || b == 49
    requires sign == [] && digits == [] && rest != [] ==> !Blank(rest[0]) && rest[0] != 43 && rest[0] != 45
    ensures var t := sign + (digits + rest);
      && (t == [] || !Blank(t[0])) && (t != [] && IsSign(t[0]) <==> sign != []) && (t != [] && t[0] == MINUS <==> sign == [45])
      && (if sign != [] then t[1..] else t) == digits + rest
  {
    var t := sign + (digits + rest);
    if sign == [] && digits != [] {
      assert t[0] == digits[0] && digits[0] in digits;
    }
  }

  lemma LeadingBlanks(blanks: seq<byte>, t: seq<byte>)
    requires (forall b :: b in blanks ==> Blank(b)) && (t == [] || !Blank(t[0]))
    ensures Blanks(blanks + t) == |blanks| && (blanks + t)[|blanks|..] == t
  {
    var s := blanks + t;
    assert forall i :: 0 <= i < |blanks| ==> s[i] == blanks[i] && blanks[i] in blanks;
    BlanksAre(s, |blanks|);
  }

  lemma LeadingDigits(digits: seq<byte>, rest: seq<byte>)
    requires (forall b :: b in digits ==> b == 48 || b == 49) && (rest == [] || (rest[0] != 48 && rest[0] != 49))
    ensures IsBinary(digits) && Digits(digits + rest) == |digits| && (digits + rest)[..|digits|] == digits
  {
    var u := digits + rest;
    assert forall i :: 0 <= i < |digits| ==> u[i] == digits[i] && digits[i] in digits;
    DigitsAre(u, |digits|);
  }

  lemma SignedIs(digits: seq<byte>, negative: bool)
    requires IsBinary(digits)
    ensures var n := Binary(digits);
      Signed(digits, negative) ==
        if digits == [] || n > 0x8000_0000_0000_0000 || (n == 0x8000_0000_0000_0000 && !negative) then Throws
        else if negative && n > 0 then Number(0x1_0000_0000_0000_0000 - n)
        else Number(n)
  {
    hide Binary;
  }

  /** An x or a z before the end of the text makes the whole value unknown. */
  lemma ParseUnknown(value: seq<byte>)
    requires 0 !in value
    ensures Parse(value) == Unknown <==> 120 in value || 122 in value
  {
    CStringIs(value, |value|);
    assert value[..|value|] == value;
  }

  /** Nothing after a zero counts. */
  lemma ParseEnds(value: seq<byte>, rest: seq<byte>)
    requires 0 !in value
    ensures Parse(value + [0] + rest) == Parse(value)
  {
    hide ParseText;
    CStringIs(value, |value|);
    CStringIs(value + [0] + rest, |value|);
    assert value[..|value|] == value && (value + [0] + rest)[..|value|] == value;
  }

  /** A minus sign and a one is the largest 64-bit number. */
  lemma ParseMinusOne()
    ensures Parse([MINUS, ONE]) == Number(TWO_64 - 1) && Parse([MINUS]) == Throws
  {
    assert CString([MINUS, ONE]) == [MINUS, ONE] && CString([MINUS]) == [MINUS] by {
      CStringIs([MINUS, ONE], 2);
      CStringIs([MINUS], 1);
    }
    BlanksAre([MINUS, ONE], 0);
    BlanksAre([MINUS], 0);
    assert [MINUS, ONE][0..] == [MINUS, ONE] && [MINUS, ONE][1..] == [ONE] && [MINUS][0..] == [MINUS] && [MINUS][1..] == [];
    DigitsAre([ONE], 1);
    assert [ONE][..1] == [ONE] && [ONE][..0] == [];
    assert Binary([ONE]) == 1;
  }

  // ----- the callbacks -----

  /** The clock and the signals watched, by handle. */
  datatype Probe = Probe(clk: nat, watched: seq<nat>)

  /** The numbers of the watched signals at one falling edge. */
  datatype Sample = Sample(time: nat, vals: seq<nat>)

  datatype State = Going(vals: seq<nat>, samples: seq<Sample>) | Failed

  /** The place of a handle among those watched, the first if there are several;
      their number if it is not watched. */
  function Place(watched: seq<nat>, handle: nat): (j: nat)
    ensures j <= |watched| && (j < |watched| ==> watched[j] == handle)
    ensures forall k :: 0 <= k < j ==> watched[k] != handle
  {
    if watched == [] || watched[0] == handle then 0 else 1 + Place(watched[1..], handle)
  }

  function Start(p: Probe): State {
    Going(seq(|p.watched|, _ => 0), [])
  }

  function Callback(p: Probe, s: State, e: Event): (r: State)
    requires s.Going? ==> |s.vals| == |p.watched|
    ensures r.Going? ==> |r.vals| == |p.watched|
  {
    if s.Failed? then Failed
    else
      match Parse(e.val)
      case Unknown => s
      case Throws => Failed
      case Number(n) =>
        var j := Place(p.watched, e.handle);
        if j < |p.watched| then s.(vals := s.vals[j := n])
        else if e.handle == p.clk && n == 0 then s.(samples := s.samples + [Sample(e.time, s.vals)])
        else s
  }

  function Play(p: Probe, events: seq<Event>): (r: State)
    ensures r.Going? ==> |r.vals| == |p.watched|
    decreases |events|
  {
    if events == [] then Start(p) else Callback(p, Play(p, events[..|events| - 1]), events[|events| - 1])
  }

  /** An exception ends the run. */
  lemma {:induction false} FailsOn(p: Probe, events: seq<Event>, i: nat, n: nat)
    requires i <= n <= |events| && Play(p, events[..i]).Failed?
    ensures Play(p, events[..n]).Failed?
    decreases n
  {
    hide Parse, Place;
    if i < n {
      assert events[..n][..n - 1] == events[..n - 1];
      FailsOn(p, events, i, n - 1);
    }
  }

  lemma PlaySnoc(p: Probe, events: seq<Event>, e: Event)
    ensures Play(p, events + [e]) == Callback(p, Play(p, events), e)
  {
    assert (events + [e])[..|events|] == events;
  }

  /** What one more callback does: a 0 of the clock samples the numbers there are, and a
      1 does nothing; binary digits for a watched signal are its number from now on;
      a value with an x or z in it changes nothing. */
  lemma OneMore(p: Probe, events: seq<Event>, e: Event)
    requires Play(p, events).Going? && p.clk !in p.watched
    requires forall j, k :: 0 <= j < k < |p.watched| ==> p.watched[j] != p.watched[k]
    ensures var s, r := Play(p, events), Play(p, events + [e]);
      && (e.handle == p.clk && e.val == [48] ==> r == Going(s.vals, s.samples + [Sample(e.time, s.vals)]))
      && (e.handle == p.clk && e.val == [49] ==> r == s)
      && (0 !in e.val && (120 in e.val || 122 in e.val) ==> r == s)
      && (e.val != [] && IsBinary(e.val) && Weighed(e.val, 0) < 0x8000_0000_0000_0000 ==>
            && Weighed(e.val, 0) >= 0 && (e.handle != p.clk && e.handle !in p.watched ==> r == s)
            && forall j :: 0 <= j < |s.vals| && p.watched[j] == e.handle ==> r == s.(vals := s.vals[j := Weighed(e.val, 0)]))
  {
    hide Parse, Weighed;
    PlaySnoc(p, events, e);
    assert e.val != [] && IsBinary(e.val) ==> Weighed(e.val, 0) >= 0 by {
      if e.val != [] && IsBinary(e.val) { ParseBinary(e.val); }
    }
    if e.val != [] && IsBinary(e.val) { ParseBinary(e.val); }
    if 0 !in e.val { ParseUnknown(e.val); }
    OneBit();
    var k := Place(p.watched, e.handle);
    assert k < |p.watched| ==> p.watched[k] in p.watched;
  }

  lemma OneBit()
    ensures IsBinary([48]) && IsBinary([49]) && Weighed([48], 0) == 0 && Weighed([49], 0) == 1
  {
    assert Weighed([48], 1) == 0 && Weighed([49], 1) == 0 && PowerOfTwo(0) == 1;
  }

  // ----- what is sampled, signal by signal -----

  /** The last number in `events` from before `t`. */
  function NumberBefore(events: seq<Event>, t: nat): nat
    decreases |events|
  {
    if events == [] then 0
    else
      var e := events[|events| - 1];
      if e.time < t && Parse(e.val).Number? then Parse(e.val).n else NumberBefore(events[..|events| - 1], t)
  }

  /** One sample for every falling edge of the clock, of what every signal's own
      list of changes says it was just before. */
  function SampledAt(p: Probe, events: seq<Event>, edges: seq<Event>): seq<Sample>
    decreases |edges|
  {
    if edges == [] then []
    else
      var e := edges[|edges| - 1];
      SampledAt(p, events, edges[..|edges| - 1]) + if IsEdge(e) then [SampleOf(p, events, e.time)] else []
  }

  predicate IsEdge(e: Event) {
    Parse(e.val) == Number(0)
  }

  function SampleOf(p: Probe, events: seq<Event>, t: nat): (s: Sample)
    ensures |s.vals| == |p.watched|
  {
    Sample(t, seq(|p.watched|, j requires 0 <= j < |p.watched| => NumberBefore(ListOf(events, p.watched[j]), t)))
  }

  function ListOf(events: seq<Event>, handle: nat): seq<Event> {
    if handle == 0 then [] else Of(events, handle - 1)
  }

  ghost predicate InTimeOrder(events: seq<Event>) {
    forall j, k :: 0 <= j < k < |events| ==> events[j].time <= events[k].time
  }

  /** All handles are different, none being zero. */
  ghost predicate Distinct(p: Probe) {
    && p.clk > 0 && (forall j :: 0 <= j < |p.watched| ==> p.watched[j] > 0 && p.watched[j] != p.clk)
    && forall j, k :: 0 <= j < k < |p.watched| ==> p.watched[j] != p.watched[k]
  }

  /** No watched signal changes at the time of a falling edge. */
  ghost predicate Settled(p: Probe, events: seq<Event>) {
    forall d, e :: d in events && e in events && d.handle == p.clk && IsEdge(d) && e.handle in p.watched ==> e.time != d.time
  }

  ghost predicate Parses(events: seq<Event>) {
    forall e :: e in events ==> !Parse(e.val).Throws?
  }

  // ----- the trace depends on each signal's own changes only -----

  lemma ListSnoc(events: seq<Event>, e: Event, handle: nat)
    requires handle > 0
    ensures ListOf(events + [e], handle) == ListOf(events, handle) + if e.handle == handle then [e] else []
  {
    OfSnoc(events, e, handle - 1);
  }

  lemma {:induction false} ListMembers(events: seq<Event>, handle: nat, e: Event)
    requires handle > 0
    ensures e in ListOf(events, handle) <==> e in events && e.handle == handle
    decreases |events|
  {
    if events != [] {
      var n := |events| - 1;
      ListMembers(events[..n], handle, e);
      assert events == events[..n] + [events[n]];
    }
  }

  lemma PlaceOf(watched: seq<nat>, j: nat)
    requires j < |watched| && forall i, k :: 0 <= i < k < |watched| ==> watched[i] != watched[k]
    ensures Place(watched, watched[j]) == j
  {
    var k := Place(watched, watched[j]);
    assert k <= j;
  }

  /** A later event does not change what was before `t`. */
  lemma NumberSnoc(list: seq<Event>, e: Event, t: nat)
    ensures NumberBefore(list + [e], t) ==
      if e.time < t && Parse(e.val).Number? then Parse(e.val).n else NumberBefore(list, t)
  {
    assert (list + [e])[..|list|] == list;
  }

  lemma SampleLater(p: Probe, events: seq<Event>, e: Event, t: nat)
    requires Distinct(p) && t <= e.time
    ensures SampleOf(p, events + [e], t) == SampleOf(p, events, t)
  {
    hide Parse, ListOf, NumberBefore;
    forall j | 0 <= j < |p.watched|
      ensures NumberBefore(ListOf(events + [e], p.watched[j]), t) == NumberBefore(ListOf(events, p.watched[j]), t)
    {
      ListSnoc(events, e, p.watched[j]);
      NumberSnoc(ListOf(events, p.watched[j]), e, t);
      assert ListOf(events, p.watched[j]) + [] == ListOf(events, p.watched[j]);
    }
  }

  lemma {:induction false} SampledLater(p: Probe, events: seq<Event>, e: Event, edges: seq<Event>)
    requires Distinct(p) && forall d :: d in edges ==> d.time <= e.time
    ensures SampledAt(p, events + [e], edges) == SampledAt(p, events, edges)
    decreases |edges|
  {
    hide SampleOf, IsEdge;
    if edges != [] {
      var n := |edges| - 1;
      SampledLater(p, events, e, edges[..n]);
      SampleLater(p, events, e, edges[n].time);
    }
  }

  /** The watched numbers are what each signal's list says. */
  ghost predicate Watches(p: Probe, events: seq<Event>, vals: seq<nat>) {
    |vals| == |p.watched| && forall j :: 0 <= j < |vals| ==> WatchesOne(ListOf(events, p.watched[j]), vals[j])
  }

  ghost predicate WatchesOne(list: seq<Event>, val: nat) {
    forall t: nat :: After(list, t) ==> val == NumberBefore(list, t)
  }

  ghost predicate After(list: seq<Event>, t: nat) {
    forall e :: e in list ==> e.time < t
  }

  lemma AfterSnoc(list: seq<Event>, e: Event, t: nat)
    ensures After(list + [e], t) <==> After(list, t) && e.time < t
  {
    assert forall d :: d in list + [e] <==> d in list || d == e;
  }

  lemma WatchesSnoc(list: seq<Event>, e: Event, val: nat)
    requires WatchesOne(list, val)
    ensures Parse(e.val).Number? ==> WatchesOne(list + [e], Parse(e.val).n)
    ensures !Parse(e.val).Number? ==> WatchesOne(list + [e], val)
  {
    hide Parse, After, NumberBefore;
    forall t: nat | After(list + [e], t)
      ensures NumberBefore(list + [e], t) == if Parse(e.val).Number? then Parse(e.val).n else val
    {
      AfterSnoc(list, e, t);
      NumberSnoc(list, e, t);
    }
  }

  lemma CallbackWatches(p: Probe, s: State, events: seq<Event>, e: Event)
    requires Distinct(p) && s.Going? && Watches(p, events, s.vals)
    requires Callback(p, s, e).Going?
    ensures Watches(p, events + [e], Callback(p, s, e).vals)
  {
    hide Parse, ListOf, WatchesOne, Place;
    var r := Callback(p, s, e);
    forall j | 0 <= j < |r.vals| ensures WatchesOne(ListOf(events + [e], p.watched[j]), r.vals[j]) {
      ListSnoc(events, e, p.watched[j]);
      WatchesSnoc(ListOf(events, p.watched[j]), e, s.vals[j]);
      assert ListOf(events, p.watched[j]) + [] == ListOf(events, p.watched[j]);
      PlaceOf(p.watched, j);
    }
  }

  /** At a falling edge the watched numbers are those from before it. */
  lemma EdgeSample(p: Probe, events: seq<Event>, e: Event, vals: seq<nat>)
    requires Distinct(p) && Watches(p, events, vals) && InTimeOrder(events + [e]) && Settled(p, events + [e])
    requires e.handle == p.clk && IsEdge(e)
    ensures Sample(e.time, vals) == SampleOf(p, events, e.time)
  {
    hide ListOf, NumberBefore, IsEdge;
    forall j | 0 <= j < |vals| ensures vals[j] == NumberBefore(ListOf(events, p.watched[j]), e.time) {
      forall d | d in ListOf(events, p.watched[j]) ensures d.time < e.time {
        ListMembers(events, p.watched[j], d);
        EarlierThanLast(events, e, d);
        assert d in events + [e] && e in events + [e];
      }
      assert WatchesOne(ListOf(events, p.watched[j]), vals[j]);
      assert After(ListOf(events, p.watched[j]), e.time);
    }
  }

  lemma EarlierThanLast(events: seq<Event>, e: Event, d: Event)
    requires InTimeOrder(events + [e]) && d in events
    ensures d.time <= e.time
  {
    var k :| 0 <= k < |events| && events[k] == d;
    assert (events + [e])[k] == d && (events + [e])[|events|] == e;
  }

  lemma PrefixFine(p: Probe, events: seq<Event>, e: Event)
    requires InTimeOrder(events + [e]) && Settled(p, events + [e])
    ensures InTimeOrder(events) && Settled(p, events)
  {
    assert forall k :: 0 <= k < |events| ==> (events + [e])[k] == events[k];
    assert forall d :: d in events ==> d in events + [e];
  }

  /** Playing callbacks samples exactly what the signals' own lists say, one
      sample for each falling edge. */
  lemma {:induction false} PlayIs(p: Probe, events: seq<Event>)
    requires Distinct(p) && InTimeOrder(events) && Settled(p, events)
    ensures Play(p, events).Failed? <==> !Parses(events)
    ensures Play(p, events).Going? ==>
      && Play(p, events).samples == SampledAt(p, events, ListOf(events, p.clk))
      && Watches(p, events, Play(p, events).vals)
    decreases |events|
  {
    hide Settled, InTimeOrder, Callback, Watches, SampledAt;
    if events == [] {
      PlayNone(p);
    } else {
      var n := |events| - 1;
      var front, e := events[..n], events[n];
      assert events == front + [e];
      PrefixFine(p, front, e);
      PlayIs(p, front);
      FailsWhen(p, Play(p, front), front, e);
      if Play(p, events).Going? {
        CallbackWatches(p, Play(p, front), front, e);
        CallbackSamples(p, Play(p, front), front, e);
      }
    }
  }

  lemma PlayNone(p: Probe)
    ensures Watches(p, [], Start(p).vals) && SampledAt(p, [], ListOf([], p.clk)) == []
  {
    assert forall h: nat :: h > 0 ==> ListOf([], h) == [];
  }

  lemma FailsWhen(p: Probe, s: State, front: seq<Event>, e: Event)
    requires (s.Going? ==> |s.vals| == |p.watched|) && (s.Failed? <==> !Parses(front))
    ensures Callback(p, s, e).Failed? <==> !Parses(front + [e])
  {
    assert forall d :: d in front + [e] <==> d in front || d == e;
  }

  lemma CallbackSamples(p: Probe, s: State, front: seq<Event>, e: Event)
    requires Distinct(p) && s.Going? && Watches(p, front, s.vals) && Callback(p, s, e).Going?
    requires InTimeOrder(front + [e]) && Settled(p, front + [e])
    requires s.samples == SampledAt(p, front, ListOf(front, p.clk))
    ensures Callback(p, s, e).samples == SampledAt(p, front + [e], ListOf(front + [e], p.clk))
  {
    hide Settled, InTimeOrder, Watches, ListOf, Parse, SampleOf;
    ListSnoc(front, e, p.clk);
    var edges := ListOf(front, p.clk);
    forall d | d in edges ensures d.time <= e.time {
      ListMembers(front, p.clk, d);
      EarlierThanLast(front, e, d);
    }
    SampledLater(p, front, e, edges);
    if e.handle == p.clk {
      NotWatched(p);
      SampledSnoc(p, front + [e], edges, e);
      if IsEdge(e) {
        EdgeSample(p, front, e, s.vals);
        SampleLater(p, front, e, e.time);
      }
    } else {
      assert edges + [] == edges;
    }
  }

  lemma NotWatched(p: Probe)
    requires Distinct(p)
    ensures Place(p.watched, p.clk) == |p.watched|
  {
  }

  lemma SampledSnoc(p: Probe, events: seq<Event>, edges: seq<Event>, e: Event)
    ensures SampledAt(p, events, edges + [e]) == SampledAt(p, events, edges) + if IsEdge(e) then [SampleOf(p, events, e.time)] else []
  {
    assert (edges + [e])[..|edges|] == edges;
  }

  // ----- reordering -----

  /** Every signal has the same changes in the same order, however those of
      different signals are interleaved. */
  ghost predicate SameLists(a: seq<Event>, b: seq<Event>) {
    && (forall e :: e in a || e in b ==> e.handle > 0)
    && forall handle: nat :: handle > 0 ==> ListOf(a, handle) == ListOf(b, handle)
  }

  lemma SameMembers(a: seq<Event>, b: seq<Event>)
    requires SameLists(a, b)
    ensures forall e :: e in a <==> e in b
  {
    hide ListOf;
    forall e ensures e in a <==> e in b {
      if e in a || e in b {
        ListMembers(a, e.handle, e);
        ListMembers(b, e.handle, e);
      }
    }
  }

  lemma {:induction false} SampledSame(p: Probe, a: seq<Event>, b: seq<Event>, edges: seq<Event>)
    requires Distinct(p) && SameLists(a, b)
    ensures SampledAt(p, a, edges) == SampledAt(p, b, edges)
    decreases |edges|
  {
    hide ListOf, NumberBefore, IsEdge;
    if edges != [] {
      var n := |edges| - 1;
      SampledSame(p, a, b, edges[..n]);
      assert SampleOf(p, a, edges[n].time) == SampleOf(p, b, edges[n].time);
    }
  }

  /** The samples do not depend on how callbacks of the same time are ordered. */
  lemma OrderIndependent(p: Probe, a: seq<Event>, b: seq<Event>)
    requires Distinct(p) && InTimeOrder(a) && InTimeOrder(b) && Settled(p, a) && SameLists(a, b)
    ensures Play(p, a).Failed? <==> Play(p, b).Failed?
    ensures Play(p, a).Going? ==> Play(p, a).samples == Play(p, b).samples
  {
    hide Play, SampledAt, ListOf, InTimeOrder, Parse;
    SameMembers(a, b);
    PlayIs(p, a);
    PlayIs(p, b);
    SampledSame(p, a, b, ListOf(a, p.clk));
  }

  /** Samples come in time order. */
  lemma {:induction false} SamplesInOrder(p: Probe, events: seq<Event>)
    requires InTimeOrder(events) && Play(p, events).Going?
    ensures var ss := Play(p, events).samples;
      && (forall j, k :: 0 <= j < k < |ss| ==> ss[j].time <= ss[k].time)
      && (forall j :: 0 <= j < |ss| ==> |ss[j].vals| == |p.watched|)
      && (events != [] ==> forall j :: 0 <= j < |ss| ==> ss[j].time <= events[|events| - 1].time)
    decreases |events|
  {
    hide Parse, Place;
    if events != [] { SamplesInOrder(p, events[..|events| - 1]); }
  }
}
