/** The parse that both levels of src/fst/fastlz.c make of their input, without
    buffers: which tokens it becomes, given which slot every position hashes to. */
module FastLzParse {
  import opened Bytes
  import opened Lz
  import opened FastLzFormat

  /** The first position in [from, upTo) whose byte differs from the one
      `distance` before it, or `upTo`. */
  function FirstOdd(input: seq<byte>, distance: nat, from: nat, upTo: nat): (r: nat)
    requires 1 <= distance <= from <= upTo <= |input|
    ensures from <= r <= upTo && Periodic(input, distance, from, r)
    ensures r < upTo ==> input[r] != input[r - distance]
    decreases upTo - from
  {
    if from < upTo && input[from] == input[from - distance] then FirstOdd(input, distance, from + 1, upTo) else from
  }

  lemma {:induction false} FirstOddIs(input: seq<byte>, distance: nat, from: nat, upTo: nat, r: nat)
    requires 1 <= distance <= from <= r <= upTo <= |input|
    requires Periodic(input, distance, from, r) && (r < upTo ==> input[r] != input[r - distance])
    ensures FirstOdd(input, distance, from, upTo) == r
    decreases upTo - from
  {
    if from < r { FirstOddIs(input, distance, from + 1, upTo, r); }
  }

  /** The furthest a match of `n` bytes of input may end when its first bytes, up
      to `start`, were compared: three bytes before the end, but eight
      comparisons are always made where it is not a run. */
  function Furthest(n: nat, distance: nat, start: nat): int {
    if distance == 1 || start + 8 <= n - 2 then n - 3 else start + 7
  }

  /** The table, the position, how many literals are pending, and the tokens. */
  datatype Parse = Parse(htab: seq<nat>, ip: nat, copy: nat, ts: seq<Token>)

  ghost predicate Earlier(htab: seq<nat>, ip: nat) {
    |htab| == HASH_SIZE && forall h :: 0 <= h < HASH_SIZE ==> htab[h] < ip
  }

  ghost predicate Good(input: seq<byte>, p: Parse) {
    2 <= p.ip <= |input| && p.copy < MAX_COPY && p.copy <= p.ip && Earlier(p.htab, p.ip)
  }

  /** A match of `len` bytes compared, or none if the distance is 0. */
  datatype Found = Found(htab: seq<nat>, distance: nat, len: nat)

  ghost function Find(level: Level, input: seq<byte>, hash: nat -> Slot, htab: seq<nat>, anchor: nat): (f: Found)
    requires 2 <= anchor && anchor + 12 < |input| && Earlier(htab, anchor)
    ensures Earlier(f.htab, anchor + 1)
    ensures f.distance > 0 ==> 3 <= f.len <= 5 && Periodic(input, f.distance, anchor, anchor + f.len)
    ensures f.distance > 0 && level == One ==> f.distance < 8192
    ensures f.distance > 0 && level == Two ==> f.distance < MAX_FARDISTANCE && (IsFar(level, f.distance) ==> f.len == 5)
  {
    if level == Two && input[anchor] == input[anchor - 1] == input[anchor + 1] && input[anchor] == input[anchor + 2]
    then Found(htab, 1, 3)
    else
      var ref := htab[hash(anchor)];
      var distance, after := anchor - ref, htab[hash(anchor) := anchor];
      if distance >= (if level == One then 8192 else MAX_FARDISTANCE) || !SameThree(input, ref, anchor) then Found(after, 0, 0)
      else if level == Two && distance >= MAX_DISTANCE_2 then
        if input[anchor + 3] == input[ref + 3] && input[anchor + 4] == input[ref + 4] then Found(after, distance, 5)
        else Found(after, 0, 0)
      else Found(after, distance, 3)
  }

  predicate SameThree(input: seq<byte>, ref: nat, anchor: nat)
    requires ref <= anchor && anchor + 3 <= |input|
  {
    input[ref] == input[anchor] && input[ref + 1] == input[anchor + 1] && input[ref + 2] == input[anchor + 2]
  }

  /** One more literal; 32 of them make a token. */
  function Literal(input: seq<byte>, p: Parse): Parse
    requires p.ip < |input| && p.copy < MAX_COPY && p.copy <= p.ip
  {
    if p.copy + 1 == MAX_COPY then Parse(p.htab, p.ip + 1, 0, Ended(input, p.ip + 1, MAX_COPY, p.ts))
    else Parse(p.htab, p.ip + 1, p.copy + 1, p.ts)
  }

  /** The pending literals as a token. */
  function Ended(input: seq<byte>, ip: nat, copy: nat, ts: seq<Token>): seq<Token>
    requires copy <= ip <= |input|
  {
    if copy == 0 then ts else ts + [Run(input[ip - copy..ip])]
  }

  /** The tokens of one match: level 1 cuts it into pieces of 262 bytes. */
  function Pieces(level: Level, dist: nat, len: nat): seq<Token> {
    if level == One && len > MAX_LEN then [Match(dist, MAX_LEN - 2)] + Pieces(level, dist, len - (MAX_LEN - 2))
    else [Match(dist, len)]
  }

  /** One turn of the main loop. */
  ghost function Turn(level: Level, input: seq<byte>, hash: nat -> Slot, p: Parse): (r: Parse)
    requires Good(input, p) && p.ip + 12 < |input|
    ensures Good(input, r) && p.ip < r.ip
  {
    var f := Find(level, input, hash, p.htab, p.ip);
    if f.distance == 0 then Literal(input, p.(htab := f.htab))
    else
      var start := p.ip + f.len;
      var end := FirstOdd(input, f.distance, start, Furthest(|input|, f.distance, start));
      Parse(f.htab[hash(end - 2) := end - 2][hash(end - 1) := end - 1], end, 0,
            Ended(input, p.ip, p.copy, p.ts) + Pieces(level, f.distance, end - p.ip))
  }

  /** The tokens in the end. */
  ghost function Rest(level: Level, input: seq<byte>, hash: nat -> Slot, p: Parse): seq<Token>
    requires Good(input, p)
    decreases |input| - p.ip
  {
    if p.ip + 12 < |input| then Rest(level, input, hash, Turn(level, input, hash, p))
    else if p.ip < |input| then Rest(level, input, hash, Literal(input, p))
    else Ended(input, p.ip, p.copy, p.ts)
  }

  ghost function Begin(input: seq<byte>): Parse {
    Parse(seq(HASH_SIZE, _ => 0), 2, 2, [])
  }

  ghost function Tokens(level: Level, input: seq<byte>, hash: nat -> Slot): seq<Token> {
    if |input| < 4 then [Run(input)] else Rest(level, input, hash, Begin(input))
  }

  /** The stream of these tokens, the level marked in its first byte. */
  ghost function Stream(level: Level, ts: seq<Token>): seq<byte> {
    if !AllValid(level, ts) then []
    else
      var w := WireAll(level, ts);
      if level == Two && w != [] && w[0] < 32 then [w[0] + 32] + w[1..] else w
  }

  /** What `input` is compressed to. */
  ghost function Compressed(level: Level, input: seq<byte>, hash: nat -> Slot): seq<byte> {
    Stream(if |input| < 4 then One else level, Tokens(level, input, hash))
  }

  // ----- in plain numbers -----

  /** Which match is taken: at level 2 that of a byte repeated four times; else the
      position in the table, if it is up to 8191 back, or 73724 at level 2, and three
      bytes are the same, or five from 8191 back on. */
  lemma FindMeans(level: Level, input: seq<byte>, hash: nat -> Slot, htab: seq<nat>, anchor: nat)
    requires 2 <= anchor && anchor + 12 < |input| && Earlier(htab, anchor)
    ensures var f, ref := Find(level, input, hash, htab, anchor), htab[hash(anchor)];
      var alike := i => 0 <= i < 5 && ref + i < |input| && input[ref + i] == input[anchor + i];
      if level == Two && input[anchor - 1] == input[anchor] == input[anchor + 1] == input[anchor + 2]
      then f.distance == 1 && f.len == 3
      else if anchor - ref <= 8190 && alike(0) && alike(1) && alike(2) then f.distance == anchor - ref && f.len == 3
      else if level == One && anchor - ref == 8191 && alike(0) && alike(1) && alike(2) then f.distance == 8191 && f.len == 3
      else if level == Two && 8191 <= anchor - ref <= 73724 && alike(0) && alike(1) && alike(2) && alike(3) && alike(4)
      then f.distance == anchor - ref && f.len == 5
      else f.distance == 0
  {
  }

  /** At level 1 a match of 264 bytes is one token, a longer one begins with one of 262. */
  lemma PiecesAre(dist: nat, len: nat)
    ensures len <= 264 ==> Pieces(One, dist, len) == [Match(dist, len)]
    ensures len > 264 ==> Pieces(One, dist, len) == [Match(dist, 262)] + Pieces(One, dist, len - 262)
    ensures Pieces(Two, dist, len) == [Match(dist, len)]
  {
  }
}
