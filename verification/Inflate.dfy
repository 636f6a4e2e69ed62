/** What a zlib stream means (RFC 1950 and RFC 1951): functions from the bytes and a bit
    position, with the buffer rules of the decoder, to the decoded bytes. */
module Inflate {
  import opened Bits
  import opened Huffman

  // ---- the input as an endless bit stream: zeros follow the last byte ----

  function ByteAt(input: seq<byte>, q: nat): byte {
    if q < |input| then input[q] else 0
  }

  function Bit(input: seq<byte>, i: nat): bit {
    Lsb(ByteAt(input, i / 8), 8)[i % 8]
  }

  /** The n bits of the stream from position p on. */
  function StreamBits(input: seq<byte>, p: nat, n: nat): (s: seq<bit>)
    ensures |s| == n
  {
    seq<bit>(n, j requires 0 <= j < n => Bit(input, p + j))
  }

  /** The number those bits spell, least significant first (section 3.1.1 of RFC 1951). */
  function ReadBits(input: seq<byte>, p: nat, n: nat): nat {
    LsbVal(StreamBits(input, p, n))
  }

  lemma StreamSplit(input: seq<byte>, p: nat, m: nat, n: nat)
    ensures StreamBits(input, p, m + n) == StreamBits(input, p, m) + StreamBits(input, p + m, n)
    ensures StreamBits(input, p, m + n)[..m] == StreamBits(input, p, m)
    ensures StreamBits(input, p, m + n)[m..] == StreamBits(input, p + m, n)
  {
  }

  lemma StreamByte(input: seq<byte>, q: nat)
    ensures StreamBits(input, 8 * q, 8) == Lsb(ByteAt(input, q), 8)
  {
    hide Lsb, ByteAt, Bit;
    forall j | 0 <= j < 8
      ensures Bit(input, 8 * q + j) == Lsb(ByteAt(input, q), 8)[j]
    {
      BitOfByte(input, q, j);
    }
  }

  lemma BitOfByte(input: seq<byte>, q: nat, j: nat)
    requires j < 8
    ensures Bit(input, 8 * q + j) == Lsb(ByteAt(input, q), 8)[j]
  {
    hide Lsb, ByteAt;
    assert (8 * q + j) / 8 == q && (8 * q + j) % 8 == j;
  }

  lemma {:induction false} ZeroBits(n: nat)
    ensures forall j :: 0 <= j < n ==> Lsb(0, n)[j] == 0
  {
    if n > 0 { ZeroBits(n - 1); }
  }

  lemma {:induction false} ZeroVal(s: seq<bit>)
    requires forall j :: 0 <= j < |s| ==> s[j] == 0
    ensures LsbVal(s) == 0
  {
    if |s| > 0 { ZeroVal(s[1..]); }
  }

  /** Past the end every field reads as zero. */
  lemma ReadPastEnd(input: seq<byte>, p: nat, n: nat)
    requires p >= 8 * |input|
    ensures ReadBits(input, p, n) == 0
  {
    ZeroBits(8);
    var s := StreamBits(input, p, n);
    forall j | 0 <= j < n
      ensures s[j] == 0
    {
      var i := p + j;
      assert i / 8 >= |input| && s[j] == Bit(input, i) == Lsb(0, 8)[i % 8];
    }
    ZeroVal(s);
  }

  // ---- the output buffer ----

  /** The size of the caller's buffer, whether it may be reallocated, and the largest
      block the allocator grants. */
  datatype Room = Room(initial: nat, expandable: bool, maxAlloc: nat)
  {
    function Max(): nat { if initial > maxAlloc then initial else maxAlloc }

    /** n bytes of output are possible, growing the buffer by doubling where allowed. */
    predicate Fits(n: nat) {
      n <= initial || (expandable && initial > 0 && Doubled(initial, n) <= maxAlloc)
    }
  }

  /** The first size of at least n reached from c by doubling. */
  function Doubled(c: nat, n: nat): (r: nat)
    requires c > 0
    ensures r >= n && r >= c
    decreases n - c
  {
    if c >= n then c else Doubled(2 * c, n)
  }

  // ---- tokens ----

  /** Appending len bytes, each the one dist back: the copy may run over its own output. */
  function CopyBack(out: seq<byte>, dist: nat, len: nat): (r: seq<byte>)
    requires 1 <= dist <= |out|
    ensures |r| == |out| + len && out <= r
    decreases len
  {
    if len == 0 then out else CopyBack(out + [out[|out| - dist]], dist, len - 1)
  }

  /** The four tables of section 3.2.5 of RFC 1951, without their reserved entries. */
  function LengthBase(z: nat): (r: nat)
    requires z < 29
    ensures 3 <= r <= 258 && (z == 0 ==> r == 3)
  {
    [3, 4, 5, 6, 7, 8, 9, 10, 11, 13, 15, 17, 19, 23, 27, 31, 35, 43, 51, 59,
     67, 83, 99, 115, 131, 163, 195, 227, 258][z]
  }

  function LengthExtra(z: nat): (r: nat)
    requires z < 29
    ensures r <= 5
  {
    [0, 0, 0, 0, 0, 0, 0, 0, 1, 1, 1, 1, 2, 2, 2, 2, 3, 3, 3, 3, 4, 4, 4, 4, 5, 5, 5, 5, 0][z]
  }

  function DistBase(z: nat): (r: nat)
    requires z < 30
    ensures 1 <= r <= 24577 && (z == 0 ==> r == 1)
  {
    [1, 2, 3, 4, 5, 7, 9, 13, 17, 25, 33, 49, 65, 97, 129, 193, 257, 385, 513, 769,
     1025, 1537, 2049, 3073, 4097, 6145, 8193, 12289, 16385, 24577][z]
  }

  function DistExtra(z: nat): (r: nat)
    requires z < 30
    ensures r <= 13
  {
    [0, 0, 0, 0, 1, 1, 2, 2, 3, 3, 4, 4, 5, 5, 6, 6, 7, 7, 8, 8, 9, 9, 10, 10, 11, 11, 12, 12, 13, 13][z]
  }

  /** The symbol whose code the stream shows at p, or -1 when no code matches. */
  ghost function Decode(sizes: seq<nat>, input: seq<byte>, p: nat): (z: int)
    ensures z >= 0 ==> Matches(sizes, StreamBits(input, p, MAX_SIZE), z)
    ensures z < 0 ==> forall i: nat :: !Matches(sizes, StreamBits(input, p, MAX_SIZE), i)
  {
    if exists i: nat :: Matches(sizes, StreamBits(input, p, MAX_SIZE), i) then
      var i: nat :| Matches(sizes, StreamBits(input, p, MAX_SIZE), i);
      i
    else -1
  }

  // ---- blocks ----

  /** Reserved: the stream used a length symbol 286 or 287 or a distance symbol 30 or 31. */
  datatype Outcome = Done(pos: nat, out: seq<byte>) | Corrupt | Reserved

  datatype Match = Match(len: nat, dist: nat, pos: nat) | BadMatch | ReservedMatch

  /** The length and distance after length symbol z (section 3.2.5 of RFC 1951). */
  ghost function ReadMatch(distances: seq<nat>, input: seq<byte>, p: nat, z: nat): (m: Match)
    requires 257 <= z
    ensures m.Match? ==> m.len > 0 && m.dist > 0 && m.pos >= p
  {
    if z >= 286 then ReservedMatch
    else
      var len := LengthBase(z - 257) + ReadBits(input, p, LengthExtra(z - 257));
      var p1 := p + LengthExtra(z - 257);
      var d := Decode(distances, input, p1);
      if d < 0 then BadMatch
      else if d >= 30 then ReservedMatch
      else
        var p2 := p1 + distances[d];
        Match(len, DistBase(d) + ReadBits(input, p2, DistExtra(d)), p2 + DistExtra(d))
  }

  ghost function HuffmanBlock(lengths: seq<nat>, distances: seq<nat>, input: seq<byte>, p: nat,
                              out: seq<byte>, room: Room): (r: Outcome)
    ensures r.Done? ==> r.pos > p
    decreases if |out| <= room.Max() then room.Max() - |out| else 0
  {
    var z := Decode(lengths, input, p);
    if z < 0 then Corrupt
    else
      var p1 := p + lengths[z];
      if z < 256 then
        if room.Fits(|out| + 1) then HuffmanBlock(lengths, distances, input, p1, out + [z], room)
        else Corrupt
      else if z == 256 then Done(p1, out)
      else
        match ReadMatch(distances, input, p1, z)
        case ReservedMatch => Reserved
        case BadMatch => Corrupt
        case Match(len, dist, p2) =>
          if |out| < dist || !room.Fits(|out| + len) then Corrupt
          else HuffmanBlock(lengths, distances, input, p2, CopyBack(out, dist, len), room)
  }

  /** A stored block: byte aligned, its length followed by the complement (section 3.2.4). */
  ghost function StoredBlock(input: seq<byte>, p: nat, out: seq<byte>, room: Room): (r: Outcome)
    ensures r.Done? ==> r.pos > p && p < 8 * |input|
  {
    var q := (p + 7) / 8;
    var len := ByteAt(input, q) + 256 * ByteAt(input, q + 1);
    var nlen := ByteAt(input, q + 2) + 256 * ByteAt(input, q + 3);
    if nlen != 0xffff - len || q + 4 + len > |input| || !room.Fits(|out| + len) then Corrupt
    else Done(8 * (q + 4 + len), out + input[q + 4..q + 4 + len])
  }

  // ---- code tables ----

  /** The lengths of the fixed literal/length code (section 3.2.6). */
  function FixedLengths(): (s: seq<nat>)
    ensures |s| == 288
    ensures forall i :: 0 <= i < 288 ==>
      s[i] == if i <= 143 then 8 else if i <= 255 then 9 else if i <= 279 then 7 else 8
  {
    Fill(8, 144) + Fill(9, 112) + Fill(7, 24) + Fill(8, 8)
  }

  function FixedDistances(): (s: seq<nat>)
    ensures |s| == 32
  {
    Fill(5, 32)
  }

  function Dezigzag(i: nat): (r: nat)
    requires i < 19
    ensures r < 19
  {
    [16, 17, 18, 0, 8, 7, 9, 6, 10, 5, 11, 4, 12, 3, 13, 2, 14, 1, 15][i]
  }

  /** The code length code after its first n lengths, which come in zigzag order. */
  ghost function CodeLengthSizes(input: seq<byte>, p: nat, n: nat): (s: seq<nat>)
    requires n <= 19
    ensures |s| == 19 && ValidSizes(s)
  {
    if n == 0 then Fill(0, 19)
    else
      LsbValBound(StreamBits(input, p + 3 * (n - 1), 3));
      assert Pow2(3) == 8;
      CodeLengthSizes(input, p, n - 1)[Dezigzag(n - 1) := ReadBits(input, p + 3 * (n - 1), 3)]
  }

  function Fill(v: nat, n: nat): (s: seq<nat>)
    ensures |s| == n && forall i :: 0 <= i < n ==> s[i] == v
  {
    seq(n, i => v)
  }

  datatype Lengths = Lengths(sizes: seq<nat>, pos: nat) | BadLengths

  /** How often symbol c repeats a length and where the repeat count ends. */
  ghost function Repeat(input: seq<byte>, p: nat, c: nat): (r: (nat, nat))
    ensures r.0 >= 1 && r.1 >= p
  {
    if c == 16 then (3 + ReadBits(input, p, 2), p + 2)
    else if c == 17 then (3 + ReadBits(input, p, 3), p + 3)
    else (11 + ReadBits(input, p, 7), p + 7)
  }

  /** The run-length coded list of all code lengths (section 3.2.7). */
  ghost function CodeLengths(code: seq<nat>, input: seq<byte>, p: nat, total: nat, acc: seq<nat>): (r: Lengths)
    requires |code| == 19 && |acc| <= total && ValidSizes(acc)
    ensures r.Lengths? ==> |r.sizes| == total && ValidSizes(r.sizes) && r.pos >= p
    decreases total - |acc|
  {
    if |acc| == total then Lengths(acc, p)
    else
      var c := Decode(code, input, p);
      if c < 0 then BadLengths
      else
        var p1 := p + code[c];
        if c < 16 then CodeLengths(code, input, p1, total, acc + [c])
        else if c == 16 && |acc| == 0 then BadLengths
        else
          var fill := if c == 16 then acc[|acc| - 1] else 0;
          var (n, p2) := Repeat(input, p1, c);
          if total - |acc| < n then BadLengths
          else CodeLengths(code, input, p2, total, acc + Fill(fill, n))
  }

  /** The list is complete, or no code shows. */
  lemma CodeLengthsEnd(code: seq<nat>, input: seq<byte>, p: nat, total: nat, acc: seq<nat>)
    requires |code| == 19 && |acc| <= total && ValidSizes(acc)
    ensures |acc| == total ==> CodeLengths(code, input, p, total, acc) == Lengths(acc, p)
    ensures |acc| < total && Decode(code, input, p) < 0 ==> CodeLengths(code, input, p, total, acc) == BadLengths
    ensures Decode(code, input, p) < 19
  {
  }

  /** A code length below 16 is taken as it is. */
  lemma CodeLengthsOne(code: seq<nat>, input: seq<byte>, p: nat, total: nat, acc: seq<nat>, c: nat)
    requires |code| == 19 && |acc| < total && ValidSizes(acc) && c < 16 && Decode(code, input, p) == c
    ensures CodeLengths(code, input, p, total, acc) == CodeLengths(code, input, p + code[c], total, acc + [c])
  {
    hide Decode;
  }

  /** A repeat code stands for several code lengths, unless there is nothing to repeat or they are too many. */
  lemma CodeLengthsRun(code: seq<nat>, input: seq<byte>, p: nat, total: nat, acc: seq<nat>, c: nat, n: nat, end: nat)
    requires |code| == 19 && |acc| < total && ValidSizes(acc) && 16 <= c < 19 && Decode(code, input, p) == c
    requires Repeat(input, p + code[c], c) == (n, end)
    ensures c == 16 && acc == [] ==> CodeLengths(code, input, p, total, acc) == BadLengths
    ensures c != 16 || acc != [] ==>
      CodeLengths(code, input, p, total, acc) ==
        if total - |acc| < n then BadLengths
        else
          var fill := if c == 16 then acc[|acc| - 1] else 0;
          CodeLengths(code, input, end, total, acc + Fill(fill, n))
  {
    hide Decode, Repeat;
  }

  datatype Tables = Tables(lengths: seq<nat>, distances: seq<nat>, pos: nat) | BadTables

  /** The two lists of code lengths of a dynamic block. */
  ghost function DynamicLengths(input: seq<byte>, p: nat): (r: Tables)
    ensures r.Tables? ==> r.pos > p && |r.lengths| <= 288 && |r.distances| <= 32
    ensures r.Tables? ==> ValidSizes(r.lengths) && ValidSizes(r.distances)
  {
    FieldBound(input, p, 5);
    FieldBound(input, p + 5, 5);
    FieldBound(input, p + 10, 4);
    var hlit := ReadBits(input, p, 5) + 257;
    var hdist := ReadBits(input, p + 5, 5) + 1;
    var hclen := ReadBits(input, p + 10, 4) + 4;
    var code := CodeLengthSizes(input, p + 14, hclen);
    if !Kraft(code) then BadTables
    else
      match CodeLengths(code, input, p + 14 + 3 * hclen, hlit + hdist, [])
      case BadLengths => BadTables
      case Lengths(sizes, p1) => Tables(sizes[..hlit], sizes[hlit..], p1)
  }

  /** The lists, if both satisfy Kraft's inequality. */
  ghost function DynamicTables(input: seq<byte>, p: nat): (r: Tables)
    ensures r.Tables? ==> r.pos > p
    ensures r.Tables? ==> |r.lengths| <= 288 && |r.distances| <= 32
    ensures r.Tables? ==> ValidSizes(r.lengths) && Kraft(r.lengths) && ValidSizes(r.distances) && Kraft(r.distances)
  {
    match DynamicLengths(input, p)
    case BadTables => BadTables
    case Tables(lengths, distances, p1) =>
      if Kraft(lengths) && Kraft(distances) then Tables(lengths, distances, p1) else BadTables
  }

  lemma FieldBound(input: seq<byte>, p: nat, n: nat)
    ensures ReadBits(input, p, n) < Pow2(n)
    ensures Pow2(1) == 2 && Pow2(2) == 4 && Pow2(3) == 8 && Pow2(4) == 16 && Pow2(5) == 32
  {
    LsbValBound(StreamBits(input, p, n));
    Pow2Values();
  }

  // ---- the whole stream ----

  /** One block after its header. */
  ghost function Block(kind: nat, input: seq<byte>, p: nat, out: seq<byte>, room: Room): (r: Outcome)
    ensures r.Done? ==> r.pos > p
  {
    if kind == 0 then StoredBlock(input, p, out, room)
    else if kind == 1 then HuffmanBlock(FixedLengths(), FixedDistances(), input, p, out, room)
    else if kind == 2 then
      match DynamicTables(input, p)
      case BadTables => Corrupt
      case Tables(lengths, distances, p1) => HuffmanBlock(lengths, distances, input, p1, out, room)
    else Corrupt
  }

  /** Past the end of the input no block is complete: the header reads as an empty stored
      block, whose length check fails. */
  lemma NoBlockPastEnd(input: seq<byte>, p: nat, out: seq<byte>, room: Room)
    requires p >= 8 * |input|
    ensures Block(ReadBits(input, p + 1, 2), input, p + 3, out, room) == Corrupt
  {
    ReadPastEnd(input, p + 1, 2);
  }

  ghost function Blocks(input: seq<byte>, p: nat, out: seq<byte>, room: Room): (r: Outcome)
    decreases 8 * |input| - p
  {
    if p >= 8 * |input| then Corrupt
    else
      match Block(ReadBits(input, p + 1, 2), input, p + 3, out, room)
      case Done(p1, out1) =>
        if ReadBits(input, p, 1) == 1 then Done(p1, out1) else Blocks(input, p1, out1, room)
      case other => other
  }

  /** One turn of the loop over blocks; turns that continue start before the end of the input. */
  lemma BlocksStep(input: seq<byte>, p: nat, out: seq<byte>, room: Room)
    ensures ReadBits(input, p, 1) <= 1
    ensures match Block(ReadBits(input, p + 1, 2), input, p + 3, out, room)
      case Done(p1, out1) =>
        && p < 8 * |input| && p < p1
        && Blocks(input, p, out, room) ==
             (if ReadBits(input, p, 1) == 1 then Done(p1, out1) else Blocks(input, p1, out1, room))
      case other => Blocks(input, p, out, room) == other
  {
    FieldBound(input, p, 1);
    if p >= 8 * |input| {
      NoBlockPastEnd(input, p, out, room);
    }
  }

  /** The two header bytes are acceptable (section 2.2 of RFC 1950). */
  predicate HeaderOk(input: seq<byte>) {
    var cmf, flg := ByteAt(input, 0), ByteAt(input, 1);
    (cmf * 256 + flg) % 31 == 0 && BitAnd(flg, 32) == 0 && BitAnd(cmf, 15) == 8
  }

  /** That is: method 8 in the low half of the first byte, no preset dictionary, and a multiple of 31. */
  lemma HeaderOkIs(input: seq<byte>)
    ensures var cmf, flg := ByteAt(input, 0) as int, ByteAt(input, 1) as int;
      HeaderOk(input) <==> cmf % 16 == 8 && flg / 32 % 2 == 0 && (256 * cmf + flg) % 31 == 0
  {
    LowFour(ByteAt(input, 0));
    BitFive(ByteAt(input, 1));
  }

  lemma LowFour(v: nat)
    ensures BitAnd(v, 15) == v % 16
  {
    hide Low, Shl, Shr, BitAnd, Pow2;
    Pow2Values();
    AndMask(v, 4);
    LowAndRest(v, 4);
    LowBound(v, 4);
    ShlValues(Shr(v, 4));
  }

  lemma BitFive(v: nat)
    ensures BitAnd(v, 32) == 0 <==> v / 32 % 2 == 0
  {
    var e := v / 32;
    AndHalves(v, 32);
    AndHalves(v / 2, 16);
    AndHalves(v / 4, 8);
    AndHalves(v / 8, 4);
    AndHalves(v / 16, 2);
    AndOne(e);
    assert v / 2 / 2 == v / 4 && v / 4 / 2 == v / 8 && v / 8 / 2 == v / 16 && v / 16 / 2 == e;
  }

  lemma AndHalves(a: nat, b: nat)
    requires b % 2 == 0
    ensures BitAnd(a, b) == 2 * BitAnd(a / 2, b / 2)
  {
  }

  lemma AndOne(a: nat)
    ensures BitAnd(a, 1) == a % 2
  {
    if a > 0 { assert BitAnd(a / 2, 0) == 0; }
  }

  /** The meaning of a whole stream: what decoding it into an empty buffer yields. */
  ghost function Zlib(input: seq<byte>, parseHeader: bool, room: Room): Outcome {
    if !parseHeader then Blocks(input, 0, [], room)
    else if HeaderOk(input) then Blocks(input, 16, [], room)
    else Corrupt
  }

  // ---- facts the decoder needs ----

  /** Reading splits a field. */
  lemma ReadSplit(input: seq<byte>, p: nat, m: nat, n: nat)
    ensures Low(ReadBits(input, p, m + n), m) == ReadBits(input, p, m)
    ensures Shr(ReadBits(input, p, m + n), m) == ReadBits(input, p + m, n)
    ensures ReadBits(input, p, m + n) == ReadBits(input, p, m) + Shl(ReadBits(input, p + m, n), m)
  {
    StreamSplit(input, p, m, n);
    LsbValSplit(StreamBits(input, p, m + n), m);
    LsbValConcat(StreamBits(input, p, m), StreamBits(input, p + m, n));
  }

  lemma ReadNothing(input: seq<byte>, p: nat)
    ensures ReadBits(input, p, 0) == 0
  {
  }

  lemma ReadByte(input: seq<byte>, q: nat)
    ensures ReadBits(input, 8 * q, 8) == ByteAt(input, q)
  {
    StreamByte(input, q);
    LsbValOfLsb(ByteAt(input, q), 8);
    Pow2Values();
    LowBound(ByteAt(input, q), 8);
  }

  /** A byte put above n buffered bits extends the field by eight bits. */
  lemma FetchAdds(input: seq<byte>, p: nat, q: nat, n: nat, buffer: nat)
    requires n <= 24 && p + n == 8 * q && buffer == ReadBits(input, p, n)
    ensures BitOr(buffer, Shl32(ByteAt(input, q), n)) == ReadBits(input, p, n + 8)
  {
    var c := ByteAt(input, q);
    ReadByte(input, q);
    ReadSplit(input, p, n, 8);
    FieldBound(input, p, n);
    OrShifted(buffer, c, n);
    Shl32Exact(c, 8, n);
  }

  /** A capacity reached from c by doubling. */
  ghost predicate Reached(room: Room, c: nat) {
    c == room.initial || (room.expandable && room.initial > 0 && Doubled(room.initial, c) == c <= room.maxAlloc)
  }

  lemma {:induction false} DoubledOnChain(c: nat, m: nat, n: nat)
    requires c > 0 && Doubled(c, m) == m
    ensures n <= m ==> Doubled(c, n) <= m
    ensures n > m ==> Doubled(m, n) == Doubled(c, n)
    decreases m - c
  {
    if c < m {
      DoubledOnChain(2 * c, m, n);
    }
  }

  lemma {:induction false} DoubledIdempotent(c: nat, n: nat)
    requires c > 0
    ensures Doubled(c, Doubled(c, n)) == Doubled(c, n)
    decreases n - c
  {
    if c < n {
      DoubledIdempotent(2 * c, n);
    }
  }

  /** Whether n bytes fit depends only on n, not on the expansions made so far. */
  lemma FitsWhenReached(room: Room, c: nat, n: nat)
    requires Reached(room, c)
    ensures n <= c ==> room.Fits(n)
    ensures n > c && !room.expandable ==> !room.Fits(n)
    ensures n > c > 0 && room.expandable ==> (room.Fits(n) <==> Doubled(c, n) <= room.maxAlloc)
    ensures n > c > 0 && room.expandable && room.Fits(n) ==> Reached(room, Doubled(c, n))
  {
    if c == room.initial {
      if c > 0 { DoubledIdempotent(c, n); }
    } else {
      DoubledOnChain(room.initial, c, n);
      DoubledIdempotent(room.initial, n);
    }
  }
}
