/** The token level between bytes and bits: literals and back references, what they expand
    to, and how the fixed codes write them. */
module Lz77 {
  import opened Bits
  import opened Huffman
  import opened Inflate
  import opened FixedCodes

  datatype Token = Literal(v: byte) | Reference(len: nat, dist: nat)

  /** The token can follow n bytes of output. */
  predicate Sound(t: Token, n: nat) {
    t.Reference? ==> 3 <= t.len <= 258 && 1 <= t.dist <= 32768 && t.dist <= n
  }

  /** Appends what one token stands for. */
  function Expand1(out: seq<byte>, t: Token): (r: seq<byte>)
    requires Sound(t, |out|)
    ensures |out| < |r| && out <= r
  {
    match t
    case Literal(v) => out + [v]
    case Reference(len, dist) => CopyBack(out, dist, len)
  }

  /** Every token is sound where it stands, starting after out. */
  ghost predicate AllSound(out: seq<byte>, tokens: seq<Token>)
    decreases |tokens|
  {
    |tokens| == 0 || (Sound(tokens[0], |out|) && AllSound(Expand1(out, tokens[0]), tokens[1..]))
  }

  /** What a token list appends to out. */
  ghost function Expand(out: seq<byte>, tokens: seq<Token>): (r: seq<byte>)
    requires AllSound(out, tokens)
    ensures out <= r
    decreases |tokens|
  {
    if |tokens| == 0 then out else Expand(Expand1(out, tokens[0]), tokens[1..])
  }

  lemma {:induction false} ExpandAppend(out: seq<byte>, tokens: seq<Token>, t: Token)
    requires AllSound(out, tokens) && Sound(t, |Expand(out, tokens)|)
    ensures AllSound(out, tokens + [t])
    ensures Expand(out, tokens + [t]) == Expand1(Expand(out, tokens), t)
    decreases |tokens|
  {
    if |tokens| == 0 {
      assert [t][1..] == [];
    } else {
      assert (tokens + [t])[1..] == tokens[1..] + [t];
      ExpandAppend(Expand1(out, tokens[0]), tokens[1..], t);
    }
  }

  /** A reference to an equal earlier stretch of the data expands to the data itself. */
  lemma {:induction false} ReferenceExpands(data: seq<byte>, i: nat, dist: nat, len: nat)
    requires 1 <= dist <= i && i + len <= |data|
    requires data[i..i + len] == data[i - dist..i - dist + len]
    ensures CopyBack(data[..i], dist, len) == data[..i + len]
    decreases len
  {
    if len > 0 {
      assert data[i] == data[i..i + len][0] == data[i - dist..i - dist + len][0];
      assert data[..i] + [data[i]] == data[..i + 1];
      assert data[i + 1..i + len] == data[i..i + len][1..];
      assert data[i + 1 - dist..i - dist + len] == data[i - dist..i - dist + len][1..];
      ReferenceExpands(data, i + 1, dist, len - 1);
    }
  }

  // ---- the fixed-code bit strings ----

  /** A fixed code, high bit first. */
  function CodeBits(n: nat): seq<bit>
    requires n < 288
  {
    Lsb(BitReverse(FixedCode(n), FixedSize(n)), FixedSize(n))
  }

  /** The symbol of a match length: the last one whose base does not exceed it. */
  function LengthSymbol(len: nat, j: nat): (r: nat)
    requires j < 29 && LengthBase(j) <= len <= 258
    ensures j <= r < 29 && LengthBase(r) <= len
    ensures r == 28 || len < LengthBase(r + 1)
    decreases 29 - j
  {
    if j < 28 && LengthBase(j + 1) <= len then LengthSymbol(len, j + 1) else j
  }

  function DistSymbol(dist: nat, j: nat): (r: nat)
    requires j < 30 && DistBase(j) <= dist <= 32768
    ensures j <= r < 30 && DistBase(r) <= dist
    ensures r == 29 || dist < DistBase(r + 1)
    decreases 30 - j
  {
    if j < 29 && DistBase(j + 1) <= dist then DistSymbol(dist, j + 1) else j
  }

  /** A length or distance fits in its symbol's extra bits. */
  lemma LengthFits(j: nat, len: nat)
    requires j < 29 && LengthBase(j) <= len <= 258 && (j == 28 || len < LengthBase(j + 1))
    ensures len - LengthBase(j) < Pow2(LengthExtra(j))
  {
    Pow2Values();
  }

  lemma DistFits(j: nat, dist: nat)
    requires j < 30 && DistBase(j) <= dist <= 32768 && (j == 29 || dist < DistBase(j + 1))
    ensures dist - DistBase(j) < Pow2(DistExtra(j))
  {
    Pow2Values();
  }

  /** A reference: length symbol, extra bits, distance symbol, extra bits. */
  function ReferenceBits(len: nat, dist: nat): seq<bit>
    requires 3 <= len <= 258 && 1 <= dist <= 32768
  {
    var j := LengthSymbol(len, 0);
    var k := DistSymbol(dist, 0);
    CodeBits(j + 257) + Lsb(len - LengthBase(j), LengthExtra(j))
      + Lsb(BitReverse(k, 5), 5) + Lsb(dist - DistBase(k), DistExtra(k))
  }

  function TokenBits(t: Token): seq<bit>
    requires t.Reference? ==> 3 <= t.len <= 258 && 1 <= t.dist <= 32768
  {
    match t
    case Literal(v) => CodeBits(v)
    case Reference(len, dist) => ReferenceBits(len, dist)
  }

  ghost function TokensBits(out: seq<byte>, tokens: seq<Token>): seq<bit>
    requires AllSound(out, tokens)
    decreases |tokens|
  {
    if |tokens| == 0 then [] else TokenBits(tokens[0]) + TokensBits(Expand1(out, tokens[0]), tokens[1..])
  }

  lemma {:induction false} TokensBitsAppend(out: seq<byte>, tokens: seq<Token>, t: Token)
    requires AllSound(out, tokens) && Sound(t, |Expand(out, tokens)|)
    ensures AllSound(out, tokens + [t])
    ensures TokensBits(out, tokens + [t]) == TokensBits(out, tokens) + TokenBits(t)
    decreases |tokens|
  {
    hide TokenBits, Expand1;
    ExpandAppend(out, tokens, t);
    if |tokens| == 0 {
      assert [t][1..] == [] && tokens + [t] == [t];
      assert TokensBits(out, [t]) == TokenBits(t) + [];
    } else {
      var next, rest := Expand1(out, tokens[0]), tokens[1..];
      assert (tokens + [t])[1..] == rest + [t];
      TokensBitsAppend(next, rest, t);
      var a, b := TokenBits(tokens[0]), TokensBits(next, rest);
      assert a + (b + TokenBits(t)) == a + b + TokenBits(t);
    }
  }

  // ---- reading what was written ----

  /** The stream shows the string w at p. */
  ghost predicate Shows(input: seq<byte>, p: nat, w: seq<bit>) {
    StreamBits(input, p, |w|) == w
  }

  lemma ShowsSplit(input: seq<byte>, p: nat, a: seq<bit>, b: seq<bit>)
    ensures Shows(input, p, a + b) <==> Shows(input, p, a) && Shows(input, p + |a|, b)
  {
    StreamSplit(input, p, |a|, |b|);
    var s := StreamBits(input, p, |a| + |b|);
    assert s == s[..|a|] + s[|a|..];
    assert (a + b)[..|a|] == a && (a + b)[|a|..] == b;
  }

  /** A field written with enough bits reads back. */
  lemma FieldReads(input: seq<byte>, p: nat, v: nat, n: nat)
    requires v < Pow2(n) && Shows(input, p, Lsb(v, n))
    ensures ReadBits(input, p, n) == v
  {
    LsbValOfLsb(v, n);
    LowBound(v, n);
  }

  /** A canonical code written high bit first decodes to its symbol. */
  lemma CodeDecodes(sizes: seq<nat>, input: seq<byte>, p: nat, i: nat)
    requires ValidSizes(sizes) && Kraft(sizes) && i < |sizes| && sizes[i] > 0
    requires Shows(input, p, Lsb(BitReverse(Code(sizes, i), sizes[i]), sizes[i]))
    ensures Decode(sizes, input, p) == i
  {
    var s := sizes[i];
    CodeFits(sizes, i);
    ReversedCode(Code(sizes, i), s);
    StreamSplit(input, p, s, MAX_SIZE - s);
    var bits := StreamBits(input, p, MAX_SIZE);
    assert Matches(sizes, bits, i);
    MatchUnique(sizes, bits, i, Decode(sizes, input, p));
  }

  lemma SymbolDecodes(input: seq<byte>, p: nat, n: nat)
    requires n < 288 && Shows(input, p, CodeBits(n))
    ensures Decode(FixedLengths(), input, p) == n && FixedLengths()[n] == |CodeBits(n)| == FixedSize(n)
  {
    FixedKraft();
    FixedCodeIsCanonical(n);
    CodeDecodes(FixedLengths(), input, p, n);
  }

  lemma DistanceDecodes(input: seq<byte>, p: nat, n: nat)
    requires n < 32 && Shows(input, p, Lsb(BitReverse(n, 5), 5))
    ensures Decode(FixedDistances(), input, p) == n && FixedDistances()[n] == 5
  {
    FixedKraft();
    FixedDistanceIsCanonical(n);
    CodeDecodes(FixedDistances(), input, p, n);
  }

  /** A written reference reads back as the same length and distance. */
  lemma ReferenceReads(input: seq<byte>, p: nat, len: nat, dist: nat)
    requires 3 <= len <= 258 && 1 <= dist <= 32768 && Shows(input, p, ReferenceBits(len, dist))
    ensures var z := LengthSymbol(len, 0) + 257;
      && Decode(FixedLengths(), input, p) == z
      && ReadMatch(FixedDistances(), input, p + FixedLengths()[z], z)
           == Match(len, dist, p + |ReferenceBits(len, dist)|)
  {
    hide LengthBase, LengthExtra, DistBase, DistExtra, FixedLengths, FixedDistances, Shows, ReadBits, StreamBits;
    hide CodeBits, FixedCode, Lsb, LengthSymbol, DistSymbol, BitReverse, Pow2, Decode;
    var j, k := LengthSymbol(len, 0), DistSymbol(dist, 0);
    var a, b := CodeBits(j + 257), Lsb(len - LengthBase(j), LengthExtra(j));
    var c, d := Lsb(BitReverse(k, 5), 5), Lsb(dist - DistBase(k), DistExtra(k));
    ShowsSplit(input, p, a + b + c, d);
    ShowsSplit(input, p, a + b, c);
    ShowsSplit(input, p, a, b);
    SymbolDecodes(input, p, j + 257);
    LengthFits(j, len);
    FieldReads(input, p + |a|, len - LengthBase(j), LengthExtra(j));
    DistanceDecodes(input, p + |a| + |b|, k);
    DistFits(k, dist);
    FieldReads(input, p + |a| + |b| + 5, dist - DistBase(k), DistExtra(k));
  }

  lemma FitsMonotone(room: Room, m: nat, n: nat)
    requires m <= n && room.Fits(n)
    ensures room.Fits(m)
  {
    if n > room.initial { DoubledMonotone(room.initial, m, n); }
  }

  lemma {:induction false} DoubledMonotone(c: nat, m: nat, n: nat)
    requires c > 0 && m <= n
    ensures Doubled(c, m) <= Doubled(c, n)
    decreases n - c
  {
    if c < m { DoubledMonotone(2 * c, m, n); }
  }

  lemma LiteralStep(input: seq<byte>, p: nat, out: seq<byte>, v: byte, room: Room)
    requires room.Fits(|out| + 1) && Shows(input, p, CodeBits(v))
    ensures HuffmanBlock(FixedLengths(), FixedDistances(), input, p, out, room)
         == HuffmanBlock(FixedLengths(), FixedDistances(), input, p + |CodeBits(v)|, out + [v], room)
  {
    hide FixedLengths, FixedDistances, Shows, StreamBits, Room.Fits, ReadMatch, FixedCode, CodeBits;
    SymbolDecodes(input, p, v);
  }

  lemma ReferenceStep(input: seq<byte>, p: nat, out: seq<byte>, len: nat, dist: nat, room: Room)
    requires 3 <= len <= 258 && 1 <= dist <= 32768 && dist <= |out|
    requires room.Fits(|out| + len) && Shows(input, p, ReferenceBits(len, dist))
    ensures HuffmanBlock(FixedLengths(), FixedDistances(), input, p, out, room)
         == HuffmanBlock(FixedLengths(), FixedDistances(), input, p + |ReferenceBits(len, dist)|,
                         CopyBack(out, dist, len), room)
  {
    hide HuffmanBlock, Decode, LengthSymbol, FixedLengths, FixedDistances, Shows, Room.Fits, ReadMatch, CopyBack, ReferenceBits;
    ReferenceReads(input, p, len, dist);
    MatchStep(FixedLengths(), FixedDistances(), input, p, out, room, len, dist, p + |ReferenceBits(len, dist)|);
  }

  lemma MatchStep(lengths: seq<nat>, distances: seq<nat>, input: seq<byte>, p: nat, out: seq<byte>, room: Room,
                  len: nat, dist: nat, end: nat)
    requires var z := Decode(lengths, input, p);
      z > 256 && ReadMatch(distances, input, p + lengths[z], z) == Match(len, dist, end)
    requires dist <= |out| && room.Fits(|out| + len)
    ensures HuffmanBlock(lengths, distances, input, p, out, room)
         == HuffmanBlock(lengths, distances, input, end, CopyBack(out, dist, len), room)
  {
    hide ReadMatch, Decode, CopyBack;
  }

  /** Decoding one written token advances past it and appends what it stands for. */
  lemma TokenStep(input: seq<byte>, p: nat, out: seq<byte>, t: Token, room: Room)
    requires Sound(t, |out|) && room.Fits(|Expand1(out, t)|) && Shows(input, p, TokenBits(t))
    ensures HuffmanBlock(FixedLengths(), FixedDistances(), input, p, out, room)
         == HuffmanBlock(FixedLengths(), FixedDistances(), input, p + |TokenBits(t)|, Expand1(out, t), room)
  {
    hide HuffmanBlock, FixedLengths, FixedDistances, Shows, StreamBits, Room.Fits, CopyBack, ReferenceBits, CodeBits;
    match t {
      case Literal(v) => LiteralStep(input, p, out, v, room);
      case Reference(len, dist) => ReferenceStep(input, p, out, len, dist, room);
    }
  }

  /** A written token list followed by end-of-block decodes to what the tokens expand to. */
  lemma {:induction false} TokensDecode(input: seq<byte>, p: nat, out: seq<byte>, tokens: seq<Token>, room: Room)
    requires AllSound(out, tokens) && room.Fits(|Expand(out, tokens)|)
    requires Shows(input, p, TokensBits(out, tokens) + CodeBits(256))
    ensures HuffmanBlock(FixedLengths(), FixedDistances(), input, p, out, room)
         == Done(p + |TokensBits(out, tokens) + CodeBits(256)|, Expand(out, tokens))
    decreases |tokens|
  {
    hide FixedLengths, FixedDistances, Shows, StreamBits, Room.Fits, CodeBits, TokenBits, ReadMatch, Expand1;
    if |tokens| == 0 {
      assert TokensBits(out, tokens) + CodeBits(256) == CodeBits(256);
      SymbolDecodes(input, p, 256);
    } else {
      hide HuffmanBlock;
      var t, rest := tokens[0], tokens[1..];
      var next := Expand1(out, t);
      var w, w' := TokenBits(t), TokensBits(next, rest) + CodeBits(256);
      assert TokensBits(out, tokens) + CodeBits(256) == w + w';
      ShowsSplit(input, p, w, w');
      TokensDecode(input, p + |w|, next, rest, room);
      FitsMonotone(room, |next|, |Expand(next, rest)|);
      TokenStep(input, p, out, t, room);
    }
  }
}
