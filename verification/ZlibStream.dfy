/** Whole deflate streams from the writing side: stored blocks, blocks with the fixed codes and blocks with
    codes of their own, in any order.  Whatever they stand for is what the decoder makes of them. */
module ZlibStreams {
  import opened Bits
  import opened DynamicHeaders
  import opened FixedCodes
  import opened Huffman
  import opened Inflate
  import opened Lz77

  // ---- the tables of section 3.2.5 of RFC 1951 ----

  /** Eight lengths have symbols of their own; after that every four symbols take one more extra bit. */
  lemma LengthExtras(z: nat)
    requires z < 29
    ensures LengthExtra(z) == if z < 8 || z == 28 then 0 else (z - 4) / 4
  {
  }

  /** Each symbol begins where the one before it ends; length 258 has the last symbol to itself. */
  lemma LengthBases(z: nat)
    requires z < 28
    ensures LengthBase(0) == 3 && LengthBase(28) == 258
    ensures LengthBase(z) + Pow2(if z < 8 then 0 else (z - 4) / 4) == if z == 27 then 259 else LengthBase(z + 1)
  {
    Pow2Values();
    hide Pow2;
  }

  /** Four distances have symbols of their own; after that every two symbols take one more extra bit. */
  lemma DistanceExtras(z: nat)
    requires z < 30
    ensures DistExtra(z) == if z < 4 then 0 else (z - 2) / 2
  {
  }

  lemma DistanceBases(z: nat)
    requires z < 30
    ensures DistBase(0) == 1
    ensures DistBase(z) + Pow2(if z < 4 then 0 else (z - 2) / 2) == if z == 29 then 32769 else DistBase(z + 1)
  {
    Pow2Values();
    hide Pow2;
  }

  // ---- tokens in codes of the block's own ----

  /** A token as it is written with the two codes. */
  function TokenWord(l: seq<nat>, d: seq<nat>, t: Token): seq<bit>
    requires Writable(l, d, t)
  {
    match t
    case Literal(v) => CodeWord(l, v)
    case Reference(len, dist) =>
      var j, k := LengthSymbol(len, 0), DistSymbol(dist, 0);
      ReferenceWord(l, d, j, len - LengthBase(j), k, dist - DistBase(k))
  }

  /** Length symbol j and distance symbol k, each with its extra bits. */
  function ReferenceWord(l: seq<nat>, d: seq<nat>, j: nat, u: nat, k: nat, v: nat): seq<bit>
    requires j < 29 && j + 257 < |l| && k < 30 && k < |d|
  {
    CodeWord(l, j + 257) + Lsb(u, LengthExtra(j)) + CodeWord(d, k) + Lsb(v, DistExtra(k))
  }

  /** The codes have words for the token. */
  predicate Writable(l: seq<nat>, d: seq<nat>, t: Token) {
    match t
    case Literal(v) => v < |l| && l[v] > 0
    case Reference(len, dist) =>
      && 3 <= len <= 258 && 1 <= dist <= 32768
      && LengthSymbol(len, 0) + 257 < |l| && l[LengthSymbol(len, 0) + 257] > 0
      && DistSymbol(dist, 0) < |d| && d[DistSymbol(dist, 0)] > 0
  }

  ghost predicate AllWritable(l: seq<nat>, d: seq<nat>, tokens: seq<Token>) {
    |l| > 256 && l[256] > 0 && forall i :: 0 <= i < |tokens| ==> Writable(l, d, tokens[i])
  }

  ghost function TokenWords(l: seq<nat>, d: seq<nat>, tokens: seq<Token>): seq<bit>
    requires AllWritable(l, d, tokens)
  {
    if tokens == [] then CodeWord(l, 256) else TokenWord(l, d, tokens[0]) + TokenWords(l, d, tokens[1..])
  }

  lemma LiteralWordReads(l: seq<nat>, d: seq<nat>, input: seq<byte>, p: nat, out: seq<byte>, v: byte, room: Room)
    requires KraftOk(l) && Writable(l, d, Literal(v)) && room.Fits(|out| + 1)
    requires Shows(input, p, TokenWord(l, d, Literal(v)))
    ensures HuffmanBlock(l, d, input, p, out, room)
         == HuffmanBlock(l, d, input, p + |TokenWord(l, d, Literal(v))|, out + [v], room)
  {
    hide Shows, CodeWord, Decode, HuffmanBlock, Room.Fits, Kraft, LengthSymbol, DistSymbol;
    WordLength(l, v);
    WordReads(l, input, p, v);
    LiteralTaken(l, d, input, p, out, v, room);
  }

  lemma LiteralTaken(l: seq<nat>, d: seq<nat>, input: seq<byte>, p: nat, out: seq<byte>, v: byte, room: Room)
    requires Decode(l, input, p) == v && room.Fits(|out| + 1)
    ensures HuffmanBlock(l, d, input, p, out, room) == HuffmanBlock(l, d, input, p + l[v], out + [v], room)
  {
    hide Decode, ReadMatch;
  }

  lemma EndTaken(l: seq<nat>, d: seq<nat>, input: seq<byte>, p: nat, out: seq<byte>, room: Room)
    requires Decode(l, input, p) == 256
    ensures HuffmanBlock(l, d, input, p, out, room) == Done(p + l[256], out)
  {
    hide Decode, ReadMatch;
  }

  lemma WordLength(l: seq<nat>, i: nat)
    requires i < |l|
    ensures |CodeWord(l, i)| == l[i]
  {
  }

  lemma ReferenceWordReads(l: seq<nat>, d: seq<nat>, input: seq<byte>, p: nat, out: seq<byte>, len: nat, dist: nat, room: Room)
    requires KraftOk(l) && KraftOk(d) && Writable(l, d, Reference(len, dist)) && dist <= |out|
    requires room.Fits(|out| + len) && Shows(input, p, TokenWord(l, d, Reference(len, dist)))
    ensures HuffmanBlock(l, d, input, p, out, room)
         == HuffmanBlock(l, d, input, p + |TokenWord(l, d, Reference(len, dist))|, CopyBack(out, dist, len), room)
  {
    hide LengthBase, LengthExtra, DistBase, DistExtra, Shows, ReadBits, CodeWord, Lsb, LengthSymbol, DistSymbol;
    hide Pow2, Decode, HuffmanBlock, CopyBack, Room.Fits, Kraft, ReferenceWord;
    var j, k := LengthSymbol(len, 0), DistSymbol(dist, 0);
    LengthSymbolFits(len);
    DistSymbolFits(dist);
    var u, v := len - LengthBase(j), dist - DistBase(k);
    assert TokenWord(l, d, Reference(len, dist)) == ReferenceWord(l, d, j, u, k, v);
    hide TokenWord;
    var end := ReferenceParts(l, d, input, p, j, u, k, v);
    MatchStep(l, d, input, p, out, room, len, dist, end);
  }

  /** The four fields of a reference read back. */
  lemma ReferenceParts(l: seq<nat>, d: seq<nat>, input: seq<byte>, p: nat, j: nat, u: nat, k: nat, v: nat) returns (end: nat)
    requires KraftOk(l) && KraftOk(d) && j < 29 && j + 257 < |l| && k < 30 && k < |d| && l[j + 257] > 0 && d[k] > 0
    requires u < Pow2(LengthExtra(j)) && v < Pow2(DistExtra(k)) && Shows(input, p, ReferenceWord(l, d, j, u, k, v))
    ensures end == p + |ReferenceWord(l, d, j, u, k, v)|
    ensures Decode(l, input, p) == j + 257
    ensures ReadMatch(d, input, p + l[j + 257], j + 257) == Match(LengthBase(j) + u, DistBase(k) + v, end)
  {
    hide LengthBase, LengthExtra, DistBase, DistExtra, Shows, CodeWord, Lsb, ReadBits, Decode, Pow2, Kraft;
    WordLengths(l, j + 257, d, k, u, LengthExtra(j), v, DistExtra(k));
    var a, b, c, e := CodeWord(l, j + 257), Lsb(u, LengthExtra(j)), CodeWord(d, k), Lsb(v, DistExtra(k));
    FourParts(input, p, a, b, c, e);
    LengthWordReads(l, input, p, j, u);
    DistanceWordReads(d, input, p + |a| + |b|, k, v);
    end := p + |a| + |b| + |c| + |e|;
  }

  lemma FourParts(input: seq<byte>, p: nat, a: seq<bit>, b: seq<bit>, c: seq<bit>, e: seq<bit>)
    requires Shows(input, p, a + b + c + e)
    ensures Shows(input, p, a) && Shows(input, p + |a|, b) && Shows(input, p + |a| + |b|, c)
    ensures Shows(input, p + |a| + |b| + |c|, e)
  {
    hide Shows;
    ShowsSplit(input, p, a + b + c, e);
    ShowsSplit(input, p, a + b, c);
    ShowsSplit(input, p, a, b);
  }

  lemma LengthWordReads(l: seq<nat>, input: seq<byte>, p: nat, j: nat, v: nat)
    requires KraftOk(l) && j < 29 && j + 257 < |l| && l[j + 257] > 0 && v < Pow2(LengthExtra(j))
    requires Shows(input, p, CodeWord(l, j + 257)) && Shows(input, p + l[j + 257], Lsb(v, LengthExtra(j)))
    ensures Decode(l, input, p) == j + 257 && ReadBits(input, p + l[j + 257], LengthExtra(j)) == v
  {
    hide LengthExtra, Shows, ReadBits, CodeWord, Lsb, Decode, Pow2, Kraft;
    WordReads(l, input, p, j + 257);
    FieldReads(input, p + l[j + 257], v, LengthExtra(j));
  }

  lemma DistanceWordReads(d: seq<nat>, input: seq<byte>, p: nat, k: nat, v: nat)
    requires KraftOk(d) && k < 30 && k < |d| && d[k] > 0 && v < Pow2(DistExtra(k))
    requires Shows(input, p, CodeWord(d, k)) && Shows(input, p + d[k], Lsb(v, DistExtra(k)))
    ensures Decode(d, input, p) == k && ReadBits(input, p + d[k], DistExtra(k)) == v
  {
    hide DistExtra, Shows, ReadBits, CodeWord, Lsb, Decode, Pow2, Kraft;
    WordReads(d, input, p, k);
    FieldReads(input, p + d[k], v, DistExtra(k));
  }

  lemma LengthSymbolFits(len: nat)
    requires 3 <= len <= 258
    ensures var j := LengthSymbol(len, 0); j < 29 && LengthBase(j) <= len && len - LengthBase(j) < Pow2(LengthExtra(j))
  {
    LengthFits(LengthSymbol(len, 0), len);
  }

  lemma DistSymbolFits(dist: nat)
    requires 1 <= dist <= 32768
    ensures var k := DistSymbol(dist, 0); k < 30 && DistBase(k) <= dist && dist - DistBase(k) < Pow2(DistExtra(k))
  {
    DistFits(DistSymbol(dist, 0), dist);
  }

  lemma WordLengths(l: seq<nat>, i: nat, d: seq<nat>, k: nat, u: nat, m: nat, v: nat, n: nat)
    requires i < |l| && k < |d|
    ensures |CodeWord(l, i)| == l[i] && |CodeWord(d, k)| == d[k] && |Lsb(u, m)| == m && |Lsb(v, n)| == n
  {
  }

  /** Tokens written in any two codes, and the end of the block, read back as what they expand to. */
  lemma {:induction false} WordsRead(l: seq<nat>, d: seq<nat>, input: seq<byte>, p: nat, out: seq<byte>,
                                     tokens: seq<Token>, room: Room)
    requires KraftOk(l) && KraftOk(d) && AllWritable(l, d, tokens) && AllSound(out, tokens)
    requires room.Fits(|Expand(out, tokens)|) && Shows(input, p, TokenWords(l, d, tokens))
    ensures HuffmanBlock(l, d, input, p, out, room) == Done(p + |TokenWords(l, d, tokens)|, Expand(out, tokens))
    decreases |tokens|
  {
    hide HuffmanBlock, KraftOk, Writable, TokenWord, TokenWords, Expand, Expand1, AllSound, AllWritable, Sound, Shows;
    hide Room.Fits, CodeWord;
    if tokens == [] {
      NoWords(l, d, out);
      EndReads(l, d, input, p, out, room);
    } else {
      FirstWord(l, d, out, tokens);
      var t, rest := tokens[0], tokens[1..];
      var next := Expand1(out, t);
      var a, b := TokenWord(l, d, t), TokenWords(l, d, rest);
      ShowsSplit(input, p, a, b);
      WordsRead(l, d, input, p + |a|, next, rest, room);
      ExpandGrows(next, rest);
      FitsMonotone(room, |next|, |Expand(next, rest)|);
      WordStep(l, d, input, p, out, t, room);
    }
  }

  lemma NoWords(l: seq<nat>, d: seq<nat>, out: seq<byte>)
    requires AllWritable(l, d, [])
    ensures |l| > 256 && l[256] > 0 && TokenWords(l, d, []) == CodeWord(l, 256)
    ensures AllSound(out, []) && Expand(out, []) == out
  {
  }

  lemma FirstWord(l: seq<nat>, d: seq<nat>, out: seq<byte>, tokens: seq<Token>)
    requires AllWritable(l, d, tokens) && AllSound(out, tokens) && tokens != []
    ensures Writable(l, d, tokens[0]) && AllWritable(l, d, tokens[1..]) && Sound(tokens[0], |out|)
    ensures TokenWords(l, d, tokens) == TokenWord(l, d, tokens[0]) + TokenWords(l, d, tokens[1..])
    ensures var next := Expand1(out, tokens[0]);
      AllSound(next, tokens[1..]) && Expand(out, tokens) == Expand(next, tokens[1..])
  {
    hide TokenWord, Writable, Expand1, Sound;
    RestWritable(l, d, tokens);
  }

  lemma ExpandGrows(out: seq<byte>, tokens: seq<Token>)
    requires AllSound(out, tokens)
    ensures |out| <= |Expand(out, tokens)|
  {
  }

  lemma RestWritable(l: seq<nat>, d: seq<nat>, tokens: seq<Token>)
    requires AllWritable(l, d, tokens) && tokens != []
    ensures Writable(l, d, tokens[0]) && AllWritable(l, d, tokens[1..])
  {
  }

  lemma EndReads(l: seq<nat>, d: seq<nat>, input: seq<byte>, p: nat, out: seq<byte>, room: Room)
    requires KraftOk(l) && |l| > 256 && l[256] > 0 && Shows(input, p, CodeWord(l, 256))
    ensures HuffmanBlock(l, d, input, p, out, room) == Done(p + |CodeWord(l, 256)|, out)
  {
    hide Shows, CodeWord, Decode, HuffmanBlock, Kraft;
    WordLength(l, 256);
    WordReads(l, input, p, 256);
    EndTaken(l, d, input, p, out, room);
  }

  lemma WordStep(l: seq<nat>, d: seq<nat>, input: seq<byte>, p: nat, out: seq<byte>, t: Token, room: Room)
    requires KraftOk(l) && KraftOk(d) && Writable(l, d, t) && Sound(t, |out|)
    requires room.Fits(|Expand1(out, t)|) && Shows(input, p, TokenWord(l, d, t))
    ensures HuffmanBlock(l, d, input, p, out, room)
         == HuffmanBlock(l, d, input, p + |TokenWord(l, d, t)|, Expand1(out, t), room)
  {
    hide Shows, Room.Fits, HuffmanBlock, KraftOk, TokenWord, CopyBack, Writable;
    match t {
      case Literal(v) => LiteralWordReads(l, d, input, p, out, v, room);
      case Reference(len, dist) => ReferenceWordReads(l, d, input, p, out, len, dist, room);
    }
  }

  // ---- blocks ----

  /** A block: bytes as they are, tokens in the fixed codes, or tokens in codes of its own. */
  datatype Piece = Stored(data: seq<byte>) | Fixed(tokens: seq<Token>) | Dynamic(header: Header, tokens: seq<Token>)

  /** The block can follow the output so far. */
  ghost predicate PieceOk(b: Piece, out: seq<byte>) {
    match b
    case Stored(data) => |data| < 0x1_0000
    case Fixed(tokens) => AllSound(out, tokens)
    case Dynamic(h, tokens) => h.Ok() && AllWritable(h.Lengths(), h.Distances(), tokens) && AllSound(out, tokens)
  }

  /** The output behind the block. */
  ghost function Behind(b: Piece, out: seq<byte>): seq<byte>
    requires PieceOk(b, out)
  {
    match b
    case Stored(data) => out + data
    case Fixed(tokens) => Expand(out, tokens)
    case Dynamic(h, tokens) => Expand(out, tokens)
  }

  /** At byte q stand the length of the data, its complement, both least significant byte first, and the data. */
  ghost predicate StoredAt(input: seq<byte>, q: nat, data: seq<byte>)
    requires |data| < 0x1_0000
  {
    && q + 4 + |data| <= |input| && input[q + 4..q + 4 + |data|] == data
    && input[q] == |data| % 256 && input[q + 1] == |data| / 256
    && input[q + 2] == 255 - |data| % 256 && input[q + 3] == 255 - |data| / 256
  }

  /** The block stands in the stream from bit p to bit `end`: whether it is the last, its kind, its contents. */
  ghost predicate PieceAt(input: seq<byte>, p: nat, b: Piece, out: seq<byte>, last: bool, end: nat)
    requires PieceOk(b, out)
  {
    Shows(input, p, [if last then 1 else 0]) &&
    match b
    case Stored(data) =>
      && Shows(input, p + 1, [0, 0])
      && var q := (p + 3 + 7) / 8; StoredAt(input, q, data) && end == 8 * (q + 4 + |data|)
    case Fixed(tokens) =>
      && Shows(input, p + 1, [1, 0])
      && var bits := TokensBits(out, tokens) + CodeBits(256); Shows(input, p + 3, bits) && end == p + 3 + |bits|
    case Dynamic(h, tokens) =>
      && Shows(input, p + 1, [0, 1])
      && var bits := h.Bits() + TokenWords(h.Lengths(), h.Distances(), tokens);
        Shows(input, p + 3, bits) && end == p + 3 + |bits|
  }

  lemma TwoBits(input: seq<byte>, p: nat, a: bit, b: bit)
    requires Shows(input, p, [a, b])
    ensures ReadBits(input, p, 2) == a as int + 2 * b as int
  {
    assert [a, b][1..] == [b] && LsbVal([b]) == b as int + 2 * LsbVal([]);
  }

  lemma OneBit(input: seq<byte>, p: nat, a: bit)
    requires Shows(input, p, [a])
    ensures ReadBits(input, p, 1) == a
  {
    assert LsbVal([a]) == a as int + 2 * LsbVal([]);
  }

  lemma StoredReads(input: seq<byte>, p: nat, out: seq<byte>, data: seq<byte>, room: Room)
    requires |data| < 0x1_0000 && StoredAt(input, (p + 7) / 8, data) && room.Fits(|out| + |data|)
    ensures StoredBlock(input, p, out, room) == Done(8 * ((p + 7) / 8 + 4 + |data|), out + data)
  {
    hide Room.Fits;
    var q, n := (p + 7) / 8, |data|;
    assert n == n % 256 + 256 * (n / 256) && n / 256 <= 255;
  }

  lemma DynamicReads(input: seq<byte>, p: nat, out: seq<byte>, h: Header, tokens: seq<Token>, room: Room)
    requires h.Ok() && AllWritable(h.Lengths(), h.Distances(), tokens) && AllSound(out, tokens)
    requires room.Fits(|Expand(out, tokens)|)
    requires Shows(input, p, h.Bits() + TokenWords(h.Lengths(), h.Distances(), tokens))
    ensures Block(2, input, p, out, room)
         == Done(p + |h.Bits() + TokenWords(h.Lengths(), h.Distances(), tokens)|, Expand(out, tokens))
  {
    hide Shows, TokenWords, Header.Ok, Header.Bits, Header.Lengths, Header.Distances, HuffmanBlock, DynamicTables, AllWritable;
    hide AllSound, Expand, Room.Fits, KraftOk, AllItemsOk, Spelt, Block;
    HeaderOkFacts(h);
    var l, d := h.Lengths(), h.Distances();
    var a, b := h.Bits(), TokenWords(l, d, tokens);
    ShowsSplit(input, p, a, b);
    HeaderReads(input, p, h);
    WordsRead(l, d, input, p + |a|, out, tokens, room);
    DynamicBlock(input, p, out, l, d, p + |a|, room);
  }

  lemma DynamicBlock(input: seq<byte>, p: nat, out: seq<byte>, l: seq<nat>, d: seq<nat>, p1: nat, room: Room)
    requires DynamicTables(input, p) == Tables(l, d, p1)
    ensures Block(2, input, p, out, room) == HuffmanBlock(l, d, input, p1, out, room)
  {
    hide DynamicTables, HuffmanBlock;
  }

  lemma HeaderOkFacts(h: Header)
    requires h.Ok()
    ensures AllItemsOk([], h.items) && h.literals <= |Spelt([], h.items)|
    ensures KraftOk(h.Lengths()) && KraftOk(h.Distances())
  {
  }

  /** A block reads back as what it stands for. */
  lemma PieceReads(input: seq<byte>, p: nat, b: Piece, out: seq<byte>, last: bool, end: nat, room: Room)
    requires PieceOk(b, out) && PieceAt(input, p, b, out, last, end) && room.Fits(|Behind(b, out)|)
    ensures ReadBits(input, p, 1) == if last then 1 else 0
    ensures Block(ReadBits(input, p + 1, 2), input, p + 3, out, room) == Done(end, Behind(b, out))
  {
    hide Shows, ReadBits, AllSound, Expand, TokensBits, CodeBits, Room.Fits, StoredAt, StoredBlock, HuffmanBlock, DynamicTables;
    hide TokenWords, Header.Ok, Header.Bits, Header.Lengths, Header.Distances, AllWritable, FixedLengths, FixedDistances;
    OneBit(input, p, if last then 1 else 0);
    match b {
      case Stored(data) =>
        TwoBits(input, p + 1, 0, 0);
        StoredReads(input, p + 3, out, data, room);
      case Fixed(tokens) =>
        TwoBits(input, p + 1, 1, 0);
        TokensDecode(input, p + 3, out, tokens, room);
      case Dynamic(h, tokens) =>
        TwoBits(input, p + 1, 0, 1);
        DynamicReads(input, p + 3, out, h, tokens, room);
    }
  }

  // ---- streams ----

  /** The blocks stand one behind the other from bit p on, the last one marked as such; together they turn
      `out` into `all`. */
  ghost predicate StreamAt(input: seq<byte>, p: nat, blocks: seq<Piece>, out: seq<byte>, all: seq<byte>, end: nat)
    decreases |blocks|
  {
    && blocks != [] && PieceOk(blocks[0], out)
    && if |blocks| == 1 then PieceAt(input, p, blocks[0], out, true, end) && all == Behind(blocks[0], out)
       else exists p1 :: p < p1 && PieceAt(input, p, blocks[0], out, false, p1)
                      && StreamAt(input, p1, blocks[1..], Behind(blocks[0], out), all, end)
  }

  lemma {:induction false} StreamGrows(input: seq<byte>, p: nat, blocks: seq<Piece>, out: seq<byte>, all: seq<byte>, end: nat)
    requires StreamAt(input, p, blocks, out, all, end)
    ensures |Behind(blocks[0], out)| <= |all|
    decreases |blocks|
  {
    hide PieceAt;
    if |blocks| > 1 {
      var p1 :| p < p1 && PieceAt(input, p, blocks[0], out, false, p1)
                && StreamAt(input, p1, blocks[1..], Behind(blocks[0], out), all, end);
      StreamGrows(input, p1, blocks[1..], Behind(blocks[0], out), all, end);
      BehindGrows(blocks[1], Behind(blocks[0], out));
    }
  }

  lemma BehindGrows(b: Piece, out: seq<byte>)
    requires PieceOk(b, out)
    ensures |out| <= |Behind(b, out)|
  {
  }

  /** Any sequence of blocks decodes to what the blocks stand for. */
  lemma {:induction false} StreamReads(input: seq<byte>, p: nat, blocks: seq<Piece>, out: seq<byte>, all: seq<byte>,
                                       end: nat, room: Room)
    requires StreamAt(input, p, blocks, out, all, end) && room.Fits(|all|)
    ensures Blocks(input, p, out, room) == Done(end, all)
    decreases |blocks|
  {
    hide PieceAt, PieceOk, Behind, Room.Fits, Block, ReadBits, Blocks;
    StreamGrows(input, p, blocks, out, all, end);
    FitsMonotone(room, |Behind(blocks[0], out)|, |all|);
    BlocksStep(input, p, out, room);
    if |blocks| == 1 {
      PieceReads(input, p, blocks[0], out, true, end, room);
    } else {
      var p1 :| p < p1 && PieceAt(input, p, blocks[0], out, false, p1)
                && StreamAt(input, p1, blocks[1..], Behind(blocks[0], out), all, end);
      PieceReads(input, p, blocks[0], out, false, p1, room);
      StreamReads(input, p1, blocks[1..], Behind(blocks[0], out), all, end, room);
    }
  }

  /** So does a whole zlib stream: any header the reader accepts, then any blocks. */
  lemma ZlibReads(input: seq<byte>, blocks: seq<Piece>, all: seq<byte>, end: nat, room: Room)
    requires HeaderOk(input) && StreamAt(input, 16, blocks, [], all, end) && room.Fits(|all|)
    ensures Zlib(input, true, room) == Done(end, all)
  {
    hide StreamAt, Blocks, HeaderOk, Room.Fits;
    StreamReads(input, 16, blocks, [], all, end, room);
  }
}
