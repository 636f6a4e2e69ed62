/** Compressing and then decompressing gives the data back. */
module ZlibRoundTrip {
  import opened Bits
  import opened Inflate
  import opened FixedCodes
  import opened Lz77
  import opened BitWriters
  import opened ZBufs
  import opened Deflate
  import Adler

  lemma {:induction false} DoubledBelowTwice(c: nat, n: nat)
    requires 0 < c < n
    ensures Doubled(c, n) < 2 * n
    decreases n - c
  {
    if 2 * c < n { DoubledBelowTwice(2 * c, n); }
  }

  /** Twice the data is memory enough for a growing buffer of any positive first size. */
  lemma RoomSuffices(room: Room, n: nat)
    requires n <= room.initial || (room.expandable && room.initial > 0 && 2 * n <= room.maxAlloc)
    ensures room.Fits(n)
  {
    if n > room.initial { DoubledBelowTwice(room.initial, n); }
  }

  lemma TwoBytes(a: byte, b: byte)
    ensures BytesBits([a, b]) == Lsb(a, 8) + Lsb(b, 8)
  {
    assert [a, b][..1] == [a];
    assert BytesBits([a]) == BytesBits([]) + Lsb(a, 8);
  }

  /** The header the compressor writes is one the decoder accepts. */
  lemma HeaderReads(input: seq<byte>)
    requires Shows(input, 0, BytesBits([0x78, 0x5e]))
    ensures HeaderOk(input)
  {
    hide Lsb, BitAnd, BytesBits, Shows, ByteAt, ReadBits;
    TwoBytes(0x78, 0x5e);
    ShowsSplit(input, 0, Lsb(0x78, 8), Lsb(0x5e, 8));
    Pow2Values();
    FieldReads(input, 0, 0x78, 8);
    FieldReads(input, 8, 0x5e, 8);
    ReadByte(input, 0);
    ReadByte(input, 1);
    HeaderBits();
  }

  lemma HeaderBits()
    ensures (0x78 * 256 + 0x5e) % 31 == 0 && BitAnd(0x5e, 32) == 0 && BitAnd(0x78, 15) == 8
  {
    MethodBits();
    DictionaryBit();
  }

  lemma MethodBits()
    ensures BitAnd(0x78, 15) == 8
  {
  }

  lemma DictionaryBit()
    ensures BitAnd(0x5e, 32) == 0
  {
  }

  lemma BlockHeaderReads(input: seq<byte>, p: nat)
    requires Shows(input, p, [1]) && Shows(input, p + 1, [1, 0])
    ensures ReadBits(input, p, 1) == 1 && ReadBits(input, p + 1, 2) == 1
  {
    assert LsbVal([1]) == 1 + 2 * LsbVal([]);
    assert [1, 0][1..] == [0] && LsbVal([0]) == 0 + 2 * LsbVal([]);
  }

  /** What the decoder meets in a stream: the header, a final block with fixed codes, the tokens and the end. */
  lemma StreamShows(out: seq<byte>, tokens: seq<Token>, data: seq<byte>)
    requires IsStream(out, tokens, data)
    ensures Shows(out, 0, BytesBits([0x78, 0x5e])) && Shows(out, 16, [1]) && Shows(out, 17, [1, 0])
    ensures Shows(out, 19, TokensBits([], tokens) + CodeBits(256)) && |out| > 2
  {
    hide BytesBits, Shows, CodeBits, TokensBits, Expand, AllSound;
    var body: seq<byte>, pad: nat :| pad < 8 && BytesBits(body) == BytesBits([0x78, 0x5e]) + Body(tokens, pad)
                       && out == body + Adler.Trailer(data);
    BytesShow(body, Adler.Trailer(data));
    var header, codes := BytesBits([0x78, 0x5e]), TokensBits([], tokens) + CodeBits(256);
    BitsLength([0x78, 0x5e]);
    BitsLength(body);
    assert Body(tokens, pad) == [1] + ([1, 0] + (codes + Lsb(0, pad)));
    hide Body, Lsb, AllSound, Expand;
    PartsShow(out, header, codes, Lsb(0, pad));
  }

  lemma PartsShow(out: seq<byte>, header: seq<bit>, codes: seq<bit>, padding: seq<bit>)
    requires |header| == 16 && Shows(out, 0, header + ([1] + ([1, 0] + (codes + padding))))
    ensures Shows(out, 0, header) && Shows(out, 16, [1]) && Shows(out, 17, [1, 0]) && Shows(out, 19, codes)
  {
    hide Shows;
    ShowsSplit(out, 0, header, [1] + ([1, 0] + (codes + padding)));
    ShowsSplit(out, 16, [1], [1, 0] + (codes + padding));
    ShowsSplit(out, 17, [1, 0], codes + padding);
    ShowsSplit(out, 19, codes, padding);
  }

  lemma BitsLength(bs: seq<byte>)
    ensures |BytesBits(bs)| == 8 * |bs|
  {
  }

  /** A stream of sound tokens means exactly the data they stand for. */
  lemma StreamMeansData(out: seq<byte>, tokens: seq<Token>, data: seq<byte>, room: Room) returns (end: nat)
    requires IsStream(out, tokens, data) && room.Fits(|data|)
    ensures Zlib(out, true, room) == Done(end, data)
  {
    hide BytesBits, Shows, StreamBits, CodeBits, HuffmanBlock, FixedLengths, FixedDistances, TokensBits, Expand, AllSound,
         HeaderOk, Room.Fits, ReadBits;
    StreamShows(out, tokens, data);
    HeaderReads(out);
    BlockHeaderReads(out, 16);
    TokensDecode(out, 19, [], tokens, room);
    end := 19 + |TokensBits([], tokens) + CodeBits(256)|;
  }

  /** Decodes a buffer of compressed bytes. */
  method ZlibDecode(buffer: seq<byte>, initial: nat, expandable: bool, maxAlloc: nat, parseHeader: bool)
      returns (status: Status, out: seq<byte>)
    requires expandable ==> initial > 0
    ensures match Zlib(buffer, parseHeader, Room(initial, expandable, maxAlloc))
      case Done(_, o) => status == Success && out == o
      case Corrupt => status == Failure
      case Reserved => status == ReservedSymbol
  {
    hide Zlib;
    var z := new ZBuf(buffer, initial, expandable, maxAlloc);
    status := z.ParseZlib(parseHeader);
    out := z.zout[..z.zpos];
  }

  /** For all data, qualities and hash functions, decoding the compressed bytes into a buffer
      that is large enough, or that may grow to twice the data, gives the data back. */
  method RoundTrip(data: seq<byte>, quality: int, hash: Hash, initial: nat, expandable: bool, maxAlloc: nat)
      returns (status: Status, out: seq<byte>)
    requires expandable ==> initial > 0
    requires |data| <= initial || (expandable && 2 * |data| <= maxAlloc)
    ensures status == Success && out == data
  {
    var packed, tokens := ZlibCompress(data, quality, hash);
    ghost var room := Room(initial, expandable, maxAlloc);
    RoomSuffices(room, |data|);
    ghost var end := StreamMeansData(packed, tokens, data, room);
    status, out := ZlibDecode(packed, initial, expandable, maxAlloc, true);
  }
}
