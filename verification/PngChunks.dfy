/** PNG files from any writer: a header, data chunks in any number of pieces with ancillary chunks between
    them, and the end (section 3 of RFC 2083), in bytes. */
module PngChunks {
  import opened Bits
  import opened Contexts
  import opened Inflate
  import opened PngFile
  import opened PngFilter

  /** Four bytes at p spell v, most significant first. */
  predicate BigEndian(file: seq<byte>, p: nat, v: nat) {
    p + 4 <= |file| && v == 0x100_0000 * file[p] as int + 0x1_0000 * file[p + 1] as int + 256 * file[p + 2] as int + file[p + 3] as int
  }

  /** A chunk stands at p: length, kind, body and any checksum. */
  predicate ChunkAt(file: seq<byte>, p: nat, kind: seq<byte>, body: seq<byte>)
    requires |kind| == 4
  {
    && p + 12 + |body| <= |file| && BigEndian(file, p, |body|)
    && file[p + 4..p + 8] == kind && file[p + 8..p + 8 + |body|] == body
  }

  /** A piece of the data, or an ancillary chunk, whose kind begins with a small letter. */
  datatype Part = Data(bytes: seq<byte>) | Other(kind: seq<byte>, body: seq<byte>)

  /** Transparency chunks (tRNS) change how data is read. */
  predicate PartOk(part: Part) {
    part.Other? ==> |part.kind| == 4 && part.kind[0] / 32 % 2 == 1 && part.kind != [116, 82, 78, 83] && |part.body| < 0x8000_0000
  }

  predicate PartAt(file: seq<byte>, p: nat, part: Part)
    requires PartOk(part)
  {
    match part
    case Data(bytes) => ChunkAt(file, p, [73, 68, 65, 84], bytes)
    case Other(kind, body) => ChunkAt(file, p, kind, body)
  }

  function PartSize(part: Part): nat {
    12 + if part.Data? then |part.bytes| else |part.body|
  }

  /** The parts stand one behind the other from p to `end`. */
  predicate PartsAt(file: seq<byte>, p: nat, parts: seq<Part>, end: nat)
    decreases |parts|
  {
    if parts == [] then p == end
    else PartOk(parts[0]) && PartAt(file, p, parts[0]) && PartsAt(file, p + PartSize(parts[0]), parts[1..], end)
  }

  /** The pieces of data, joined. */
  function DataOf(parts: seq<Part>): seq<byte> {
    if parts == [] then [] else (if parts[0].Data? then parts[0].bytes else []) + DataOf(parts[1..])
  }

  lemma KindReads(file: seq<byte>, p: nat, kind: seq<byte>, body: seq<byte>)
    requires |kind| == 4 && ChunkAt(file, p, kind, body)
    ensures Be32At(file, p) == |body|
    ensures Be32At(file, p + 4)
         == 0x100_0000 * kind[0] as int + 0x1_0000 * kind[1] as int + 256 * kind[2] as int + kind[3] as int
  {
    var s := file[p + 4..p + 8];
    assert file[p + 4] == s[0] && file[p + 5] == s[1] && file[p + 6] == s[2] && file[p + 7] == s[3];
  }

  /** Different kinds read as different numbers. */
  lemma KindsDiffer(a: seq<byte>, b: seq<byte>)
    requires |a| == |b| == 4
    requires 0x100_0000 * a[0] as int + 0x1_0000 * a[1] as int + 256 * a[2] as int + a[3] as int
          == 0x100_0000 * b[0] as int + 0x1_0000 * b[1] as int + 256 * b[2] as int + b[3] as int
    ensures a == b
  {
    var a3: nat, a2: nat, a1: nat := a[3], 256 * a[2] as int + a[3] as int, 0x1_0000 * a[1] as int + (256 * a[2] as int + a[3] as int);
    var b3: nat, b2: nat, b1: nat := b[3], 256 * b[2] as int + b[3] as int, 0x1_0000 * b[1] as int + (256 * b[2] as int + b[3] as int);
    SameDigits(a[0], a1, b[0], b1, 0x100_0000);
    SameDigits(a[1], a2, b[1], b2, 0x1_0000);
    SameDigits(a[2], a3, b[2], b3, 256);
  }

  lemma SameDigits(x: nat, r: nat, y: nat, s: nat, m: nat)
    requires (m == 256 || m == 0x1_0000 || m == 0x100_0000) && r < m && s < m
    requires (if m == 256 then 256 * x else if m == 0x1_0000 then 0x1_0000 * x else 0x100_0000 * x) + r
          == (if m == 256 then 256 * y else if m == 0x1_0000 then 0x1_0000 * y else 0x100_0000 * y) + s
    ensures x == y && r == s
  {
  }

  /** A kind that begins with a small letter has the ancillary bit. */
  lemma AncillaryBit(kind: seq<byte>, v: nat)
    requires |kind| == 4 && kind[0] / 32 % 2 == 1
    requires v == 0x100_0000 * kind[0] as int + 0x1_0000 * kind[1] as int + 256 * kind[2] as int + kind[3] as int
    ensures v / 0x2000_0000 % 2 == 1
  {
    var k, rest := kind[0] as int, 0x1_0000 * kind[1] as int + 256 * kind[2] as int + kind[3] as int;
    assert 0 <= rest < 0x100_0000;
    assert k == 32 * (k / 32) + k % 32;
    assert v == 0x2000_0000 * (k / 32) + (0x100_0000 * (k % 32) + rest);
    Quotient(v, k / 32, 0x100_0000 * (k % 32) + rest);
  }

  lemma Quotient(v: nat, q: nat, m: nat)
    requires v == 0x2000_0000 * q + m && m < 0x2000_0000
    ensures v / 0x2000_0000 == q
  {
  }

  /** Ancillary chunks are passed over, and pieces of data are joined. */
  lemma PartReads(file: seq<byte>, p: nat, part: Part, h: Header, idata: seq<byte>, maxAlloc: nat)
    requires PartOk(part) && PartAt(file, p, part) && |idata| + |DataOf([part])| < 0x8000_0000
    ensures Chunks(file, p, Some(h), idata, maxAlloc)
         == Chunks(file, p + PartSize(part), Some(h), idata + DataOf([part]), maxAlloc)
  {
    hide Decompress, ReadHeader, Be32At;
    match part {
      case Data(bytes) =>
        KindReads(file, p, [73, 68, 65, 84], bytes);
        assert DataOf([part]) == bytes;
      case Other(kind, body) =>
        KindReads(file, p, kind, body);
        AncillaryBit(kind, Be32At(file, p + 4));
        assert DataOf([part]) == [] && idata + [] == idata;
        NotTransparency(kind, Be32At(file, p + 4));
    }
  }

  lemma NotTransparency(kind: seq<byte>, v: nat)
    requires |kind| == 4 && kind != [116, 82, 78, 83]
    requires v == 0x100_0000 * kind[0] as int + 0x1_0000 * kind[1] as int + 256 * kind[2] as int + kind[3] as int
    ensures v != TRNS
  {
    if v == TRNS { KindsDiffer(kind, [116, 82, 78, 83]); }
  }

  /** Behind the header, the file means the decompression of all its data, joined. */
  lemma {:induction false} PartsRead(file: seq<byte>, p: nat, parts: seq<Part>, end: nat, h: Header, idata: seq<byte>, maxAlloc: nat)
    requires PartsAt(file, p, parts, end) && ChunkAt(file, end, [73, 69, 78, 68], [])
    requires 0 < |idata + DataOf(parts)| < 0x8000_0000
    ensures Chunks(file, p, Some(h), idata, maxAlloc) == Decompress(h, idata + DataOf(parts), maxAlloc)
    decreases |parts|
  {
    hide Decompress, ReadHeader, Be32At, ChunkAt;
    if parts == [] {
      KindReads(file, end, [73, 69, 78, 68], []);
      assert idata + [] == idata;
      EndFits(file, end);
    } else {
      hide Chunks, PartAt;
      var part, rest := parts[0], parts[1..];
      JoinedSize(idata, part, parts);
      PartReads(file, p, part, h, idata, maxAlloc);
      PartsRead(file, p + PartSize(part), rest, end, h, idata + DataOf([part]), maxAlloc);
    }
  }

  lemma EndFits(file: seq<byte>, end: nat)
    requires ChunkAt(file, end, [73, 69, 78, 68], [])
    ensures end < |file|
  {
  }

  lemma JoinedSize(idata: seq<byte>, part: Part, parts: seq<Part>)
    requires parts != [] && part == parts[0]
    ensures idata + DataOf(parts) == idata + DataOf([part]) + DataOf(parts[1..])
    ensures |idata| + |DataOf([part])| <= |idata + DataOf(parts)|
  {
    var piece, rest := if part.Data? then part.bytes else [], DataOf(parts[1..]);
    assert [part][1..] == [];
    assert DataOf([part]) == piece + DataOf([]) == piece;
    assert DataOf(parts) == piece + rest;
    hide DataOf;
    assert idata + (piece + rest) == idata + piece + rest;
  }

  /** The header chunk at p of an eight-bit image: grey, grey with alpha, colour, colour with alpha. */
  predicate HeaderAt(file: seq<byte>, p: nat, x: nat, y: nat, n: nat, interlaced: bool)
    requires 1 <= n <= 4
  {
    && p + 25 <= |file| && BigEndian(file, p, 13) && file[p + 4..p + 8] == [73, 72, 68, 82]
    && BigEndian(file, p + 8, x) && BigEndian(file, p + 12, y)
    && file[p + 16] == 8 && file[p + 17] == (if n == 1 then 0 else if n == 2 then 4 else if n == 3 then 2 else 6)
    && file[p + 18] == 0 && file[p + 19] == 0 && file[p + 20] == if interlaced then 1 else 0
  }

  lemma HeaderIsRead(file: seq<byte>, p: nat, x: nat, y: nat, n: nat, interlaced: bool)
    requires 1 <= n <= 4 && HeaderAt(file, p, x, y, n, interlaced)
    requires 0 < x <= 0x100_0000 && 0 < y <= 0x100_0000 && 0x4000_0000 / x / n >= y
    ensures p + 25 <= |file| && Be32At(file, p) == 13 && Be32At(file, p + 4) == IHDR
    ensures ReadHeader(file, p + 8) == Accepted(Header(x, y, n, interlaced))
  {
    var s := file[p + 4..p + 8];
    assert file[p + 4] == s[0] && file[p + 5] == s[1] && file[p + 6] == s[2] && file[p + 7] == s[3];
  }

  /** Whatever the checksums: a file of signature, header, parts and end parses to its joined data, decompressed. */
  lemma FileReads(file: seq<byte>, x: nat, y: nat, n: nat, interlaced: bool, parts: seq<Part>, end: nat, maxAlloc: nat)
    requires |file| >= 8 && file[..8] == [137, 80, 78, 71, 13, 10, 26, 10]
    requires 1 <= n <= 4 && HeaderAt(file, 8, x, y, n, interlaced)
    requires 0 < x <= 0x100_0000 && 0 < y <= 0x100_0000 && 0x4000_0000 / x / n >= y
    requires PartsAt(file, 33, parts, end) && ChunkAt(file, end, [73, 69, 78, 68], [])
    requires 0 < |DataOf(parts)| < 0x8000_0000
    ensures ParseFile(file, maxAlloc) == Decompress(Header(x, y, n, interlaced), DataOf(parts), maxAlloc)
  {
    hide Decompress, ReadHeader, Be32At, ChunkAt, PartsAt, HeaderAt, DataOf;
    SignatureStands(file);
    HeaderIsRead(file, 8, x, y, n, interlaced);
    var h := Header(x, y, n, interlaced);
    HeaderTaken(file, h, maxAlloc);
    hide Chunks;
    assert [] + DataOf(parts) == DataOf(parts);
    PartsRead(file, 33, parts, end, h, [], maxAlloc);
  }

  lemma HeaderTaken(file: seq<byte>, h: Header, maxAlloc: nat)
    requires |file| > 8 && Be32At(file, 8) == 13 && Be32At(file, 12) == IHDR && ReadHeader(file, 16) == Accepted(h)
    ensures Chunks(file, 8, None, [], maxAlloc) == Chunks(file, 33, Some(h), [], maxAlloc)
  {
    hide Decompress, ReadHeader, Be32At;
  }

  lemma SignatureStands(file: seq<byte>)
    requires |file| >= 8 && file[..8] == [137, 80, 78, 71, 13, 10, 26, 10]
    ensures HasSignature(file)
  {
    var s := file[..8];
    forall i | 0 <= i < 8
      ensures ByteAt(file, i) == SIGNATURE[i]
    {
      assert s[i] == file[i];
    }
  }

  // ---- what is rejected ----

  /** Only such headers are accepted. */
  lemma HeaderAcceptedOnlyIf(file: seq<byte>, p: nat)
    requires p + 25 <= |file| && ReadHeader(file, p + 8).Accepted?
    ensures var h := ReadHeader(file, p + 8).header;
      && 1 <= h.n <= 4 && 0 < h.x <= 0x100_0000 && 0 < h.y <= 0x100_0000 && 0x4000_0000 / h.x / h.n >= h.y
      && (BigEndian(file, p, 13) && file[p + 4..p + 8] == [73, 72, 68, 82] ==> HeaderAt(file, p, h.x, h.y, h.n, h.interlaced))
  {
    var color := file[p + 17];
    assert color == 0 || color == 2 || color == 4 || color == 6;
  }

  /** A chunk of the kind with a body of the length begins at p. */
  predicate ChunkBegins(file: seq<byte>, p: nat, kind: seq<byte>, length: nat)
    requires |kind| == 4
  {
    p + 8 <= |file| && BigEndian(file, p, length) && file[p + 4..p + 8] == kind
  }

  lemma BeginReads(file: seq<byte>, p: nat, kind: seq<byte>, length: nat)
    requires |kind| == 4 && ChunkBegins(file, p, kind, length)
    ensures p < |file| && Be32At(file, p) == length
    ensures Be32At(file, p + 4)
         == 0x100_0000 * kind[0] as int + 0x1_0000 * kind[1] as int + 256 * kind[2] as int + kind[3] as int
  {
    var s := file[p + 4..p + 8];
    assert file[p + 4] == s[0] && file[p + 5] == s[1] && file[p + 6] == s[2] && file[p + 7] == s[3];
  }

  /** The file is over before the end chunk. */
  lemma Unfinished(file: seq<byte>, p: nat, header: PngFilter.Option<Header>, idata: seq<byte>, maxAlloc: nat)
    requires p >= |file|
    ensures Chunks(file, p, header, idata, maxAlloc) == Rejected
  {
  }

  /** A second header, a header of another size, or any other chunk before the header. */
  lemma HeaderMisplaced(file: seq<byte>, p: nat, kind: seq<byte>, length: nat, header: PngFilter.Option<Header>,
                        idata: seq<byte>, maxAlloc: nat)
    requires |kind| == 4 && ChunkBegins(file, p, kind, length) && kind != [67, 103, 66, 73]
    requires if kind == [73, 72, 68, 82] then header.Some? || length != 13 else header.None?
    ensures Chunks(file, p, header, idata, maxAlloc) == Rejected
  {
    hide Decompress, ReadHeader, Be32At;
    var v := Be32At(file, p + 4);
    BeginReads(file, p, kind, length);
    if v == IHDR { KindsDiffer(kind, [73, 72, 68, 82]); }
    if v == CGBI { KindsDiffer(kind, [67, 103, 66, 73]); }
  }

  /** The end before any data; data that the file does not hold; a chunk no reader may pass over. */
  lemma ChunkUnusable(file: seq<byte>, p: nat, kind: seq<byte>, length: nat, h: Header, idata: seq<byte>, maxAlloc: nat)
    requires |kind| == 4 && ChunkBegins(file, p, kind, length)
    requires
      || (kind == [73, 69, 78, 68] && idata == [])
      || (kind == [73, 68, 65, 84] && (p + 8 + length > |file| || |idata| + length >= 0x8000_0000))
      || (kind[0] / 32 % 2 == 0 && kind !in [[73, 72, 68, 82], [67, 103, 66, 73], [80, 76, 84, 69], [73, 68, 65, 84], [73, 69, 78, 68]])
      || (kind[0] / 32 % 2 == 1 && kind != [116, 82, 78, 83] && length >= 0x8000_0000)
    ensures Chunks(file, p, Some(h), idata, maxAlloc) == Rejected
  {
    hide Decompress, ReadHeader, Be32At;
    var v := Be32At(file, p + 4);
    BeginReads(file, p, kind, length);
    if v == IHDR { KindsDiffer(kind, [73, 72, 68, 82]); }
    if v == CGBI { KindsDiffer(kind, [67, 103, 66, 73]); }
    if v == PLTE { KindsDiffer(kind, [80, 76, 84, 69]); }
    if v == TRNS { KindsDiffer(kind, [116, 82, 78, 83]); }
    if v == IDAT { KindsDiffer(kind, [73, 68, 65, 84]); }
    if v == IEND { KindsDiffer(kind, [73, 69, 78, 68]); }
    if kind[0] / 32 % 2 == 0 { CriticalBit(kind, v); }
  }

  lemma CriticalBit(kind: seq<byte>, v: nat)
    requires |kind| == 4 && kind[0] / 32 % 2 == 0
    requires v == 0x100_0000 * kind[0] as int + 0x1_0000 * kind[1] as int + 256 * kind[2] as int + kind[3] as int
    ensures v / 0x2000_0000 % 2 == 0
  {
    var k, rest := kind[0] as int, 0x1_0000 * kind[1] as int + 256 * kind[2] as int + kind[3] as int;
    assert 0 <= rest < 0x100_0000;
    assert k == 32 * (k / 32) + k % 32;
    assert v == 0x2000_0000 * (k / 32) + (0x100_0000 * (k % 32) + rest);
    Quotient(v, k / 32, 0x100_0000 * (k % 32) + rest);
  }
}
