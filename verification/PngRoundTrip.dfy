/** Writing an image as PNG and reading the file gives the rows back in the order written. */
module PngRoundTrip {
  import opened Bits
  import opened PngFilter
  import opened Products
  import opened PngWriter
  import opened PngFile
  import opened Contexts
  import opened Adam7
  import opened Inflate
  import opened Lz77
  import opened Deflate
  import opened BitWriters
  import opened ZlibRoundTrip
  import FixedCodes
  import Adler

  // ---- the size of the compressed data ----

  /** No token takes more than nine bits per byte it stands for. */
  lemma TokenSize(t: Token, n: nat)
    requires Sound(t, n)
    ensures |TokenBits(t)| <= 9 * TokenLength(t)
  {
    match t {
      case Literal(v) =>
      case Reference(len, dist) =>
        hide CodeBits, DistSymbol, LengthSymbol;
        ReferenceSize(LengthSymbol(len, 0), len);
        assert |CodeBits(LengthSymbol(len, 0) + 257)| == FixedCodes.FixedSize(LengthSymbol(len, 0) + 257) by {
          CodeBitsLength(LengthSymbol(len, 0) + 257);
        }
    }
  }

  lemma CodeBitsLength(n: nat)
    requires n < 288
    ensures |CodeBits(n)| == FixedCodes.FixedSize(n)
  {
  }

  lemma ReferenceSize(j: nat, len: nat)
    requires j < 29 && LengthBase(j) <= len
    ensures FixedCodes.FixedSize(j + 257) + LengthExtra(j) + 5 + 13 <= 9 * len
  {
  }

  lemma {:induction false} TokensSize(out: seq<byte>, tokens: seq<Token>)
    requires AllSound(out, tokens)
    ensures |TokensBits(out, tokens)| <= 9 * (|Expand(out, tokens)| - |out|)
    decreases |tokens|
  {
    if |tokens| > 0 {
      TokenSize(tokens[0], |out|);
      TokensSize(Expand1(out, tokens[0]), tokens[1..]);
      ExpandGrows(out, tokens[0]);
    }
  }

  lemma ExpandGrows(out: seq<byte>, t: Token)
    requires Sound(t, |out|)
    ensures |Expand1(out, t)| == |out| + TokenLength(t)
  {
  }

  /** Compression never grows the data by more than an eighth and 14 bytes. */
  lemma StreamSize(zlib: seq<byte>, tokens: seq<Token>, data: seq<byte>)
    requires IsStream(zlib, tokens, data)
    ensures 0 < 8 * |zlib| <= 9 * |data| + 112
  {
    hide BytesBits, CodeBits;
    var body: seq<byte>, pad: nat :| pad < 8 && BytesBits(body) == BytesBits([0x78, 0x5e]) + Body(tokens, pad)
                       && zlib == body + Adler.Trailer(data);
    TokensSize([], tokens);
    CodeBitsLength(256);
    assert |BytesBits([0x78, 0x5e])| == 16 && |BytesBits(body)| == 8 * |body|;
  }

  // ---- reading what the writer's parts say ----

  lemma Be32Digits(v: nat)
    requires v < 0x1_0000_0000
    ensures 0x100_0000 * (v / 0x100_0000 % 256) + 0x1_0000 * (v / 0x1_0000 % 256) + 256 * (v / 256 % 256) + v % 256 == v
  {
    var a := v / 256;
    var b := a / 256;
    assert v / 0x1_0000 == b && v / 0x100_0000 == b / 256 && b / 256 < 256;
    assert v == 256 * a + v % 256 && a == 256 * b + a % 256 && b == 256 * (b / 256) + b % 256;
  }

  lemma Be32Reads(file: seq<byte>, p: nat, v: nat)
    requires v < 0x1_0000_0000 && p + 4 <= |file| && file[p..p + 4] == Be32(v)
    ensures Be32At(file, p) == v
  {
    var s := file[p..p + 4];
    assert file[p] == s[0] && file[p + 1] == s[1] && file[p + 2] == s[2] && file[p + 3] == s[3];
    Be32Digits(v);
  }

  lemma SubSlice<T>(s: seq<T>, a: nat, b: nat, c: nat, d: nat)
    requires a <= b <= |s| && c <= d <= b - a
    ensures s[a..b][c..d] == s[a + c..a + d]
  {
    var l, r := s[a..b][c..d], s[a + c..a + d];
    forall k | 0 <= k < |l|
      ensures l[k] == r[k]
    {
      assert s[a..b][c + k] == s[a + (c + k)];
    }
  }

  /** A chunk in a file: its length, kind and body are where they should be. */
  lemma ChunkReads(file: seq<byte>, p: nat, kind: nat, body: seq<byte>, crc: Checksum)
    requires kind < 0x1_0000_0000 && |body| < 0x1_0000_0000
    requires p + 12 + |body| <= |file| && file[p..p + 12 + |body|] == Chunk(kind, body, crc)
    ensures Be32At(file, p) == |body| && Be32At(file, p + 4) == kind
    ensures file[p + 8..p + 8 + |body|] == body
  {
    hide Be32;
    var c := Chunk(kind, body, crc);
    var s := file[p..p + 12 + |body|];
    assert c[0..4] == Be32(|body|) && c[4..8] == Be32(kind) && c[8..8 + |body|] == body;
    SubSlice(file, p, p + 12 + |body|, 0, 4);
    SubSlice(file, p, p + 12 + |body|, 4, 8);
    SubSlice(file, p, p + 12 + |body|, 8, 8 + |body|);
    Be32Reads(file, p, |body|);
    Be32Reads(file, p + 4, kind);
  }

  lemma HeaderBodyReads(file: seq<byte>, p: nat, x: nat, y: nat, n: nat)
    requires p + 13 <= |file| && file[p..p + 13] == HeaderBody(x, y, n)
    requires 0 < x <= 0x100_0000 && 0 < y <= 0x100_0000 && 1 <= n <= 4 && 0x4000_0000 / x / n >= y
    ensures ReadHeader(file, p) == Accepted(Header(x, y, n, false))
  {
    hide Be32;
    var s := file[p..p + 13];
    assert s[0..4] == Be32(x) && s[4..8] == Be32(y) && s[8..13] == [8, ColorType(n), 0, 0, 0];
    SubSlice(file, p, p + 13, 0, 4);
    SubSlice(file, p, p + 13, 4, 8);
    Be32Reads(file, p, x);
    Be32Reads(file, p + 4, y);
    TailBytes(file, p, ColorType(n));
  }

  lemma TailBytes(file: seq<byte>, p: nat, c: byte)
    requires p + 13 <= |file| && file[p..p + 13][8..13] == [8, c, 0, 0, 0]
    ensures file[p + 8] == 8 && file[p + 9] == c && file[p + 10] == file[p + 11] == file[p + 12] == 0
  {
    var t := file[p..p + 13][8..13];
    assert t[0] == file[p + 8] && t[1] == file[p + 9] && t[2] == file[p + 10] && t[3] == file[p + 11] && t[4] == file[p + 12];
  }

  /** The chunk loop on a written file reaches the decompression of its data chunk. */
  lemma WrittenFileParses(x: nat, y: nat, n: nat, zlib: seq<byte>, crc: Checksum, maxAlloc: nat)
    requires 0 < x <= 0x100_0000 && 0 < y <= 0x100_0000 && 1 <= n <= 4 && 0x4000_0000 / x / n >= y
    requires 0 < |zlib| < 0x8000_0000
    ensures ParseFile(PngBytes(x, y, n, zlib, crc), maxAlloc) == Decompress(Header(x, y, n, false), zlib, maxAlloc)
  {
    hide Be32, Be32At, HeaderBody, Decompress, ReadHeader;
    var file := PngBytes(x, y, n, zlib, crc);
    var a, b, c := Chunk(IHDR, HeaderBody(x, y, n), crc), Chunk(IDAT, zlib, crc), Chunk(IEND, [], crc);
    HeaderBodyLength(x, y, n);
    var k := |zlib|;
    assert |a| == 25 && |b| == 12 + k && |c| == 12;
    assert file[8..33] == a && file[33..45 + k] == b && file[45 + k..57 + k] == c;
    SignatureReads(x, y, n, zlib, crc);
    ChunkReads(file, 8, IHDR, HeaderBody(x, y, n), crc);
    HeaderBodyReads(file, 16, x, y, n);
    ChunkReads(file, 33, IDAT, zlib, crc);
    ChunkReads(file, 45 + k, IEND, [], crc);
    var h := Header(x, y, n, false);
    assert [] + file[41..41 + k] == zlib;
    assert Chunks(file, 45 + k, Some(h), zlib, maxAlloc) == Decompress(h, zlib, maxAlloc);
    assert Chunks(file, 33, Some(h), [], maxAlloc) == Chunks(file, 45 + k, Some(h), zlib, maxAlloc);
  }

  lemma HeaderBodyLength(x: nat, y: nat, n: nat)
    ensures |HeaderBody(x, y, n)| == 13
  {
  }

  lemma SignatureReads(x: nat, y: nat, n: nat, zlib: seq<byte>, crc: Checksum)
    ensures HasSignature(PngBytes(x, y, n, zlib, crc))
  {
    hide Chunk, HeaderBody;
  }

  // ---- the two programs ----

  /** The reader accepts images of this size. */
  predicate WithinLimits(x: nat, y: nat, n: nat) {
    0 < x <= 0x100_0000 && 0 < y <= 0x100_0000 && 1 <= n <= 4 && 0x4000_0000 / x / n >= y
  }

  /** Writes a PNG file: filters, compresses, wraps. */
  method WritePngToMem(src: Source, forceFilter: int, quality: int, hash: Hash, crc: Checksum)
      returns (file: seq<byte>, ghost zlib: seq<byte>, ghost tokens: seq<Token>, ghost types: seq<nat>)
    requires src.Valid()
    ensures |types| == src.height && forall j :: 0 <= j < src.height ==> types[j] <= 4
    ensures 0 <= forceFilter <= 4 ==> forall j :: 0 <= j < src.height ==> types[j] == forceFilter
    ensures IsStream(zlib, tokens, FilteredRows(src.Rows(src.height), types, src.n, []))
    ensures file == PngBytes(src.width, src.height, src.n, zlib, crc)
  {
    hide IsStream, FilteredRows, HeaderBody, Chunk;
    var forced := if forceFilter >= 5 then -1 else forceFilter;
    var filt;
    filt, types := FilterImage(src, forced);
    var z;
    z, tokens := ZlibCompress(filt[..], quality, hash);
    zlib := z;
    file := SIGNATURE
      + (Chunk(IHDR, HeaderBody(src.width, src.height, src.n), crc) + (Chunk(IDAT, z, crc) + Chunk(IEND, [], crc)));
  }

  datatype Loaded = Loaded(x: nat, y: nat, n: nat, pixels: seq<byte>) | LoadFailed | LoadNotModelled

  /** What loading a parsed file must yield. */
  ghost predicate IsLoaded(r: Loaded, p: Parsed) {
    match p
    case Rejected => r == LoadFailed
    case NotModelled => r == LoadNotModelled
    case Parsed(h, raw) =>
      if h.interlaced then
        match Passes(raw, h.x, h.y, h.n, 0)
        case None => r == LoadFailed
        case Some(images) =>
          r == Loaded(h.x, h.y, h.n, if r.Loaded? then r.pixels else [])
          && Deinterlaced(r.pixels, images, h.x, h.y, h.n)
      else
        match UnfilterRows(raw, h.y, h.x * h.n, h.n, [])
        case None => r == LoadFailed
        case Some(image) => r == Loaded(h.x, h.y, h.n, image)
  }

  /** Loads a PNG file. */
  method LoadPng(file: seq<byte>, maxAlloc: nat) returns (r: Loaded)
    ensures IsLoaded(r, ParseFile(file, maxAlloc))
  {
    hide Deinterlaced, Passes, UnfilterRows;
    var p := ParsePngFile(file, maxAlloc);
    ParsedSizes(file, maxAlloc);
    match p {
      case Rejected => return LoadFailed;
      case NotModelled => return LoadNotModelled;
      case Parsed(h, raw) =>
        var ok, out;
        if h.interlaced {
          ok, out := Deinterlace(raw, h.n, h.x, h.y);
        } else {
          ok, out := CreatePngImageRaw(raw, h.n, h.x, h.y);
        }
        r := if ok then Loaded(h.x, h.y, h.n, out[..]) else LoadFailed;
    }
  }

  lemma {:induction false} ChunkSizes(file: seq<byte>, p: nat, header: PngFilter.Option<Header>, idata: seq<byte>, maxAlloc: nat)
    requires header.Some? ==> header.value.x > 0 && header.value.y > 0 && header.value.n > 0
    ensures var r := Chunks(file, p, header, idata, maxAlloc);
      r.Parsed? ==> r.header.x > 0 && r.header.y > 0 && r.header.n > 0
    decreases |file| - p
  {
    hide Be32At, Zlib;
    if p < |file| {
      var length, kind := Be32At(file, p), Be32At(file, p + 4);
      if kind == IHDR {
        if ReadHeader(file, p + 8).Accepted? {
          ChunkSizes(file, p + 25, Some(ReadHeader(file, p + 8).header), idata, maxAlloc);
        }
      } else {
        ChunkSizes(file, p + 12 + length, header, idata, maxAlloc);
        if p + 8 + length <= |file| {
          ChunkSizes(file, p + 12 + length, header, idata + file[p + 8..p + 8 + length], maxAlloc);
        }
      }
    }
  }

  lemma ParsedSizes(file: seq<byte>, maxAlloc: nat)
    ensures var r := ParseFile(file, maxAlloc); r.Parsed? ==> r.header.x > 0 && r.header.y > 0 && r.header.n > 0
  {
    ChunkSizes(file, 8, None, [], maxAlloc);
  }

  /** The file written for an image parses and decodes to its rows, top to bottom as written:
      for every filter choice, compression and checksum, and any spare memory. */
  lemma WrittenImageLoads(src: Source, zlib: seq<byte>, tokens: seq<Token>, types: seq<nat>, crc: Checksum, maxAlloc: nat)
    requires src.Valid() && WithinLimits(src.width, src.height, src.n)
    requires |types| == src.height && forall j :: 0 <= j < src.height ==> types[j] <= 4
    requires IsStream(zlib, tokens, FilteredRows(src.Rows(src.height), types, src.n, []))
    ensures ParseFile(PngBytes(src.width, src.height, src.n, zlib, crc), maxAlloc)
         == Parsed(Header(src.width, src.height, src.n, false), FilteredRows(src.Rows(src.height), types, src.n, []))
    ensures UnfilterRows(FilteredRows(src.Rows(src.height), types, src.n, []), src.height, src.RowBytes(), src.n, [])
         == Some(Concat(src.Rows(src.height)))
  {
    hide PngBytes, ParseFile, FilteredRows, IsStream, Source.Rows, Source.Row, UnfilterRows, Zlib, Concat;
    var rows := src.Rows(src.height);
    var data := FilteredRows(rows, types, src.n, []);
    var h := Header(src.width, src.height, src.n, false);
    FilteredRowsLength(rows, types, src.RowBytes(), src.n, []);
    RawSize(src.width, src.height, src.n);
    StreamSize(zlib, tokens, data);
    WrittenFileParses(src.width, src.height, src.n, zlib, crc, maxAlloc);
    var room := Room(RawLength(h), true, maxAlloc);
    var end := StreamMeansData(zlib, tokens, data, room);
    ImageInverse(rows, types, src.RowBytes(), src.n, [], []);
    assert data + [] == data;
  }

  /** The reader's size guess is the size of the filtered rows, which is below 2^30 + 2^24. */
  lemma RawSize(x: nat, y: nat, n: nat)
    requires WithinLimits(x, y, n)
    ensures Times(x * n + 1, y) == x * y * n + y <= 0x4000_0000 + 0x100_0000
  {
    TimesIsProduct(x * n + 1, y);
    OneMore(x, y, n);
    Quotients(x, y, n);
  }

  lemma OneMore(x: nat, y: nat, n: nat)
    ensures (x * n + 1) * y == x * y * n + y
  {
    assert x * n * y == x * y * n;
  }

  lemma Quotients(x: nat, y: nat, n: nat)
    requires x > 0 && n > 0 && 0x4000_0000 / x / n >= y
    ensures x * y * n <= 0x4000_0000
  {
    var q := 0x4000_0000 / x;
    assert y * n <= q by {
      assert q / n * n <= q;
      MulLe(y, q / n, n);
    }
    assert q * x <= 0x4000_0000;
    MulLe(y * n, q, x);
    assert y * n * x == x * y * n;
  }

  lemma MulLe(a: nat, b: nat, c: nat)
    requires a <= b
    ensures a * c <= b * c
  {
    assert (b - a) * c >= 0;
  }

  /** Write, then read: the pixels come back in the order written. */
  method WriteThenRead(src: Source, forceFilter: int, quality: int, hash: Hash, crc: Checksum, maxAlloc: nat)
      returns (r: Loaded)
    requires src.Valid() && WithinLimits(src.width, src.height, src.n)
    ensures r == Loaded(src.width, src.height, src.n, Concat(src.Rows(src.height)))
  {
    hide IsStream, FilteredRows, PngBytes, ParseFile, UnfilterRows, Concat, Source.Rows, Source.Valid;
    var file, zlib, tokens, types := WritePngToMem(src, forceFilter, quality, hash, crc);
    WrittenImageLoads(src, zlib, tokens, types, crc, maxAlloc);
    r := LoadPng(file, maxAlloc);
  }

  /** Byte k of row j of the loaded image is the source's byte k of the row written as number j. */
  lemma {:induction false} LoadedPixel(src: Source, rows: nat, j: nat, k: nat)
    requires src.Valid() && j < rows <= src.height && k < src.RowBytes()
    ensures |Concat(src.Rows(rows))| == Times(src.RowBytes(), rows)
    ensures Times(src.RowBytes(), j) + k < Times(src.RowBytes(), rows)
    ensures 0 <= src.Start(j) + k < |src.pixels|
    ensures Concat(src.Rows(rows))[Times(src.RowBytes(), j) + k] == src.pixels[src.Start(j) + k]
  {
    src.StartInside(j);
    TimesSplit(src.RowBytes(), j, rows);
    var w := src.RowBytes();
    ConcatSize(src.Rows(rows), w);
    ConcatIndex(src.Rows(rows), w, j, k);
    assert src.Rows(rows)[j] == src.Row(j);
  }

  lemma {:induction false} ConcatSize(rows: seq<seq<byte>>, w: nat)
    requires forall j :: 0 <= j < |rows| ==> |rows[j]| == w
    ensures |Concat(rows)| == Times(w, |rows|)
  {
    if |rows| > 0 { ConcatSize(rows[1..], w); }
  }

  lemma {:induction false} ConcatIndex(rows: seq<seq<byte>>, w: nat, j: nat, k: nat)
    requires (forall i :: 0 <= i < |rows| ==> |rows[i]| == w) && j < |rows| && k < w
    ensures |Concat(rows)| == Times(w, |rows|) && Times(w, j) + k < Times(w, |rows|)
    ensures Concat(rows)[Times(w, j) + k] == rows[j][k]
  {
    ConcatSize(rows, w);
    TimesSplit(w, j, |rows|);
    if j > 0 {
      ConcatSize(rows[1..], w);
      ConcatIndex(rows[1..], w, j - 1, k);
      assert rows[1..][j - 1] == rows[j];
    }
  }

  /** A caller's stride of zero means rows without gaps. */
  function FromCaller(pixels: seq<byte>, stride: nat, x: nat, y: nat, n: nat, flip: bool): Source {
    Source(pixels, if stride == 0 then x * n else stride, x, y, n, flip)
  }

  /** Byte k of loaded row j is the caller's byte k of that row; if flipped the rows come last row first. */
  ghost predicate SameByte(loaded: seq<byte>, src: Source, j: nat, k: nat) {
    var at, from := Times(src.RowBytes(), j) + k, src.stride * (if src.flip then src.height - 1 - j else j) + k;
    0 <= at < |loaded| && 0 <= from < |src.pixels| && loaded[at] == src.pixels[from]
  }

  lemma LoadedRows(src: Source)
    requires src.Valid()
    ensures |Concat(src.Rows(src.height))| == Times(src.RowBytes(), src.height)
    ensures forall j: nat, k: nat :: j < src.height && k < src.RowBytes() ==>
      SameByte(Concat(src.Rows(src.height)), src, j, k)
  {
    hide Concat, Source.Rows, SameByte;
    LoadedPixel(src, src.height, 0, 0);
    forall j: nat, k: nat | j < src.height && k < src.RowBytes()
      ensures SameByte(Concat(src.Rows(src.height)), src, j, k)
    {
      RowByte(src, j, k);
    }
  }

  lemma RowByte(src: Source, j: nat, k: nat)
    requires src.Valid() && j < src.height && k < src.RowBytes()
    ensures SameByte(Concat(src.Rows(src.height)), src, j, k)
  {
    LoadedPixel(src, src.height, j, k);
  }

  /** As a caller sees it, a stride of zero included: every byte of every row comes back in its place. */
  method SaveThenLoad(pixels: seq<byte>, stride: nat, x: nat, y: nat, n: nat, flip: bool, forceFilter: int,
                      quality: int, hash: Hash, crc: Checksum, maxAlloc: nat)
      returns (r: Loaded)
    requires FromCaller(pixels, stride, x, y, n, flip).Valid() && WithinLimits(x, y, n)
    ensures r.Loaded? && r.x == x && r.y == y && r.n == n && |r.pixels| == Times(x * n, y)
    ensures forall j: nat, k: nat :: j < y && k < x * n ==>
      SameByte(r.pixels, FromCaller(pixels, stride, x, y, n, flip), j, k)
  {
    hide WithinLimits, Concat, Source.Rows, Source.Valid, SameByte;
    var src := FromCaller(pixels, stride, x, y, n, flip);
    r := WriteThenRead(src, forceFilter, quality, hash, crc, maxAlloc);
    LoadedRows(src);
  }
}
