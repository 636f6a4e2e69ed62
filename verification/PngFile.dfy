/** The PNG container: what the writer puts around the compressed rows, and the reader's
    chunk loop as a function of the file and as code over a reading context. */
module PngFile {
  import opened Bits
  import opened PngFilter
  import opened Inflate
  import opened ZBufs
  import opened ZlibRoundTrip
  import opened Contexts

  // ---- big-endian numbers and chunks ----

  function Be32(v: nat): (s: seq<byte>)
    ensures |s| == 4
  {
    [v / 0x100_0000 % 256, v / 0x1_0000 % 256, v / 256 % 256, v % 256]
  }

  const SIGNATURE: seq<byte> := [137, 80, 78, 71, 13, 10, 26, 10]
  const IHDR := 0x49484452
  const IDAT := 0x49444154
  const IEND := 0x49454E44
  const CGBI := 0x43674249
  const PLTE := 0x504C5445
  const TRNS := 0x74524E53

  /** Any checksum: the reader skips it. */
  type Checksum = seq<byte> -> nat

  function Chunk(kind: nat, body: seq<byte>, crc: Checksum): seq<byte> {
    Be32(|body|) + Be32(kind) + body + Be32(crc(Be32(kind) + body))
  }

  function ColorType(n: nat): byte {
    if n == 1 then 0 else if n == 2 then 4 else if n == 3 then 2 else 6
  }

  function HeaderBody(x: nat, y: nat, n: nat): seq<byte> {
    Be32(x) + Be32(y) + [8, ColorType(n), 0, 0, 0]
  }

  /** The bytes of a file with one data chunk. */
  function PngBytes(x: nat, y: nat, n: nat, zlib: seq<byte>, crc: Checksum): seq<byte> {
    SIGNATURE + (Chunk(IHDR, HeaderBody(x, y, n), crc) + (Chunk(IDAT, zlib, crc) + Chunk(IEND, [], crc)))
  }

  // ---- reading ----

  datatype Header = Header(x: nat, y: nat, n: nat, interlaced: bool)

  /** The header and the decompressed rows; or a rejected file; or a file using a feature
      that this model does not cover. */
  datatype Parsed = Parsed(header: Header, raw: seq<byte>) | Rejected | NotModelled

  datatype HeaderRead = Accepted(header: Header) | BadHeader | OtherFormat

  /** Bytes per pixel of a colour type; a palette expands to four. */
  function Components(color: byte): (n: nat)
    ensures 1 <= n <= 4
  {
    if color == 3 then 4 else (if color / 2 % 2 == 1 then 3 else 1) + (if color / 4 % 2 == 1 then 1 else 0)
  }

  predicate TooLarge(x: nat, y: nat, n: nat)
    requires x > 0 && n > 0
  {
    0x4000_0000 / x / n < y
  }

  /** The checks on the thirteen header bytes at p, in order. */
  function ReadHeader(file: seq<byte>, p: nat): (r: HeaderRead)
    ensures r.Accepted? ==> 0 < r.header.x && 0 < r.header.y && 1 <= r.header.n <= 4
    ensures r.Accepted? ==> 0x4000_0000 / r.header.x / r.header.n >= r.header.y
  {
    var x, y := Be32At(file, p), Be32At(file, p + 4);
    var depth, color := ByteAt(file, p + 8), ByteAt(file, p + 9);
    if x > 0x100_0000 || y > 0x100_0000 then BadHeader
    else if depth != 1 && depth != 2 && depth != 4 && depth != 8 && depth != 16 then BadHeader
    else if color > 6 || (color == 3 && depth == 16) || (color != 3 && color % 2 == 1) then BadHeader
    else if ByteAt(file, p + 10) != 0 || ByteAt(file, p + 11) != 0 || ByteAt(file, p + 12) > 1 then BadHeader
    else if x == 0 || y == 0 then BadHeader
    else
      var n := Components(color);
      if TooLarge(x, y, n) then BadHeader
      else if color == 3 || depth != 8 then OtherFormat
      else Accepted(Header(x, y, n, ByteAt(file, p + 12) == 1))
  }

  /** The first guess at the decompressed size, which is exact for files without interlacing. */
  function RawLength(h: Header): nat {
    h.x * h.y * h.n + h.y
  }

  ghost function Decompress(h: Header, idata: seq<byte>, maxAlloc: nat): Parsed {
    match Zlib(idata, true, Room(RawLength(h), true, maxAlloc))
    case Done(_, raw) => Parsed(h, raw)
    case Corrupt => Rejected
    case Reserved => NotModelled
  }

  /** The chunks from p on, after `header` if it has been read, with the data so far. */
  ghost function Chunks(file: seq<byte>, p: nat, header: PngFilter.Option<Header>, idata: seq<byte>, maxAlloc: nat): Parsed
    decreases |file| - p
  {
    var length, kind := Be32At(file, p), Be32At(file, p + 4);
    if p >= |file| then Rejected
    else if kind == IHDR then
      if header.Some? || length != 13 then Rejected
      else
        match ReadHeader(file, p + 8)
        case BadHeader => Rejected
        case OtherFormat => NotModelled
        case Accepted(h) => Chunks(file, p + 25, Some(h), idata, maxAlloc)
    else if kind == CGBI then NotModelled
    else if header.None? then Rejected
    else if kind == PLTE || kind == TRNS then NotModelled
    else if kind == IDAT then
      if |idata| + length >= 0x8000_0000 || p + 8 + length > |file| then Rejected
      else Chunks(file, p + 12 + length, header, idata + file[p + 8..p + 8 + length], maxAlloc)
    else if kind == IEND then
      if idata == [] then Rejected else Decompress(header.value, idata, maxAlloc)
    else if kind / 0x2000_0000 % 2 == 0 || length >= 0x8000_0000 then Rejected
    else Chunks(file, p + 12 + length, header, idata, maxAlloc)
  }

  predicate HasSignature(file: seq<byte>) {
    forall i :: 0 <= i < 8 ==> ByteAt(file, i) == SIGNATURE[i]
  }

  ghost function ParseFile(file: seq<byte>, maxAlloc: nat): Parsed {
    if HasSignature(file) then Chunks(file, 8, None, [], maxAlloc) else Rejected
  }

  // ---- the reader's code ----

  method CheckPngHeader(s: Context) returns (ok: bool)
    requires s.pos == 0
    modifies s
    ensures ok <==> HasSignature(s.file)
    ensures ok ==> s.AtOrPast(8)
  {
    for i := 0 to 8
      invariant s.AtOrPast(i) && forall k :: 0 <= k < i ==> ByteAt(s.file, k) == SIGNATURE[k]
    {
      var b := s.Byte(i);
      if b != SIGNATURE[i] { return false; }
    }
    ok := true;
  }

  /** Reads the header chunk's body. */
  method ReadIhdr(s: Context, ghost p: nat) returns (r: HeaderRead)
    requires s.AtOrPast(p)
    modifies s
    ensures r == ReadHeader(s.file, p)
    ensures r.Accepted? ==> s.AtOrPast(p + 13)
  {
    hide Be32At, ByteAt, TooLarge;
    var x := s.Get32be(p);
    if x > 0x100_0000 { return BadHeader; }
    var y := s.Get32be(p + 4);
    if y > 0x100_0000 { return BadHeader; }
    var depth := s.Byte(p + 8);
    if depth != 1 && depth != 2 && depth != 4 && depth != 8 && depth != 16 { return BadHeader; }
    var color := s.Byte(p + 9);
    if color > 6 { return BadHeader; }
    if color == 3 && depth == 16 { return BadHeader; }
    if color != 3 && color % 2 == 1 { return BadHeader; }
    var comp := s.Byte(p + 10);
    if comp != 0 { return BadHeader; }
    var filter := s.Byte(p + 11);
    if filter != 0 { return BadHeader; }
    var interlace := s.Byte(p + 12);
    if interlace > 1 { return BadHeader; }
    if x == 0 || y == 0 { return BadHeader; }
    var n := Components(color);
    if TooLarge(x, y, n) { return BadHeader; }
    if color == 3 || depth != 8 { return OtherFormat; }
    r := Accepted(Header(x, y, n, interlace == 1));
  }

  /** Decompresses the collected data. */
  method ExpandData(h: Header, idata: seq<byte>, maxAlloc: nat) returns (r: Parsed)
    requires RawLength(h) > 0
    ensures r == Decompress(h, idata, maxAlloc)
  {
    hide Zlib;
    var status, raw := ZlibDecode(idata, RawLength(h), true, maxAlloc, true);
    r := if status == Success then Parsed(h, raw) else if status == Failure then Rejected else NotModelled;
  }

  /** The chunk loop. */
  method ParsePngFile(file: seq<byte>, maxAlloc: nat) returns (r: Parsed)
    ensures r == ParseFile(file, maxAlloc)
  {
    hide Zlib, HasSignature, Decompress, Be32At, ReadHeader;
    var s := new Context(file);
    var ok := CheckPngHeader(s);
    if !ok { return Rejected; }
    var header: PngFilter.Option<Header>, idata: seq<byte> := None, [];
    ghost var p := 8;
    while true
      invariant s.file == file && s.AtOrPast(p)
      invariant header.Some? ==> RawLength(header.value) > 0
      invariant Chunks(file, p, header, idata, maxAlloc) == ParseFile(file, maxAlloc)
      decreases |file| - p
    {
      ghost var q := p;
      if s.pos >= |file| {
        PastEnd(file, p);
      }
      var length := s.Get32be(p);
      var kind := s.Get32be(p + 4);
      if kind == IHDR {
        if header.Some? { return Rejected; }
        if length != 13 { return Rejected; }
        var h := ReadIhdr(s, p + 8);
        if h.BadHeader? { return Rejected; }
        if h.OtherFormat? { return NotModelled; }
        header := Some(h.header);
        RawPositive(h.header);
        p := p + 21;
      } else if kind == CGBI {
        return NotModelled;
      } else if header.None? {
        return Rejected;
      } else if kind == PLTE || kind == TRNS {
        return NotModelled;
      } else if kind == IDAT {
        if |idata| + length >= 0x8000_0000 { return Rejected; }
        NoChunkPastEnd(file, p + 12 + length, header, idata, maxAlloc);
        var bytes;
        ok, bytes := s.Getn(length, p + 8);
        if !ok { return Rejected; }
        idata := idata + bytes;
        p := p + 8 + length;
      } else if kind == IEND {
        if idata == [] { return Rejected; }
        r := ExpandData(header.value, idata, maxAlloc);
        return;
      } else {
        if kind / 0x2000_0000 % 2 == 0 { return Rejected; }
        s.Skip(length, p + 8);
        NoChunkPastEnd(file, |file| + 4, header, idata, maxAlloc);
        p := if length >= 0x8000_0000 then |file| else p + 8 + length;
      }
      var crc := s.Get32be(p);
      p := p + 4;
    }
  }

  lemma PastEnd(file: seq<byte>, p: nat)
    requires p >= |file|
    ensures Be32At(file, p) == 0 && Be32At(file, p + 4) == 0
  {
  }

  lemma NoChunkPastEnd(file: seq<byte>, p: nat, header: PngFilter.Option<Header>, idata: seq<byte>, maxAlloc: nat)
    ensures p >= |file| ==> Chunks(file, p, header, idata, maxAlloc) == Rejected
  {
  }

  lemma RawPositive(h: Header)
    requires h.x > 0 && h.y > 0 && h.n > 0
    ensures RawLength(h) > 0
  {
    assert 0 <= h.x * h.y * h.n;
  }
}
