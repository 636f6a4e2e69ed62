/** Whole TGA images: the writer's rows of packets behind an 18-byte header, the reader's
    pixel loop, in-place inversion and colour swap, and the round trip through both. */
module TgaImage {
  import opened Bits
  import opened Inflate
  import opened Contexts
  import opened Tga
  import opened Products

  // ---- rows and images of packets ----

  datatype Packet = Packet(len: nat, diff: bool)

  /** The packets tile the first `end` pixels of the row, each delimited by the writer's rule. */
  ghost predicate Tiles(row: seq<Pixel>, packets: seq<Packet>, end: nat)
    decreases |packets|
  {
    if |packets| == 0 then end == 0
    else
      var p := packets[|packets| - 1];
      p.len <= end <= |row| && PacketRule(row, end - p.len, p.len, p.diff)
      && Tiles(row, packets[..|packets| - 1], end - p.len)
  }

  ghost function RowBytes(row: seq<Pixel>, packets: seq<Packet>, end: nat): seq<byte>
    requires Tiles(row, packets, end)
    decreases |packets|
  {
    if |packets| == 0 then []
    else
      var p := packets[|packets| - 1];
      RowBytes(row, packets[..|packets| - 1], end - p.len) + PacketBytes(row[end - p.len..end], p.diff)
  }

  /** A row's packets deliver its pixels and leave the reader between packets. */
  lemma {:induction false} RowReads(input: seq<byte>, comp: nat, r: Reader, row: seq<Pixel>, packets: seq<Packet>,
                                    end: nat, n: nat) returns (after: Reader)
    requires r.count == 0 && Whole(row, comp) && Tiles(row, packets, end) && end <= |row| && end <= n
    requires HasBytes(input, r.pos, RowBytes(row, packets, end))
    ensures after.count == 0 && after.pos == r.pos + |RowBytes(row, packets, end)|
    ensures ReadPixels(input, comp, r, n) == SwapAll(row[..end]) + ReadPixels(input, comp, after, n - end)
    decreases |packets|
  {
    hide HasBytes, PacketBytes, ReadPixels, Swapped, SwapAll, PacketRule, Whole, AllSame;
    if |packets| == 0 {
      after := r;
      assert row[..end] == [] && SwapAll([]) == [];
    } else {
      var p, rest := packets[|packets| - 1], packets[..|packets| - 1];
      var s := end - p.len;
      PacketSlice(row, s, p.len, p.diff, comp);
      hide Tiles;
      assert RowBytes(row, packets, end) == RowBytes(row, rest, s) + PacketBytes(row[s..end], p.diff);
      hide RowBytes;
      HasBytesSplit(input, r.pos, RowBytes(row, rest, s), PacketBytes(row[s..end], p.diff));
      var mid := RowReads(input, comp, r, row, rest, s, n);
      after := PacketReads(input, comp, mid, row[s..end], p.diff, n - s);
      SwapSplit(row, s, end);
      assert SwapAll(row[..s]) + (SwapAll(row[s..end]) + ReadPixels(input, comp, after, n - end))
          == SwapAll(row[..end]) + ReadPixels(input, comp, after, n - end);
    }
  }

  lemma PacketSlice(row: seq<Pixel>, i: nat, len: nat, diff: bool, comp: nat)
    requires PacketRule(row, i, len, diff) && Whole(row, comp)
    ensures 1 <= len <= 128 && i + len <= |row|
    ensures Whole(row[i..i + len], comp) && (!diff ==> AllSame(row[i..i + len]))
  {
  }

  lemma SwapSplit(row: seq<Pixel>, s: nat, end: nat)
    requires s <= end <= |row|
    ensures SwapAll(row[..s]) + SwapAll(row[s..end]) == SwapAll(row[..end])
  {
  }

  /** Writes one row. */
  method WriteRow(row: seq<Pixel>) returns (bytes: seq<byte>, ghost packets: seq<Packet>)
    ensures Tiles(row, packets, |row|) && bytes == RowBytes(row, packets, |row|)
  {
    hide PacketBytes, PacketRule;
    bytes, packets := [], [];
    var i := 0;
    while i < |row|
      invariant i <= |row| && Tiles(row, packets, i) && bytes == RowBytes(row, packets, i)
      decreases |row| - i
    {
      var len, diff := NextPacket(row, i);
      PacketBounds(row, i, len, diff);
      var next := WritePacket(row, i, len, diff);
      ghost var p := Packet(len, diff);
      assert (packets + [p])[..|packets|] == packets;
      bytes := bytes + next;
      packets := packets + [p];
      i := i + len;
    }
  }

  lemma PacketBounds(row: seq<Pixel>, i: nat, len: nat, diff: bool)
    requires PacketRule(row, i, len, diff)
    ensures 1 <= len <= 128 && i + len <= |row|
  {
  }

  lemma PixelBytesStep(pixels: seq<Pixel>, m: nat)
    requires m < |pixels|
    ensures PixelBytes(pixels[m..]) == Swapped(pixels[m]) + PixelBytes(pixels[m + 1..])
  {
    assert pixels[m..][1..] == pixels[m + 1..];
  }

  lemma NoPixelBytes(pixels: seq<Pixel>)
    ensures PixelBytes(pixels[|pixels|..]) == [] && pixels[0..] == pixels
  {
  }

  /** Writes the pixels of a raw packet. */
  method WritePixels(row: seq<Pixel>, i: nat, len: nat) returns (body: seq<byte>)
    requires i + len <= |row|
    ensures body == PixelBytes(row[i..i + len])
  {
    ghost var all := row[i..i + len];
    NoPixelBytes(all);
    hide PixelBytes, Swapped;
    body := [];
    for m := 0 to len
      invariant body + PixelBytes(all[m..]) == PixelBytes(all)
    {
      PixelBytesStep(all, m);
      ghost var pixel, rest := Swapped(all[m]), PixelBytes(all[m + 1..]);
      assert body + (pixel + rest) == body + pixel + rest;
      body := body + Swapped(row[i + m]);
    }
    assert body + [] == body;
  }

  /** Writes the header byte and the pixels of one packet. */
  method WritePacket(row: seq<Pixel>, i: nat, len: nat, diff: bool) returns (bytes: seq<byte>)
    requires 1 <= len <= 128 && i + len <= |row|
    ensures bytes == PacketBytes(row[i..i + len], diff)
  {
    if diff {
      var body := WritePixels(row, i, len);
      bytes := [len - 1] + body;
    } else {
      bytes := [(len - 129) % 256] + Swapped(row[i]);
    }
  }

  /** The rows of an image in file order. */
  ghost function RowsBytes(rows: seq<seq<Pixel>>, packets: seq<seq<Packet>>, k: nat): seq<byte>
    requires k <= |rows| == |packets| && forall r :: 0 <= r < k ==> Tiles(rows[r], packets[r], |rows[r]|)
  {
    if k == 0 then [] else RowsBytes(rows, packets, k - 1) + RowBytes(rows[k - 1], packets[k - 1], |rows[k - 1]|)
  }

  function Concat(rows: seq<seq<Pixel>>, k: nat): seq<Pixel>
    requires k <= |rows|
  {
    if k == 0 then [] else Concat(rows, k - 1) + rows[k - 1]
  }

  lemma {:induction false} RowsRead(input: seq<byte>, comp: nat, r: Reader, rows: seq<seq<Pixel>>,
                                    packets: seq<seq<Packet>>, k: nat, n: nat) returns (after: Reader)
    requires r.count == 0 && k <= |rows| == |packets|
    requires forall j :: 0 <= j < k ==> Whole(rows[j], comp) && Tiles(rows[j], packets[j], |rows[j]|)
    requires |Concat(rows, k)| <= n && HasBytes(input, r.pos, RowsBytes(rows, packets, k))
    ensures after.count == 0 && after.pos == r.pos + |RowsBytes(rows, packets, k)|
    ensures ReadPixels(input, comp, r, n) == SwapAll(Concat(rows, k)) + ReadPixels(input, comp, after, n - |Concat(rows, k)|)
    decreases k
  {
    hide HasBytes, ReadPixels, Swapped, Tiles, RowBytes;
    if k == 0 {
      after := r;
      assert SwapAll([]) == [];
    } else {
      var row := rows[k - 1];
      var before := Concat(rows, k - 1);
      HasBytesSplit(input, r.pos, RowsBytes(rows, packets, k - 1), RowBytes(row, packets[k - 1], |row|));
      var mid := RowsRead(input, comp, r, rows, packets, k - 1, n);
      after := RowReads(input, comp, mid, row, packets[k - 1], |row|, n - |before|);
      assert row[..|row|] == row;
      assert SwapAll(before) + SwapAll(row) == SwapAll(before + row);
      var tail := ReadPixels(input, comp, after, n - |before| - |row|);
      assert SwapAll(before) + (SwapAll(row) + tail) == SwapAll(before) + SwapAll(row) + tail;
    }
  }

  // ---- the writer ----

  /** An image as the caller holds it: rows top to bottom. */
  datatype Image = Image(rows: seq<seq<Pixel>>, width: nat, comp: nat)
  {
    function Height(): nat { |rows| }

    ghost predicate Valid() {
      1 <= comp <= 4 && forall j :: 0 <= j < |rows| ==> |rows[j]| == width && Whole(rows[j], comp)
    }
  }

  /** The rows in file order: bottom row first, unless flipped. */
  function FileRows(img: Image, flip: bool): (r: seq<seq<Pixel>>)
    ensures |r| == |img.rows|
    ensures forall k :: 0 <= k < |r| ==> r[k] == if flip then img.rows[k] else img.rows[|r| - 1 - k]
  {
    seq(|img.rows|, k requires 0 <= k < |img.rows| => if flip then img.rows[k] else img.rows[|img.rows| - 1 - k])
  }

  function Le16(v: nat): seq<byte> {
    [v % 256, v / 256 % 256]
  }

  /** The header: no colour map, run-length type 10 or 11, size, depth and alpha bits. */
  function Header(w: nat, h: nat, comp: nat): (s: seq<byte>)
    requires 1 <= comp <= 4
    ensures |s| == 18
  {
    var alpha := if comp == 2 || comp == 4 then 1 else 0;
    [0, 0, (if comp <= 2 then 3 else 2) + 8] + [0, 0, 0, 0, 0] + [0, 0, 0, 0] + Le16(w) + Le16(h) + [comp * 8, alpha * 8]
  }

  /** Writes the header and the rows. */
  method WriteTga(img: Image, flip: bool) returns (file: seq<byte>, ghost packets: seq<seq<Packet>>)
    requires img.Valid()
    ensures |packets| == img.Height()
    ensures forall r :: 0 <= r < img.Height() ==> Tiles(FileRows(img, flip)[r], packets[r], |FileRows(img, flip)[r]|)
    ensures file == Header(img.width, img.Height(), img.comp) + RowsBytes(FileRows(img, flip), packets, img.Height())
  {
    hide Tiles, RowBytes, Header, RowsBytes, FileRows;
    ghost var rows := FileRows(img, flip);
    var body: seq<byte>;
    body, packets := [], [];
    NoBytes(rows);
    var k := 0;
    var j := if flip then 0 else img.Height() - 1;
    while k < img.Height()
      invariant k <= img.Height() && |packets| == k && j == if flip then k else img.Height() - 1 - k
      invariant forall r :: 0 <= r < k ==> Tiles(rows[r], packets[r], |rows[r]|)
      invariant body == RowsBytes(rows[..k], packets, k)
      decreases img.Height() - k
    {
      var bytes;
      ghost var p;
      bytes, p := WriteFileRow(img, flip, k, j);
      RowsBytesNext(rows, packets, p, k);
      body := body + bytes;
      packets := packets + [p];
      j := if flip then j + 1 else j - 1;
      k := k + 1;
    }
    assert rows[..k] == rows;
    file := Header(img.width, img.Height(), img.comp) + body;
  }

  method WriteFileRow(img: Image, flip: bool, k: nat, j: int) returns (bytes: seq<byte>, ghost packets: seq<Packet>)
    requires k < img.Height() && j == if flip then k else img.Height() - 1 - k
    ensures var row := FileRows(img, flip)[k]; Tiles(row, packets, |row|) && bytes == RowBytes(row, packets, |row|)
  {
    hide Tiles, RowBytes, FileRows;
    FileRowAt(img, flip, k);
    bytes, packets := WriteRow(img.rows[j]);
  }

  lemma NoBytes(rows: seq<seq<Pixel>>)
    ensures RowsBytes(rows[..0], [], 0) == []
  {
  }

  lemma RowsBytesNext(rows: seq<seq<Pixel>>, packets: seq<seq<Packet>>, p: seq<Packet>, k: nat)
    requires k < |rows| && |packets| == k && forall r :: 0 <= r < k ==> Tiles(rows[r], packets[r], |rows[r]|)
    requires Tiles(rows[k], p, |rows[k]|)
    ensures RowsBytes(rows[..k + 1], packets + [p], k + 1)
         == RowsBytes(rows[..k], packets, k) + RowBytes(rows[k], p, |rows[k]|)
  {
    hide Tiles, RowBytes;
    RowsBytesPrefix(rows[..k], packets, rows[..k + 1], packets + [p], k);
  }

  lemma {:induction false} RowsBytesPrefix(a: seq<seq<Pixel>>, pa: seq<seq<Packet>>, b: seq<seq<Pixel>>,
                                           pb: seq<seq<Packet>>, k: nat)
    requires k <= |a| == |pa| && k <= |b| == |pb|
    requires forall r :: 0 <= r < k ==> a[r] == b[r] && pa[r] == pb[r] && Tiles(a[r], pa[r], |a[r]|)
    ensures RowsBytes(a, pa, k) == RowsBytes(b, pb, k)
    decreases k
  {
    hide Tiles, RowBytes;
    if k > 0 { RowsBytesPrefix(a, pa, b, pb, k - 1); }
  }

  // ---- the reader ----

  /** The header fields that matter for run-length images without a colour map. */
  datatype Info = Info(width: nat, height: nat, comp: nat, inverted: bool, start: nat) | BadFormat | Unmodelled

  function Components(bits: nat, grey: bool): nat {
    if bits == 8 then 1 else if bits == 16 && grey then 2 else if bits == 24 then 3 else if bits == 32 then 4 else 0
  }

  function Volume(w: int, h: int, comp: int): int {
    w * h * comp
  }

  function ReadInfo(file: seq<byte>): Info {
    var kind := ByteAt(file, 2);
    var bits := ByteAt(file, 16);
    var w, h := Le16At(file, 12), Le16At(file, 14);
    if ByteAt(file, 1) != 0 || kind < 8 then Unmodelled
    else if bits == 15 || (bits == 16 && kind != 11) then Unmodelled
    else
      var comp := Components(bits, kind == 11);
      if comp == 0 || Volume(w, h, comp) > 0x7fff_ffff then BadFormat
      else Info(w, h, comp, ByteAt(file, 17) / 32 % 2 == 0, 18 + ByteAt(file, 0))
  }

  /** Reads the header. */
  method ReadHeader(s: Context) returns (info: Info)
    requires s.pos == 0
    modifies s
    ensures info == ReadInfo(s.file)
    ensures info.Info? ==> s.AtOrPast(info.start)
  {
    hide Le16At, ByteAt, Volume, Components;
    var offset := s.Byte(0);
    var indexed := s.Byte(1);
    var kind := s.Byte(2);
    var skipped := s.Get16le(3);
    skipped := s.Get16le(5);
    var bits := s.Byte(7);
    skipped := s.Get16le(8);
    skipped := s.Get16le(10);
    var w := s.Get16le(12);
    var h := s.Get16le(14);
    bits := s.Byte(16);
    var descriptor := s.Byte(17);
    if indexed != 0 || kind < 8 { return Unmodelled; }
    if bits == 15 || (bits == 16 && kind != 11) { return Unmodelled; }
    var comp := Components(bits, kind == 11);
    if comp == 0 { return BadFormat; }
    if Volume(w, h, comp) > 0x7fff_ffff { return BadFormat; }
    s.Skip(offset, 18);
    info := Info(w, h, comp, descriptor / 32 % 2 == 0, 18 + offset as int);
  }

  method ReadPixel(s: Context, comp: nat, ghost p: nat) returns (pixel: Pixel)
    requires s.AtOrPast(p)
    modifies s
    ensures pixel == PixelAt(s.file, p, comp) && s.AtOrPast(p + comp)
  {
    pixel := [];
    for j := 0 to comp
      invariant s.AtOrPast(p + j) && pixel == PixelAt(s.file, p, j)
    {
      var b := s.Byte(p + j);
      pixel := pixel + [b];
    }
  }

  /** The pixel loop: a packet header when the count is used up, then a pixel if one is due. */
  method ReadRle(s: Context, comp: nat, data: array<Pixel>, ghost start: nat)
    requires s.AtOrPast(start)
    modifies s, data
    ensures data[..] == ReadPixels(s.file, comp, Reader(start, 0, false, []), data.Length)
  {
    hide Context.AtOrPast, PixelAt, Advance;
    var count: nat, repeating, pixel: Pixel := 0, false, [];
    ghost var p: nat := start;
    ghost var goal := ReadPixels(s.file, comp, Reader(start, 0, false, []), data.Length);
    for i := 0 to data.Length
      invariant s.AtOrPast(p)
      invariant data[..i] + ReadPixels(s.file, comp, Reader(p, count, repeating, pixel), data.Length - i) == goal
    {
      ghost var r := Reader(p, count, repeating, pixel);
      ghost var done := data[..i];
      count, repeating, pixel, p := NextPixel(s, comp, count, repeating, pixel, p);
      data[i] := pixel;
      ReadOne(s.file, comp, r, done, data.Length - i);
      assert data[..i + 1] == done + [pixel];
    }
    assert data[..] == data[..data.Length];
  }

  /** Fetches the next pixel, unless the packet repeats the one at hand, and counts it off. */
  method NextPixel(s: Context, comp: nat, count: nat, repeating: bool, pixel: Pixel, ghost p: nat)
      returns (count': nat, repeating': bool, pixel': Pixel, ghost p': nat)
    requires s.AtOrPast(p)
    modifies s
    ensures s.AtOrPast(p')
    ensures Reader(p', count', repeating', pixel') == Advance(s.file, comp, Reader(p, count, repeating, pixel))
  {
    hide PixelAt;
    count', repeating', pixel', p' := count, repeating, pixel, p;
    var readNext := false;
    if count == 0 {
      var cmd := s.Byte(p);
      p' := p + 1;
      count' := 1 + cmd as int % 128;
      repeating' := cmd >= 128;
      readNext := true;
    } else if !repeating {
      readNext := true;
    }
    if readNext {
      pixel' := ReadPixel(s, comp, p');
      p' := p' + comp;
    }
    count' := count' - 1;
  }

  lemma ReadOne(input: seq<byte>, comp: nat, r: Reader, done: seq<Pixel>, n: nat)
    requires n > 0
    ensures var r' := Advance(input, comp, r);
      done + ReadPixels(input, comp, r, n) == done + [r'.pixel] + ReadPixels(input, comp, r', n - 1)
  {
  }

  /** Swaps two rows of w pixels, or leaves one row as it is. */
  method SwapRows(data: array<Pixel>, a: nat, b: nat, w: nat)
    requires a + w <= b || a == b
    requires b + w <= data.Length
    modifies data
    ensures data[..] == RowsSwapped(old(data[..]), a, b, w)
  {
    for i := 0 to w
      invariant forall k :: 0 <= k < data.Length ==>
        data[k] == if a <= k < a + i then old(data[b + (k - a)]) else if b <= k < b + i then old(data[a + (k - b)])
                   else old(data[k])
    {
      var temp := data[a + i];
      data[a + i] := data[b + i];
      data[b + i] := temp;
    }
  }

  function RowsSwapped(s: seq<Pixel>, a: nat, b: nat, w: nat): (r: seq<Pixel>)
    requires a + w <= b || a == b
    requires b + w <= |s|
    ensures |r| == |s|
  {
    seq(|s|, k requires 0 <= k < |s| =>
      if a <= k < a + w then s[b + (k - a)] else if b <= k < b + w then s[a + (k - b)] else s[k])
  }

  /** The row that ends up at r once the j outer rows on either side are mirrored. */
  function MirrorOf(h: nat, r: nat, j: nat): (k: nat)
    requires r < h
    ensures k < h
  {
    if r < j || r >= h - j then h - 1 - r else r
  }

  /** Row r of `now` is row r of `was`, or its mirror image once r is among the j outer rows on either side. */
  ghost predicate PartlyMirrored(was: seq<Pixel>, now: seq<Pixel>, w: nat, h: nat, j: nat)
    requires |was| == |now| == Times(w, h)
  {
    forall r: nat, i: nat :: r < h && i < w ==> MirroredAt(was, now, w, h, r, i, j)
  }

  ghost predicate MirroredAt(was: seq<Pixel>, now: seq<Pixel>, w: nat, h: nat, r: nat, i: nat, j: nat)
    requires |was| == |now| == Times(w, h) && r < h && i < w
  {
    TimesSplit(w, r, h);
    TimesSplit(w, MirrorOf(h, r, j), h);
    now[Times(w, r) + i] == was[Times(w, MirrorOf(h, r, j)) + i]
  }

  /** A pixel lies in row j only if its row number is j. */
  lemma RowOf(w: nat, j: nat, r: nat, i: nat)
    requires i < w
    ensures Times(w, j) <= Times(w, r) + i < Times(w, j) + w <==> r == j
  {
    if r < j {
      TimesGrows(w, r + 1, j);
      TimesNext(w, r);
    } else if j < r {
      TimesGrows(w, j + 1, r);
      TimesNext(w, j);
    }
  }

  lemma MirrorStep(was: seq<Pixel>, now: seq<Pixel>, w: nat, h: nat, j: nat)
    requires |was| == |now| == Times(w, h) && j * 2 < h && PartlyMirrored(was, now, w, h, j)
    ensures var a, b := Times(w, j), Times(w, h - 1 - j);
      && (a + w <= b || a == b) && b + w <= |now|
      && PartlyMirrored(was, RowsSwapped(now, a, b, w), w, h, j + 1)
  {
    var m := h - 1 - j;
    TimesSplit(w, m, h);
    TimesSplit(w, j, h);
    if j < m {
      TimesGrows(w, j + 1, m);
    }
    var a, b := Times(w, j), Times(w, m);
    var next, done := RowsSwapped(now, a, b, w), j + 1;
    forall r: nat, i: nat | r < h && i < w
      ensures MirroredAt(was, next, w, h, r, i, done)
    {
      MirrorPixel(was, now, w, h, j, r, i);
    }
  }

  lemma MirrorPixel(was: seq<Pixel>, now: seq<Pixel>, w: nat, h: nat, j: nat, r: nat, i: nat)
    requires |was| == |now| == Times(w, h) && j * 2 < h && PartlyMirrored(was, now, w, h, j) && r < h && i < w
    requires var a, b := Times(w, j), Times(w, h - 1 - j); (a + w <= b || a == b) && b + w <= |now|
    ensures MirroredAt(was, RowsSwapped(now, Times(w, j), Times(w, h - 1 - j), w), w, h, r, i, j + 1)
  {
    hide Times;
    var m := h - 1 - j;
    var from := if r == j then m else if r == m then j else r;
    assert MirroredAt(was, now, w, h, from, i, j);
    SwappedAt(now, w, h, j, r, i);
    MirrorIndex(h, j, r);
    hide PartlyMirrored, RowsSwapped, MirroredAt;
    MirroredFrom(was, now, RowsSwapped(now, Times(w, j), Times(w, m), w), w, h, r, from, i, j);
  }

  lemma MirrorIndex(h: nat, j: nat, r: nat)
    requires j * 2 < h && r < h
    ensures var m := h - 1 - j; MirrorOf(h, if r == j then m else if r == m then j else r, j) == MirrorOf(h, r, j + 1)
  {
  }

  lemma MirroredFrom(was: seq<Pixel>, now: seq<Pixel>, after: seq<Pixel>, w: nat, h: nat, r: nat, from: nat, i: nat, j: nat)
    requires |was| == |now| == |after| == Times(w, h) && r < h && from < h && i < w
    requires MirroredAt(was, now, w, h, from, i, j) && MirrorOf(h, from, j) == MirrorOf(h, r, j + 1)
    requires Times(w, r) + i < |after| && Times(w, from) + i < |now|
    requires after[Times(w, r) + i] == now[Times(w, from) + i]
    ensures MirroredAt(was, after, w, h, r, i, j + 1)
  {
    hide Times;
  }

  /** Swapping rows j and m moves those rows and no others. */
  lemma SwappedAt(now: seq<Pixel>, w: nat, h: nat, j: nat, r: nat, i: nat)
    requires |now| == Times(w, h) && j * 2 < h && r < h && i < w
    requires var a, b := Times(w, j), Times(w, h - 1 - j); (a + w <= b || a == b) && b + w <= |now|
    ensures var m := h - 1 - j; var from := if r == j then m else if r == m then j else r;
      && Times(w, r) + i < |now| && Times(w, from) + i < |now|
      && RowsSwapped(now, Times(w, j), Times(w, m), w)[Times(w, r) + i] == now[Times(w, from) + i]
  {
    hide Times;
    var m := h - 1 - j;
    TimesSplit(w, r, h);
    TimesSplit(w, m, h);
    TimesSplit(w, j, h);
    RowOf(w, j, r, i);
    RowOf(w, m, r, i);
  }

  /** Mirrors the rows in place, outer rows first; a middle row stays. */
  method Invert(data: array<Pixel>, w: nat, h: nat, ghost comp: nat)
    requires data.Length == Times(w, h) && Whole(data[..], comp)
    modifies data
    ensures Whole(data[..], comp)
    ensures PartlyMirrored(old(data[..]), data[..], w, h, h)
  {
    hide PartlyMirrored, Times;
    ghost var was := data[..];
    NoneMirrored(was, w, h);
    var j := 0;
    while j * 2 < h
      invariant 0 <= j <= h && PartlyMirrored(was, data[..], w, h, j) && Whole(data[..], comp)
      decreases h - j
    {
      TimesIsProduct(w, j);
      TimesIsProduct(w, h - 1 - j);
      MirrorStep(was, data[..], w, h, j);
      SwapRows(data, w * j, w * (h - 1 - j), w);
      j := j + 1;
    }
    AllMirrored(was, data[..], w, h, j);
  }

  lemma NoneMirrored(was: seq<Pixel>, w: nat, h: nat)
    requires |was| == Times(w, h)
    ensures PartlyMirrored(was, was, w, h, 0)
  {
  }

  /** Past the middle every row has been mirrored. */
  lemma AllMirrored(was: seq<Pixel>, now: seq<Pixel>, w: nat, h: nat, j: nat)
    requires |was| == |now| == Times(w, h) && j * 2 >= h && PartlyMirrored(was, now, w, h, j)
    ensures PartlyMirrored(was, now, w, h, h)
  {
    hide Times;
    forall r: nat, i: nat | r < h && i < w
      ensures MirroredAt(was, now, w, h, r, i, h)
    {
      assert MirroredAt(was, now, w, h, r, i, j);
    }
  }

  /** Swaps red and blue in every pixel of at least three bytes. */
  method SwapColors(data: array<Pixel>, comp: nat)
    requires Whole(data[..], comp)
    modifies data
    ensures data[..] == SwapAll(old(data[..]))
  {
    ghost var was := data[..];
    if comp >= 3 {
      for i := 0 to data.Length
        invariant forall k :: 0 <= k < data.Length ==> data[k] == if k < i then Swapped(was[k]) else was[k]
      {
        var p := data[i];
        data[i] := p[0 := p[2]][2 := p[0]];
        assert data[i] == Swapped(p);
      }
    }
  }

  datatype Loaded = Loaded(width: nat, height: nat, comp: nat, pixels: seq<Pixel>) | LoadFailed | LoadUnmodelled

  /** The loaded pixels are those read, swapped, with the rows mirrored if the header asks for it. */
  ghost predicate Laid(pixels: seq<Pixel>, read: seq<Pixel>, w: nat, h: nat, inverted: bool) {
    |pixels| == |read| == Times(w, h)
    && forall r: nat, i: nat :: r < h && i < w ==> LaidAt(pixels, read, w, h, r, i, inverted)
  }

  ghost predicate LaidAt(pixels: seq<Pixel>, read: seq<Pixel>, w: nat, h: nat, r: nat, i: nat, inverted: bool)
    requires |pixels| == |read| == Times(w, h) && r < h && i < w
  {
    TimesSplit(w, r, h);
    TimesSplit(w, h - 1 - r, h);
    pixels[Times(w, r) + i] == Swapped(read[Times(w, if inverted then h - 1 - r else r) + i])
  }

  lemma LaidMirrored(read: seq<Pixel>, placed: seq<Pixel>, w: nat, h: nat, inverted: bool)
    requires |read| == |placed| == Times(w, h)
    requires if inverted then PartlyMirrored(read, placed, w, h, h) else placed == read
    ensures Laid(SwapAll(placed), read, w, h, inverted)
  {
    hide Times, Swapped;
    forall r: nat, i: nat | r < h && i < w
      ensures LaidAt(SwapAll(placed), read, w, h, r, i, inverted)
    {
      TimesSplit(w, r, h);
      TimesSplit(w, h - 1 - r, h);
      if inverted { assert MirroredAt(read, placed, w, h, r, i, h); }
    }
  }

  lemma {:induction false} ReadWhole(input: seq<byte>, comp: nat, r: Reader, n: nat)
    requires r.count == 0 || |r.pixel| == comp
    ensures Whole(ReadPixels(input, comp, r, n), comp)
    decreases n
  {
    AdvanceWhole(input, comp, r);
    hide Advance;
    if n > 0 { ReadWhole(input, comp, Advance(input, comp, r), n - 1); }
  }

  lemma AdvanceWhole(input: seq<byte>, comp: nat, r: Reader)
    requires r.count == 0 || |r.pixel| == comp
    ensures |Advance(input, comp, r).pixel| == comp
  {
  }

  /** What loading a file with this header must yield. */
  ghost predicate IsLoaded(r: Loaded, file: seq<byte>, info: Info) {
    match info
    case BadFormat => r == LoadFailed
    case Unmodelled => r == LoadUnmodelled
    case Info(w, h, comp, inverted, start) =>
      r.Loaded? && r.width == w && r.height == h && r.comp == comp
      && Laid(r.pixels, ReadPixels(file, comp, Reader(start, 0, false, []), Times(w, h)), w, h, inverted)
  }

  /** Loads a run-length image. */
  method LoadTga(file: seq<byte>) returns (r: Loaded)
    ensures IsLoaded(r, file, ReadInfo(file))
  {
    hide ReadInfo, ReadPixels, Times, PartlyMirrored, Swapped, Laid;
    var s := new Context(file);
    var info := ReadHeader(s);
    if info.BadFormat? { return LoadFailed; }
    if info.Unmodelled? { return LoadUnmodelled; }
    var w, h, comp := info.width, info.height, info.comp;
    TimesIsProduct(w, h);
    var data := new Pixel[w * h](_ => []);
    ReadRle(s, comp, data, info.start);
    ghost var read := data[..];
    ReadWhole(file, comp, Reader(info.start, 0, false, []), data.Length);
    if info.inverted { Invert(data, w, h, comp); }
    LaidMirrored(read, data[..], w, h, info.inverted);
    SwapColors(data, comp);
    r := Loaded(w, h, comp, data[..]);
  }

  // ---- round trip ----

  lemma HeaderReads(file: seq<byte>, w: nat, h: nat, comp: nat, body: seq<byte>)
    requires 1 <= comp <= 4 && w < 0x1_0000 && h < 0x1_0000 && Volume(w, h, comp) <= 0x7fff_ffff
    requires file == Header(w, h, comp) + body
    ensures ReadInfo(file) == Info(w, h, comp, true, 18)
  {
    var hd := Header(w, h, comp);
    assert forall k :: 0 <= k < 18 ==> file[k] == hd[k];
    assert hd[12] == w % 256 && hd[13] == w / 256 && hd[14] == h % 256 && hd[15] == h / 256;
    assert hd[0] == hd[1] == 0 && hd[2] == (if comp <= 2 then 11 else 10) && hd[16] == comp * 8;
    assert hd[17] == if comp == 2 || comp == 4 then 8 else 0;
  }

  /** The fields of a written header: run-length grey (11) or colour (10), little-endian sizes, bits per pixel,
      and bottom rows first with eight alpha bits if there is alpha; all else is zero. */
  lemma HeaderFields(w: nat, h: nat, comp: nat)
    requires 1 <= comp <= 4 && w < 0x1_0000 && h < 0x1_0000
    ensures var hd := Header(w, h, comp);
      && (forall k :: 0 <= k < 12 && k != 2 ==> hd[k] == 0) && hd[2] == (if comp <= 2 then 11 else 10)
      && hd[12] as int + 256 * hd[13] as int == w && hd[14] as int + 256 * hd[15] as int == h
      && hd[16] == 8 * comp && hd[17] == if comp == 2 || comp == 4 then 8 else 0
  {
  }

  lemma {:induction false} ConcatAt(rows: seq<seq<Pixel>>, w: nat, k: nat, r: nat, i: nat)
    requires k <= |rows| && (forall j :: 0 <= j < |rows| ==> |rows[j]| == w)
    ensures |Concat(rows, k)| == Times(w, k)
    ensures r < k && i < w ==> Times(w, r) + i < Times(w, k) && Concat(rows, k)[Times(w, r) + i] == rows[r][i]
    decreases k
  {
    if k > 0 {
      ConcatAt(rows, w, k - 1, r, i);
    }
  }

  /** Every pixel of the loaded image is the caller's, row for row; with the flip option the
      rows come back mirrored, which is what flipping on write means. */
  ghost predicate SameImage(img: Image, flip: bool, pixels: seq<Pixel>)
    requires img.Valid()
  {
    && |pixels| == Times(img.width, img.Height())
    && forall r: nat, i: nat :: r < img.Height() && i < img.width ==> SamePixel(img, flip, pixels, r, i)
  }

  ghost predicate SamePixel(img: Image, flip: bool, pixels: seq<Pixel>, r: nat, i: nat)
    requires img.Valid() && |pixels| == Times(img.width, img.Height()) && r < img.Height() && i < img.width
  {
    TimesSplit(img.width, r, img.Height());
    pixels[Times(img.width, r) + i] == img.rows[if flip then img.Height() - 1 - r else r][i]
  }

  lemma LaidIsSame(img: Image, flip: bool, read: seq<Pixel>, pixels: seq<Pixel>)
    requires img.Valid() && read == SwapAll(Concat(FileRows(img, flip), img.Height()))
    requires Laid(pixels, read, img.width, img.Height(), true)
    ensures SameImage(img, flip, pixels)
  {
    hide Times, SamePixel, LaidAt, SwapAll, Concat;
    forall r: nat, i: nat | r < img.Height() && i < img.width
      ensures SamePixel(img, flip, pixels, r, i)
    {
      assert LaidAt(pixels, read, img.width, img.Height(), r, i, true);
      LaidPixelIsSame(img, flip, read, pixels, r, i);
    }
  }

  lemma FileRowAt(img: Image, flip: bool, k: nat)
    requires k < img.Height()
    ensures |FileRows(img, flip)| == img.Height()
    ensures FileRows(img, flip)[k] == img.rows[if flip then k else img.Height() - 1 - k]
  {
    hide Image.Valid;
  }

  lemma FileRowsWide(img: Image, flip: bool)
    requires img.Valid()
    ensures forall j :: 0 <= j < img.Height() ==> |FileRows(img, flip)[j]| == img.width
  {
  }

  lemma LaidPixelIsSame(img: Image, flip: bool, read: seq<Pixel>, pixels: seq<Pixel>, r: nat, i: nat)
    requires img.Valid() && read == SwapAll(Concat(FileRows(img, flip), img.Height()))
    requires r < img.Height() && i < img.width && |pixels| == |read| == Times(img.width, img.Height())
    requires LaidAt(pixels, read, img.width, img.Height(), r, i, true)
    ensures SamePixel(img, flip, pixels, r, i)
  {
    hide Times, Swapped, Concat, Whole, FileRows;
    var w, h, rows := img.width, img.Height(), FileRows(img, flip);
    var m := h - 1 - r;
    TimesSplit(w, r, h);
    TimesSplit(w, m, h);
    FileRowsWide(img, flip);
    FileRowAt(img, flip, m);
    ConcatAt(rows, w, h, m, i);
    assert read[Times(w, m) + i] == Swapped(rows[m][i]);
    assert pixels[Times(w, r) + i] == Swapped(read[Times(w, m) + i]);
    SwappedTwice(rows[m][i]);
  }

  /** Write, then read: the same image. */
  method WriteThenRead(img: Image, flip: bool) returns (r: Loaded)
    requires img.Valid() && img.width < 0x1_0000 && img.Height() < 0x1_0000
    requires img.width * img.Height() * img.comp <= 0x7fff_ffff
    ensures r.Loaded? && r.width == img.width && r.height == img.Height() && r.comp == img.comp
    ensures SameImage(img, flip, r.pixels)
  {
    hide Header, Tiles, RowBytes, RowsBytes, ReadInfo, Laid, SameImage, ReadPixels, HasBytes, Concat, Times;
    var file, packets := WriteTga(img, flip);
    ghost var rows, h := FileRows(img, flip), img.Height();
    ghost var body := RowsBytes(rows, packets, h);
    HeaderReads(file, img.width, h, img.comp, body);
    BodyReads(file, img, rows, packets, h);
    r := LoadTga(file);
    LaidIsSame(img, flip, ReadPixels(file, img.comp, Reader(18, 0, false, []), Times(img.width, h)), r.pixels);
  }

  lemma BodyReads(file: seq<byte>, img: Image, rows: seq<seq<Pixel>>, packets: seq<seq<Packet>>, h: nat)
    requires img.Valid() && |rows| == |packets| == h
    requires forall r :: 0 <= r < h ==> |rows[r]| == img.width && Whole(rows[r], img.comp) && Tiles(rows[r], packets[r], |rows[r]|)
    requires file == Header(img.width, h, img.comp) + RowsBytes(rows, packets, h)
    ensures ReadPixels(file, img.comp, Reader(18, 0, false, []), Times(img.width, h)) == SwapAll(Concat(rows, h))
  {
    hide Header, Tiles, RowBytes, RowsBytes, ReadPixels, Concat, Swapped, Times;
    var body := RowsBytes(rows, packets, h);
    assert HasBytes(file, 18, body);
    ConcatAt(rows, img.width, h, 0, 0);
    var n := Times(img.width, h);
    var after := RowsRead(file, img.comp, Reader(18, 0, false, []), rows, packets, h, n);
    NoPixels(file, img.comp, after);
    assert SwapAll(Concat(rows, h)) + [] == SwapAll(Concat(rows, h));
  }

  lemma NoPixels(file: seq<byte>, comp: nat, r: Reader)
    ensures ReadPixels(file, comp, r, 0) == []
  {
  }
}
