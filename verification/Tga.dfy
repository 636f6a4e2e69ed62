/** TGA run-length coding: the writer's packets, the reader's pixel loop, and the whole image
    through both, bottom row first and colours swapped.  A pixel is its bytes. */
module Tga {
  import opened Bits
  import opened Inflate

  type Pixel = seq<byte>

  // ---- packets ----

  /** The packet that starts at column i of a row, as the writer delimits it. */
  ghost predicate PacketRule(row: seq<Pixel>, i: nat, len: nat, diff: bool) {
    && i < |row| && 1 <= len <= 128 && i + len <= |row|
    && (!diff ==>
          && len >= 2 && (forall k :: i <= k < i + len ==> row[k] == row[i])
          && (len == 128 || i + len == |row| || row[i + len] != row[i]))
    && (diff && i + 1 == |row| ==> len == 1)
    && (diff && i + 1 < |row| ==> row[i] != row[i + 1] && RawRule(row, i, len))
  }

  /** A raw packet runs while no pixel equals the one two before it, and stops one pixel
      before such a pair. */
  ghost predicate RawRule(row: seq<Pixel>, i: nat, len: nat)
    requires i < |row|
  {
    || (len >= 2 && (len == 128 || i + len == |row|) && NoPairs(row, i, i + len))
    || (len >= 1 && i + len + 1 < |row| && NoPairs(row, i, i + len + 1) && row[i + len + 1] == row[i + len - 1] && len + 1 < 128)
  }

  ghost predicate NoPairs(row: seq<Pixel>, i: nat, end: nat)
    requires i < |row|
  {
    end <= |row| && forall k :: i + 2 <= k < end ==> row[k - 2] != row[k]
  }

  /** Finds the packet at column i. */
  method NextPacket(row: seq<Pixel>, i: nat) returns (len: nat, diff: bool)
    requires i < |row|
    ensures PacketRule(row, i, len, diff)
  {
    diff := true;
    len := 1;
    if i + 1 < |row| {
      len := 2;
      diff := row[i] != row[i + 1];
      if diff {
        len := RawLength(row, i);
      } else {
        var k := i + 2;
        while k < |row| && len < 128
          invariant k == i + len && 2 <= len <= 128 && k <= |row|
          invariant forall m :: i <= m < k ==> row[m] == row[i]
          decreases |row| - k
        {
          if row[k] != row[i] { return; }
          len := len + 1;
          k := k + 1;
        }
      }
    }
  }

  method RawLength(row: seq<Pixel>, i: nat) returns (len: nat)
    requires i + 1 < |row| && row[i] != row[i + 1]
    ensures 1 <= len <= 128 && i + len <= |row| && RawRule(row, i, len)
  {
    len := 2;
    var prev, k := i, i + 2;
    while k < |row| && len < 128
      invariant k == i + len && prev == k - 2 && 2 <= len <= 128 && k <= |row| && NoPairs(row, i, k)
      decreases |row| - k
    {
      if row[prev] != row[k] {
        prev := prev + 1;
        len := len + 1;
      } else {
        len := len - 1;
        return;
      }
      k := k + 1;
    }
  }

  // ---- bytes ----

  /** The order of a pixel's bytes in the file: colours reversed, alpha last.  Swapping is its own inverse. */
  function Swapped(p: Pixel): Pixel {
    if |p| >= 3 then [p[2], p[1], p[0]] + p[3..] else p
  }

  lemma SwappedTwice(p: Pixel)
    ensures Swapped(Swapped(p)) == p
  {
  }

  function PixelBytes(pixels: seq<Pixel>): seq<byte> {
    if |pixels| == 0 then [] else Swapped(pixels[0]) + PixelBytes(pixels[1..])
  }

  function PacketBytes(pixels: seq<Pixel>, diff: bool): seq<byte>
    requires 1 <= |pixels| <= 128
  {
    if diff then [|pixels| - 1] + PixelBytes(pixels) else [|pixels| + 127] + Swapped(pixels[0])
  }

  // ---- the reader's pixel loop, as a function of its state ----

  /** The byte position, pixels left in the packet, whether it repeats, and the pixel at hand. */
  datatype Reader = Reader(pos: nat, count: nat, repeating: bool, pixel: Pixel)

  function PixelAt(input: seq<byte>, p: nat, comp: nat): (r: Pixel)
    ensures |r| == comp
  {
    seq<byte>(comp, j requires 0 <= j < comp => ByteAt(input, p + j))
  }

  /** The state once the next pixel is at hand and counted off. */
  function Advance(input: seq<byte>, comp: nat, r: Reader): Reader {
    if r.count == 0 then
      var cmd := ByteAt(input, r.pos);
      Reader(r.pos + 1 + comp, cmd % 128, cmd >= 128, PixelAt(input, r.pos + 1, comp))
    else if r.repeating then r.(count := r.count - 1)
    else Reader(r.pos + comp, r.count - 1, false, PixelAt(input, r.pos, comp))
  }

  function ReadPixels(input: seq<byte>, comp: nat, r: Reader, n: nat): (s: seq<Pixel>)
    ensures |s| == n
    decreases n
  {
    if n == 0 then []
    else
      var r' := Advance(input, comp, r);
      [r'.pixel] + ReadPixels(input, comp, r', n - 1)
  }

  /** The bytes w stand at p. */
  predicate HasBytes(input: seq<byte>, p: nat, w: seq<byte>) {
    p + |w| <= |input| && input[p..p + |w|] == w
  }

  lemma HasBytesSplit(input: seq<byte>, p: nat, a: seq<byte>, b: seq<byte>)
    ensures HasBytes(input, p, a + b) <==> HasBytes(input, p, a) && HasBytes(input, p + |a|, b)
  {
    if p + |a| + |b| <= |input| {
      var s := input[p..p + |a| + |b|];
      assert s == input[p..p + |a|] + input[p + |a|..p + |a| + |b|];
      if s == a + b {
        assert s[..|a|] == a && s[|a|..] == b;
        assert s[..|a|] == input[p..p + |a|] && s[|a|..] == input[p + |a|..p + |a| + |b|];
      }
    }
  }

  lemma PixelReads(input: seq<byte>, p: nat, w: Pixel)
    requires HasBytes(input, p, w)
    ensures PixelAt(input, p, |w|) == w
  {
    var s := input[p..p + |w|];
    forall j | 0 <= j < |w|
      ensures PixelAt(input, p, |w|)[j] == w[j]
    {
      assert s[j] == input[p + j] == ByteAt(input, p + j);
    }
  }

  /** The rest of a repeating packet delivers copies of its pixel. */
  lemma {:induction false} RepeatReads(input: seq<byte>, comp: nat, r: Reader, pixel: Pixel, m: nat, n: nat)
    requires r.repeating && r.count == m && r.pixel == pixel && m <= n
    ensures ReadPixels(input, comp, r, n) == Copies(pixel, m) + ReadPixels(input, comp, r.(count := 0), n - m)
    decreases m
  {
    if m > 0 {
      RepeatReads(input, comp, r.(count := m - 1), pixel, m - 1, n - 1);
      assert Copies(pixel, m) == [pixel] + Copies(pixel, m - 1);
    } else {
      assert r.(count := 0) == r;
      assert Copies(pixel, 0) == [];
    }
  }

  function Copies(p: Pixel, m: nat): (s: seq<Pixel>)
    ensures |s| == m && forall k :: 0 <= k < m ==> s[k] == p
  {
    seq(m, k => p)
  }

  /** The rest of a raw packet delivers its pixels. */
  lemma {:induction false} RawReads(input: seq<byte>, comp: nat, r: Reader, pixels: seq<Pixel>, n: nat)
    returns (end: Reader)
    requires !r.repeating && r.count == |pixels| <= n && Whole(pixels, comp)
    requires HasBytes(input, r.pos, PixelBytes(pixels))
    ensures end.count == 0 && end.pos == r.pos + |PixelBytes(pixels)|
    ensures ReadPixels(input, comp, r, n) == SwapAll(pixels) + ReadPixels(input, comp, end, n - |pixels|)
    decreases |pixels|
  {
    hide Swapped, Advance, HasBytes;
    end := r;
    if |pixels| > 0 {
      var rest := pixels[1..];
      HasBytesSplit(input, r.pos, Swapped(pixels[0]), PixelBytes(rest));
      var next := RawPixelReads(input, comp, r, pixels[0]);
      end := RawReads(input, comp, next, rest, n - 1);
      hide ReadPixels;
      assert SwapAll(pixels) == [next.pixel] + SwapAll(rest);
      assert [next.pixel] + (SwapAll(rest) + ReadPixels(input, comp, end, n - |pixels|))
          == SwapAll(pixels) + ReadPixels(input, comp, end, n - |pixels|);
    } else {
      assert SwapAll(pixels) == [];
    }
  }

  lemma RawPixelReads(input: seq<byte>, comp: nat, r: Reader, pixel: Pixel) returns (next: Reader)
    requires !r.repeating && r.count > 0 && |pixel| == comp && HasBytes(input, r.pos, Swapped(pixel))
    ensures next == Advance(input, comp, r) == Reader(r.pos + comp, r.count - 1, false, Swapped(pixel))
    ensures |Swapped(pixel)| == comp
  {
    PixelReads(input, r.pos, Swapped(pixel));
    next := Advance(input, comp, r);
  }

  function SwapAll(pixels: seq<Pixel>): (s: seq<Pixel>)
    ensures |s| == |pixels| && forall k :: 0 <= k < |s| ==> s[k] == Swapped(pixels[k])
  {
    seq(|pixels|, k requires 0 <= k < |pixels| => Swapped(pixels[k]))
  }

  ghost predicate AllSame(pixels: seq<Pixel>) {
    forall k :: 0 <= k < |pixels| ==> pixels[k] == pixels[0]
  }

  ghost predicate Whole(pixels: seq<Pixel>, comp: nat) {
    forall k :: 0 <= k < |pixels| ==> |pixels[k]| == comp
  }

  /** One packet, read from its header on, delivers the pixels it was made of. */
  lemma PacketReads(input: seq<byte>, comp: nat, r: Reader, pixels: seq<Pixel>, diff: bool, n: nat)
    returns (end: Reader)
    requires r.count == 0 && 1 <= |pixels| <= 128 && |pixels| <= n
    requires Whole(pixels, comp)
    requires !diff ==> AllSame(pixels)
    requires HasBytes(input, r.pos, PacketBytes(pixels, diff))
    ensures end.count == 0 && end.pos == r.pos + |PacketBytes(pixels, diff)|
    ensures ReadPixels(input, comp, r, n) == SwapAll(pixels) + ReadPixels(input, comp, end, n - |pixels|)
  {
    hide Swapped, HasBytes, Advance, ReadPixels, PacketBytes, PixelBytes, Copies, SwapAll, AllSame;
    var next := HeaderReads(input, comp, r, pixels, diff);
    if diff {
      WholeRest(pixels, comp);
      end := RawReads(input, comp, next, pixels[1..], n - 1);
    } else {
      RepeatReads(input, comp, next, Swapped(pixels[0]), |pixels| - 1, n - 1);
      end := next.(count := 0);
    }
    FirstOfPacket(input, comp, r, next, end, pixels, diff, n);
  }

  lemma WholeRest(pixels: seq<Pixel>, comp: nat)
    requires |pixels| > 0 && Whole(pixels, comp)
    ensures Whole(pixels[1..], comp)
  {
  }

  lemma FirstOfPacket(input: seq<byte>, comp: nat, r: Reader, next: Reader, end: Reader, pixels: seq<Pixel>, diff: bool, n: nat)
    requires next == Advance(input, comp, r) && 1 <= |pixels| <= n && next.pixel == Swapped(pixels[0])
    requires !diff ==> AllSame(pixels)
    requires ReadPixels(input, comp, next, n - 1)
          == (if diff then SwapAll(pixels[1..]) else Copies(Swapped(pixels[0]), |pixels| - 1))
             + ReadPixels(input, comp, end, n - |pixels|)
    ensures ReadPixels(input, comp, r, n) == SwapAll(pixels) + ReadPixels(input, comp, end, n - |pixels|)
  {
    hide Swapped, Advance;
    var mid := if diff then SwapAll(pixels[1..]) else Copies(Swapped(pixels[0]), |pixels| - 1);
    assert SwapAll(pixels) == [next.pixel] + mid;
    assert ReadPixels(input, comp, r, n) == [next.pixel] + ReadPixels(input, comp, next, n - 1);
    hide ReadPixels;
    var tail := ReadPixels(input, comp, end, n - |pixels|);
    assert [next.pixel] + (mid + tail) == [next.pixel] + mid + tail;
  }

  /** A packet's header and first pixel. */
  lemma HeaderReads(input: seq<byte>, comp: nat, r: Reader, pixels: seq<Pixel>, diff: bool) returns (next: Reader)
    requires r.count == 0 && 1 <= |pixels| <= 128 && |pixels[0]| == comp
    requires HasBytes(input, r.pos, PacketBytes(pixels, diff))
    ensures next == Advance(input, comp, r) == Reader(r.pos + 1 + comp, |pixels| - 1, !diff, Swapped(pixels[0]))
    ensures diff ==> HasBytes(input, r.pos + 1 + comp, PixelBytes(pixels[1..]))
    ensures |PacketBytes(pixels, diff)| == 1 + comp + (if diff then |PixelBytes(pixels[1..])| else 0)
  {
    hide HasBytes, PixelBytes, Swapped, Advance;
    var w, rest := Swapped(pixels[0]), PixelBytes(pixels[1..]);
    var header := if diff then |pixels| - 1 else |pixels| + 127;
    SwappedLength(pixels[0]);
    FirstPixelBytes(pixels);
    if diff {
      assert PacketBytes(pixels, diff) == [header] + (w + rest);
      HasBytesSplit(input, r.pos, [header], w + rest);
      HasBytesSplit(input, r.pos + 1, w, rest);
    } else {
      HasBytesSplit(input, r.pos, [header], w);
    }
    OneByte(input, r.pos, header);
    PixelReads(input, r.pos + 1, w);
    next := Advance(input, comp, r);
    AdvanceHeader(input, comp, r, header);
  }

  lemma SwappedLength(p: Pixel)
    ensures |Swapped(p)| == |p|
  {
  }

  lemma FirstPixelBytes(pixels: seq<Pixel>)
    requires |pixels| > 0
    ensures PixelBytes(pixels) == Swapped(pixels[0]) + PixelBytes(pixels[1..])
  {
  }

  lemma OneByte(input: seq<byte>, p: nat, b: byte)
    requires HasBytes(input, p, [b])
    ensures ByteAt(input, p) == b
  {
    assert input[p..p + 1][0] == b;
  }

  lemma AdvanceHeader(input: seq<byte>, comp: nat, r: Reader, header: byte)
    requires r.count == 0 && ByteAt(input, r.pos) == header
    ensures Advance(input, comp, r) == Reader(r.pos + 1 + comp, header % 128, header >= 128, PixelAt(input, r.pos + 1, comp))
  {
  }

  // ---- any writer's packets ----

  /** A run of one pixel repeated, or some pixels as they are. */
  datatype Piece = Piece(pixels: seq<Pixel>, raw: bool)

  ghost predicate PieceOk(a: Piece, comp: nat) {
    1 <= |a.pixels| <= 128 && Whole(a.pixels, comp) && (!a.raw ==> AllSame(a.pixels))
  }

  ghost predicate PiecesOk(pieces: seq<Piece>, comp: nat) {
    forall i :: 0 <= i < |pieces| ==> PieceOk(pieces[i], comp)
  }

  /** One byte for size and kind, then blue, green, red and alpha of one pixel or of each. */
  function PieceBytes(a: Piece): seq<byte>
    requires 1 <= |a.pixels| <= 128
  {
    if a.raw then [|a.pixels| - 1] + PixelBytes(a.pixels) else [128 + (|a.pixels| - 1)] + Swapped(a.pixels[0])
  }

  ghost function PiecesBytes(pieces: seq<Piece>, comp: nat): seq<byte>
    requires PiecesOk(pieces, comp)
  {
    if pieces == [] then [] else PieceBytes(pieces[0]) + PiecesBytes(pieces[1..], comp)
  }

  function PiecePixels(pieces: seq<Piece>): seq<Pixel> {
    if pieces == [] then [] else pieces[0].pixels + PiecePixels(pieces[1..])
  }

  /** Colours are stored in the order blue, green, red, with alpha last; grey and grey with alpha as they are. */
  lemma StoredOrder(p: Pixel)
    ensures |p| == 4 ==> Swapped(p) == [p[2], p[1], p[0], p[3]]
    ensures |p| == 3 ==> Swapped(p) == [p[2], p[1], p[0]]
    ensures |p| < 3 ==> Swapped(p) == p
  {
  }

  /** Packets of any writer, whether or not they end with the rows, deliver their pixels. */
  lemma {:induction false} PiecesRead(input: seq<byte>, comp: nat, r: Reader, pieces: seq<Piece>, n: nat)
    returns (end: Reader)
    requires r.count == 0 && PiecesOk(pieces, comp) && |PiecePixels(pieces)| <= n
    requires HasBytes(input, r.pos, PiecesBytes(pieces, comp))
    ensures end.count == 0 && end.pos == r.pos + |PiecesBytes(pieces, comp)|
    ensures ReadPixels(input, comp, r, n)
         == SwapAll(PiecePixels(pieces)) + ReadPixels(input, comp, end, n - |PiecePixels(pieces)|)
    decreases |pieces|
  {
    hide HasBytes, ReadPixels, SwapAll, PacketBytes, PieceBytes, PieceOk, Whole, AllSame;
    end := r;
    if pieces == [] {
      NoneSwapped();
    } else {
      var a, rest := pieces[0], pieces[1..];
      PieceFacts(a, comp);
      var bytes, later, pixels := PieceBytes(a), PiecesBytes(rest, comp), PiecePixels(rest);
      assert PiecesBytes(pieces, comp) == bytes + later && PiecePixels(pieces) == a.pixels + pixels;
      hide PiecesBytes, PiecePixels, PiecesOk;
      HasBytesSplit(input, r.pos, bytes, later);
      var mid := PacketReads(input, comp, r, a.pixels, a.raw, n);
      end := PiecesRead(input, comp, mid, rest, n - |a.pixels|);
      SwapJoins(a.pixels, pixels);
      Associates(SwapAll(a.pixels), SwapAll(pixels), ReadPixels(input, comp, end, n - |a.pixels| - |pixels|));
    }
  }

  lemma PieceFacts(a: Piece, comp: nat)
    requires PieceOk(a, comp)
    ensures 1 <= |a.pixels| <= 128 && Whole(a.pixels, comp) && (!a.raw ==> AllSame(a.pixels))
    ensures PacketBytes(a.pixels, a.raw) == PieceBytes(a)
  {
  }

  lemma Associates(x: seq<Pixel>, y: seq<Pixel>, z: seq<Pixel>)
    ensures x + (y + z) == x + y + z
  {
  }

  lemma NoneSwapped()
    ensures SwapAll([]) == []
  {
  }

  lemma SwapJoins(a: seq<Pixel>, b: seq<Pixel>)
    ensures SwapAll(a + b) == SwapAll(a) + SwapAll(b)
  {
  }
}
