/** Adam7 interlacing (section 2.6 of RFC 2083): seven passes, each a small image of its own,
    are decoded one after the other and spread over the final image. */
module Adam7 {
  import opened Bits
  import opened PngFilter
  import opened Products

  function Xorig(p: nat): (r: nat)
    requires p < 7
    ensures r < Xspc(p)
  {
    if p == 1 then 4 else if p == 3 then 2 else if p == 5 then 1 else 0
  }

  function Yorig(p: nat): (r: nat)
    requires p < 7
    ensures r < Yspc(p)
  {
    if p == 2 then 4 else if p == 4 then 2 else if p == 6 then 1 else 0
  }

  function Xspc(p: nat): (r: nat)
    requires p < 7
    ensures r == 1 || r == 2 || r == 4 || r == 8
  {
    if p <= 1 then 8 else if p <= 3 then 4 else if p <= 5 then 2 else 1
  }

  function Yspc(p: nat): (r: nat)
    requires p < 7
    ensures r == 1 || r == 2 || r == 4 || r == 8
  {
    if p <= 2 then 8 else if p <= 4 then 4 else 2
  }

  function PassWidth(p: nat, w: nat): nat
    requires p < 7
  {
    (w - Xorig(p) + Xspc(p) - 1) / Xspc(p)
  }

  function PassHeight(p: nat, h: nat): nat
    requires p < 7
  {
    (h - Yorig(p) + Yspc(p) - 1) / Yspc(p)
  }

  /** The pass that carries pixel (x, y), from the eight by eight pattern. */
  function PassOf(x: nat, y: nat): (p: nat)
    ensures p < 7
  {
    if y % 2 == 1 then 6
    else if x % 2 == 1 then 5
    else if y % 4 == 2 then 4
    else if x % 4 == 2 then 3
    else if y % 8 == 4 then 2
    else if x % 8 == 4 then 1
    else 0
  }

  /** The pattern of section 2.6 of RFC 2083, passes numbered from 1. */
  function Pattern(x: nat, y: nat): nat
    requires x < 8 && y < 8
  {
    if y == 0 then [1, 6, 4, 6, 2, 6, 4, 6][x]
    else if y == 2 || y == 6 then [5, 6, 5, 6, 5, 6, 5, 6][x]
    else if y == 4 then [3, 6, 4, 6, 3, 6, 4, 6][x]
    else 7
  }

  /** Every eight by eight square of the image shows the pattern. */
  lemma PatternRepeats(x: nat, y: nat)
    ensures PassOf(x, y) + 1 == Pattern(x % 8, y % 8)
  {
    Residues(x);
    Residues(y);
  }

  /** Pass p places its pixel (i, j) on (x, y). */
  ghost predicate Lands(p: nat, i: nat, j: nat, x: nat, y: nat)
    requires p < 7
  {
    x == i * Xspc(p) + Xorig(p) && y == j * Yspc(p) + Yorig(p)
  }

  /** Where in its pass the pixel is. */
  function Column(x: nat, y: nat): nat { x / Xspc(PassOf(x, y)) }
  function Line(x: nat, y: nat): nat { y / Yspc(PassOf(x, y)) }

  /** Every pixel of every image is carried by exactly one pixel of exactly one pass. */
  lemma Coverage(w: nat, h: nat, x: nat, y: nat)
    requires x < w && y < h
    ensures var p := PassOf(x, y);
      && Column(x, y) < PassWidth(p, w) && Line(x, y) < PassHeight(p, h)
      && Lands(p, Column(x, y), Line(x, y), x, y)
    ensures forall p: nat, i: nat, j: nat :: p < 7 && Lands(p, i, j, x, y) ==>
      p == PassOf(x, y) && i == Column(x, y) && j == Line(x, y)
  {
    InsidePass(w, h, x, y);
    forall p: nat, i: nat, j: nat | p < 7 && Lands(p, i, j, x, y)
      ensures p == PassOf(x, y) && i == Column(x, y) && j == Line(x, y)
    {
      LandsUnique(p, i, j, x, y);
    }
  }

  /** One axis: the positions o, o + s, o + 2s, ... below n. */
  lemma Axis(v: nat, n: nat, s: nat, o: nat)
    requires s == 1 || s == 2 || s == 4 || s == 8
    requires o < s && v < n && v % s == o
    ensures v == (v / s) * s + o && v / s < (n - o + s - 1) / s
  {
    if s == 1 {
    } else if s == 2 {
    } else if s == 4 {
    } else {
    }
  }

  lemma AxisUnique(v: nat, s: nat, o: nat, i: nat)
    requires s == 1 || s == 2 || s == 4 || s == 8
    requires o < s && v == i * s + o
    ensures i == v / s && v % s == o
  {
    if s == 1 {
    } else if s == 2 {
    } else if s == 4 {
    } else {
    }
  }

  lemma InsidePass(w: nat, h: nat, x: nat, y: nat)
    requires x < w && y < h
    ensures var p := PassOf(x, y);
      && Column(x, y) < PassWidth(p, w) && Line(x, y) < PassHeight(p, h)
      && Lands(p, Column(x, y), Line(x, y), x, y)
  {
    hide PassOf, Xspc, Yspc, Xorig, Yorig;
    var p := PassOf(x, y);
    PassResidues(x, y);
    Axis(x, w, Xspc(p), Xorig(p));
    Axis(y, h, Yspc(p), Yorig(p));
  }

  lemma PassResidues(x: nat, y: nat)
    ensures var p := PassOf(x, y); x % Xspc(p) == Xorig(p) && y % Yspc(p) == Yorig(p)
  {
    Residues(x);
    Residues(y);
  }

  /** The smaller residues follow from the residue modulo 8. */
  lemma Residues(v: nat)
    ensures var r := v % 8;
      v % 4 == (if r >= 4 then r - 4 else r) && v % 2 == (if r == 1 || r == 3 || r == 5 || r == 7 then 1 else 0)
  {
    var q, r := v / 8, v % 8;
    ModuloFour(2 * q, r);
    ModuloTwo(4 * q, r);
  }

  lemma ModuloFour(k: nat, r: nat)
    requires r < 8
    ensures (4 * k + r) % 4 == if r >= 4 then r - 4 else r
  {
  }

  lemma ModuloTwo(k: nat, r: nat)
    requires r < 8
    ensures (2 * k + r) % 2 == if r == 1 || r == 3 || r == 5 || r == 7 then 1 else 0
  {
  }

  /** The residues that select a pass. */
  lemma PassFromResidues(p: nat, x: nat, y: nat)
    requires p < 7 && x % Xspc(p) == Xorig(p) && y % Yspc(p) == Yorig(p)
    ensures PassOf(x, y) == p
  {
  }

  lemma LandsUnique(p: nat, i: nat, j: nat, x: nat, y: nat)
    requires p < 7 && Lands(p, i, j, x, y)
    ensures p == PassOf(x, y) && i == Column(x, y) && j == Line(x, y)
  {
    AxisUnique(x, Xspc(p), Xorig(p), i);
    AxisUnique(y, Yspc(p), Yorig(p), j);
    PassFromResidues(p, x, y);
  }

  /** No pass reaches outside the image. */
  lemma StaysInside(p: nat, w: nat, h: nat, i: nat, j: nat)
    requires p < 7 && i < PassWidth(p, w) && j < PassHeight(p, h)
    ensures i * Xspc(p) + Xorig(p) < w && j * Yspc(p) + Yorig(p) < h
  {
  }

  // ---- decoding ----

  /** The seven pass images from pass p on, cut one after the other from the data. */
  function Passes(raw: seq<byte>, w: nat, h: nat, n: nat, p: nat): (r: Option<seq<seq<byte>>>)
    requires p <= 7
    ensures r.Some? ==> |r.value| == 7 - p
    decreases 7 - p
  {
    if p == 7 then Some([])
    else
      var x, y := PassWidth(p, w), PassHeight(p, h);
      if x == 0 || y == 0 then
        match Passes(raw, w, h, n, p + 1)
        case None => None
        case Some(rest) => Some([[]] + rest)
      else
        match UnfilterRows(raw, y, x * n, n, [])
        case None => None
        case Some(image) =>
          match Passes(raw[Times(x * n + 1, y)..], w, h, n, p + 1)
          case None => None
          case Some(rest) => Some([image] + rest)
  }

  /** Where pixel (x, y) starts in an image w pixels wide. */
  function Offset(x: nat, y: nat, w: nat, n: nat): nat {
    (y * w + x) * n
  }

  lemma Scale(a: nat, b: nat, n: nat)
    requires a < b
    ensures a * n + n <= b * n
  {
    var d: nat := b - a - 1;
    assert (a + 1 + d) * n == a * n + n + d * n;
    assert 0 <= d * n;
  }

  lemma OffsetInside(x: nat, y: nat, w: nat, h: nat, n: nat)
    requires x < w && y < h
    ensures Offset(x, y, w, n) + n <= w * h * n
  {
    Scale(y, h, w);
    assert y * w + w <= h * w && h * w == w * h;
    Scale(y * w + x, w * h, n);
  }

  /** Different pixels occupy disjoint bytes. */
  lemma OffsetsApart(x: nat, y: nat, x': nat, y': nat, w: nat, n: nat)
    requires x < w && x' < w && (x != x' || y != y')
    ensures Offset(x, y, w, n) + n <= Offset(x', y', w, n) || Offset(x', y', w, n) + n <= Offset(x, y, w, n)
  {
    var a, b := y * w + x, y' * w + x';
    if y < y' { Scale(y, y', w); } else if y' < y { Scale(y', y, w); }
    if a < b { Scale(a, b, n); } else { Scale(b, a, n); }
  }

  /** The bytes of pixel (x, y) of a decoded interlaced image. */
  ghost function Pixel(images: seq<seq<byte>>, w: nat, h: nat, n: nat, x: nat, y: nat): seq<byte>
    requires |images| == 7 && x < w && y < h
    requires Sized(images, w, h, n)
  {
    var p := PassOf(x, y);
    InsidePass(w, h, x, y);
    OffsetInside(Column(x, y), Line(x, y), PassWidth(p, w), PassHeight(p, h), n);
    var o := Offset(Column(x, y), Line(x, y), PassWidth(p, w), n);
    assert |images[p]| == PassSize(p, w, h, n);
    images[p][o..o + n]
  }

  function PassSize(p: nat, w: nat, h: nat, n: nat): nat
    requires p < 7
  {
    PassWidth(p, w) * PassHeight(p, h) * n
  }

  ghost predicate Sized(images: seq<seq<byte>>, w: nat, h: nat, n: nat)
    requires |images| == 7
  {
    forall p :: 0 <= p < 7 ==> |images[p]| == PassSize(p, w, h, n)
  }

  /** The pixels of the passes before p, and of the lines and columns of pass p already
      copied, are in place. */
  ghost predicate Placed(out: seq<byte>, images: seq<seq<byte>>, w: nat, h: nat, n: nat, p: nat, j: nat, i: nat)
    requires |images| == 7 && Sized(images, w, h, n) && |out| == w * h * n
  {
    forall x: nat, y: nat :: x < w && y < h && Copied(x, y, p, j, i) ==> InPlace(out, images, w, h, n, x, y)
  }

  /** Whether pixel (x, y) comes before column i of line j of pass p in copying order. */
  predicate Copied(x: nat, y: nat, p: nat, j: nat, i: nat) {
    PassOf(x, y) < p || (PassOf(x, y) == p && (Line(x, y) < j || (Line(x, y) == j && Column(x, y) < i)))
  }

  ghost predicate InPlace(out: seq<byte>, images: seq<seq<byte>>, w: nat, h: nat, n: nat, x: nat, y: nat)
    requires |images| == 7 && Sized(images, w, h, n) && |out| == w * h * n && x < w && y < h
  {
    OffsetInside(x, y, w, h, n);
    out[Offset(x, y, w, n)..Offset(x, y, w, n) + n] == Pixel(images, w, h, n, x, y)
  }

  /** Copying one pixel puts it in place and disturbs no other. */
  lemma CopyPlaces(before: seq<byte>, after: seq<byte>, images: seq<seq<byte>>, w: nat, h: nat, n: nat,
                   p: nat, j: nat, i: nat, x: nat, y: nat)
    requires |images| == 7 && Sized(images, w, h, n) && |before| == |after| == w * h * n
    requires p < 7 && i < PassWidth(p, w) && j < PassHeight(p, h) && Lands(p, i, j, x, y) && x < w && y < h
    requires Placed(before, images, w, h, n, p, j, i)
    requires Offset(x, y, w, n) + n <= w * h * n
    requires forall k :: 0 <= k < |after| && !(Offset(x, y, w, n) <= k < Offset(x, y, w, n) + n) ==> after[k] == before[k]
    requires InPlace(after, images, w, h, n, x, y)
    ensures Placed(after, images, w, h, n, p, j, i + 1)
  {
    hide PassOf, Pixel, Offset;
    LandsUnique(p, i, j, x, y);
    forall x': nat, y': nat | x' < w && y' < h && Copied(x', y', p, j, i + 1)
      ensures InPlace(after, images, w, h, n, x', y')
    {
      if x' != x || y' != y {
        SamePixel(w, h, x, y, x', y');
        OffsetsApart(x, y, x', y', w, n);
        OffsetInside(x', y', w, h, n);
        var o := Offset(x', y', w, n);
        assert InPlace(before, images, w, h, n, x', y');
        assert after[o..o + n] == before[o..o + n];
      }
    }
  }

  lemma SamePixel(w: nat, h: nat, x: nat, y: nat, x': nat, y': nat)
    requires x < w && y < h && x' < w && y' < h && (x != x' || y != y')
    ensures PassOf(x, y) != PassOf(x', y') || Line(x, y) != Line(x', y') || Column(x, y) != Column(x', y')
  {
    InsidePass(w, h, x, y);
    InsidePass(w, h, x', y');
  }

  /** A finished line, or a finished pass, is the start of the next. */
  lemma NextLine(out: seq<byte>, images: seq<seq<byte>>, w: nat, h: nat, n: nat, p: nat, j: nat)
    requires |images| == 7 && Sized(images, w, h, n) && |out| == w * h * n && p < 7
    requires Placed(out, images, w, h, n, p, j, PassWidth(p, w))
    ensures Placed(out, images, w, h, n, p, j + 1, 0)
  {
    hide PassOf, Pixel, Offset, InPlace;
    forall x: nat, y: nat | x < w && y < h && Copied(x, y, p, j + 1, 0)
      ensures Copied(x, y, p, j, PassWidth(p, w))
    {
      InsidePass(w, h, x, y);
    }
  }

  lemma NextPass(out: seq<byte>, images: seq<seq<byte>>, w: nat, h: nat, n: nat, p: nat, j: nat)
    requires |images| == 7 && Sized(images, w, h, n) && |out| == w * h * n && p < 7
    requires Placed(out, images, w, h, n, p, j, 0) && (j >= PassHeight(p, h) || PassWidth(p, w) == 0)
    ensures Placed(out, images, w, h, n, p + 1, 0, 0)
  {
    hide PassOf, Pixel, Offset, InPlace;
    forall x: nat, y: nat | x < w && y < h && Copied(x, y, p + 1, 0, 0)
      ensures Copied(x, y, p, j, 0)
    {
      InsidePass(w, h, x, y);
    }
  }

  /** An image list whose later passes are still blank. */
  ghost function Blank(w: nat, h: nat, n: nat): (images: seq<seq<byte>>)
    ensures |images| == 7 && Sized(images, w, h, n)
  {
    seq(7, p requires 0 <= p < 7 => seq(PassSize(p, w, h, n), i => 0))
  }

  lemma ReplacePass(out: seq<byte>, images: seq<seq<byte>>, image: seq<byte>, w: nat, h: nat, n: nat, p: nat)
    requires |images| == 7 && Sized(images, w, h, n) && |out| == w * h * n && p < 7
    requires |image| == PassSize(p, w, h, n) && Placed(out, images, w, h, n, p, 0, 0)
    ensures Sized(images[p := image], w, h, n) && Placed(out, images[p := image], w, h, n, p, 0, 0)
  {
    hide PassOf, Offset;
    forall x: nat, y: nat | x < w && y < h && Copied(x, y, p, 0, 0)
      ensures InPlace(out, images[p := image], w, h, n, x, y)
    {
      assert InPlace(out, images, w, h, n, x, y);
    }
  }

  ghost function Prefixed(a: seq<seq<byte>>, r: Option<seq<seq<byte>>>): Option<seq<seq<byte>>> {
    match r
    case None => None
    case Some(b) => Some(a + b)
  }

  /** Copies pixel (i, j) of a pass to its place. */
  method CopyPixel(out: array<byte>, image: array<byte>, w: nat, h: nat, n: nat, p: nat, j: nat, i: nat,
                   ghost images: seq<seq<byte>>)
    requires p < 7 && i < PassWidth(p, w) && j < PassHeight(p, h) && out != image && out.Length == w * h * n
    requires |images| == 7 && Sized(images, w, h, n) && images[p] == image[..]
    requires Placed(out[..], images, w, h, n, p, j, i)
    modifies out
    ensures Placed(out[..], images, w, h, n, p, j, i + 1)
  {
    hide PassOf, Xspc, Yspc, Xorig, Yorig, Placed, Pixel, Offset, PassWidth, PassHeight;
    StaysInside(p, w, h, i, j);
    var outY, outX := j * Yspc(p) + Yorig(p), i * Xspc(p) + Xorig(p);
    OffsetInside(outX, outY, w, h, n);
    OffsetInside(i, j, PassWidth(p, w), PassHeight(p, h), n);
    var to, from := Offset(outX, outY, w, n), Offset(i, j, PassWidth(p, w), n);
    ghost var before := out[..];
    for k := 0 to n
      invariant forall m :: 0 <= m < out.Length ==>
        out[m] == if to <= m < to + k then image[m - to + from] else before[m]
    {
      out[to + k] := image[from + k];
    }
    ghost var after := out[..];
    assert after[to..to + n] == image[from..from + n];
    CopiedInPlace(after, images, w, h, n, p, j, i, outX, outY);
    CopyPlaces(before, after, images, w, h, n, p, j, i, outX, outY);
  }

  lemma CopiedInPlace(out: seq<byte>, images: seq<seq<byte>>, w: nat, h: nat, n: nat, p: nat, j: nat, i: nat,
                      x: nat, y: nat)
    requires |images| == 7 && Sized(images, w, h, n) && |out| == w * h * n
    requires p < 7 && i < PassWidth(p, w) && j < PassHeight(p, h) && Lands(p, i, j, x, y) && x < w && y < h
    requires Offset(x, y, w, n) + n <= |out| && Offset(i, j, PassWidth(p, w), n) + n <= |images[p]|
    requires out[Offset(x, y, w, n)..Offset(x, y, w, n) + n]
          == images[p][Offset(i, j, PassWidth(p, w), n)..Offset(i, j, PassWidth(p, w), n) + n]
    ensures InPlace(out, images, w, h, n, x, y)
  {
    hide PassOf, Xspc, Yspc, Xorig, Yorig, Offset, PassWidth, PassHeight;
    LandsUnique(p, i, j, x, y);
    OffsetInside(x, y, w, h, n);
  }

  /** Spreads a decoded pass over the final image. */
  method CopyPass(out: array<byte>, image: array<byte>, w: nat, h: nat, n: nat, p: nat, ghost images: seq<seq<byte>>)
    requires p < 7 && out != image && out.Length == w * h * n
    requires |images| == 7 && Sized(images, w, h, n) && images[p] == image[..]
    requires Placed(out[..], images, w, h, n, p, 0, 0)
    modifies out
    ensures Placed(out[..], images, w, h, n, p + 1, 0, 0)
  {
    hide PassOf, Placed, Pixel, Offset, PassWidth, PassHeight, Xspc, Yspc, Xorig, Yorig;
    var x, y := PassWidth(p, w), PassHeight(p, h);
    for j := 0 to y
      invariant Placed(out[..], images, w, h, n, p, j, 0)
    {
      for i := 0 to x
        invariant Placed(out[..], images, w, h, n, p, j, i)
      {
        CopyPixel(out, image, w, h, n, p, j, i, images);
      }
      NextLine(out[..], images, w, h, n, p, j);
    }
    NextPass(out[..], images, w, h, n, p, y);
  }

  /** Decodes pass p, if it has pixels, from the data at rp and spreads it over the image. */
  method DecodePass(out: array<byte>, raw: seq<byte>, rp: nat, n: nat, w: nat, h: nat, p: nat,
                    ghost images: seq<seq<byte>>) returns (ok: bool, end: nat, ghost image: seq<byte>)
    requires n > 0 && p < 7 && rp <= |raw| && out.Length == w * h * n
    requires |images| == 7 && Sized(images, w, h, n) && Placed(out[..], images, w, h, n, p, 0, 0)
    modifies out
    ensures !ok ==> Passes(raw[rp..], w, h, n, p) == None
    ensures ok ==> rp <= end <= |raw| && |image| == PassSize(p, w, h, n)
    ensures ok ==> Passes(raw[rp..], w, h, n, p) == Prefixed([image], Passes(raw[end..], w, h, n, p + 1))
    ensures ok ==> Sized(images[p := image], w, h, n) && Placed(out[..], images[p := image], w, h, n, p + 1, 0, 0)
  {
    hide PassOf, Pixel, Offset, PassWidth, PassHeight, Xspc, Yspc, Xorig, Yorig, Placed, Sized, UnfilterRows, Times;
    var x, y := PassWidth(p, w), PassHeight(p, h);
    ok, image, end := true, [], rp;
    if x > 0 && y > 0 {
      var pass;
      ok, pass := CreatePngImageRaw(raw[rp..], n, x, y);
      if !ok { return; }
      image := pass[..];
      PassLength(x, y, n);
      ReplacePass(out[..], images, image, w, h, n, p);
      CopyPass(out, pass, w, h, n, p, images[p := image]);
      assert raw[rp..][Times(x * n + 1, y)..] == raw[rp + Times(x * n + 1, y)..];
      TimesIsProduct(x * n + 1, y);
      end := rp + (x * n + 1) * y;
    } else {
      NoPixels(x, y, n);
      ReplacePass(out[..], images, image, w, h, n, p);
      NextPass(out[..], images[p := image], w, h, n, p, 0);
    }
  }

  /** Decodes an interlaced image: pass after pass from consecutive stretches of the data. */
  method Deinterlace(raw: seq<byte>, n: nat, w: nat, h: nat) returns (ok: bool, out: array<byte>)
    requires n > 0 && w > 0 && h > 0
    ensures fresh(out) && out.Length == w * h * n
    ensures match Passes(raw, w, h, n, 0)
      case None => !ok
      case Some(images) => ok && Deinterlaced(out[..], images, w, h, n)
  {
    hide PassOf, Pixel, Offset, PassWidth, PassHeight, Xspc, Yspc, Xorig, Yorig, InPlace, Placed, Sized, Passes;
    out := new byte[w * h * n];
    ghost var goal := Passes(raw, w, h, n, 0);
    ghost var images: seq<seq<byte>> := Blank(w, h, n);
    var rp := 0;
    assert raw[0..] == raw && images[..0] == [];
    PrefixedNothing(goal);
    NothingPlaced(out[..], images, w, h, n);
    for p := 0 to 7
      invariant rp <= |raw| && |images| == 7 && Sized(images, w, h, n)
      invariant Placed(out[..], images, w, h, n, p, 0, 0)
      invariant goal == Prefixed(images[..p], Passes(raw[rp..], w, h, n, p))
    {
      ghost var image;
      ok, rp, image := DecodePass(out, raw, rp, n, w, h, p, images);
      if !ok { return; }
      assert images[p := image][..p + 1] == images[..p] + [image];
      PrefixedPrefixed(images[..p], image, Passes(raw[rp..], w, h, n, p + 1));
      images := images[p := image];
    }
    assert images[..7] == images;
    AllPlaced(out[..], raw[rp..], images, w, h, n);
    ok := true;
  }

  /** Every pixel of the image is the one its pass carries. */
  ghost predicate Deinterlaced(out: seq<byte>, images: seq<seq<byte>>, w: nat, h: nat, n: nat) {
    |images| == 7 && Sized(images, w, h, n) && |out| == w * h * n
    && forall x: nat, y: nat :: x < w && y < h ==> InPlace(out, images, w, h, n, x, y)
  }

  lemma NothingPlaced(out: seq<byte>, images: seq<seq<byte>>, w: nat, h: nat, n: nat)
    requires |images| == 7 && Sized(images, w, h, n) && |out| == w * h * n
    ensures Placed(out, images, w, h, n, 0, 0, 0)
  {
  }

  lemma AllPlaced(out: seq<byte>, rest: seq<byte>, images: seq<seq<byte>>, w: nat, h: nat, n: nat)
    requires |images| == 7 && Sized(images, w, h, n) && |out| == w * h * n
    requires Placed(out, images, w, h, n, 7, 0, 0)
    ensures Prefixed(images, Passes(rest, w, h, n, 7)) == Some(images) && Deinterlaced(out, images, w, h, n)
  {
    hide PassOf, InPlace;
    assert images + [] == images;
  }

  lemma PassLength(x: nat, y: nat, n: nat)
    ensures Times(x * n, y) == x * y * n
  {
    TimesIsProduct(x * n, y);
    assert x * n * y == x * y * n;
  }

  lemma NoPixels(x: nat, y: nat, n: nat)
    requires x == 0 || y == 0
    ensures x * y * n == 0
  {
  }

  lemma PrefixedNothing(r: Option<seq<seq<byte>>>)
    ensures Prefixed([], r) == r
  {
    if r.Some? { assert [] + r.value == r.value; }
  }

  lemma PrefixedPrefixed(a: seq<seq<byte>>, image: seq<byte>, r: Option<seq<seq<byte>>>)
    ensures Prefixed(a, Prefixed([image], r)) == Prefixed(a + [image], r)
  {
    if r.Some? { assert a + ([image] + r.value) == a + [image] + r.value; }
  }
}
