/** Where decoded GIF pixels land: rows in order, or in the four interlace passes of
    Appendix E of the GIF89a specification. */
module GifRaster {
  import opened Bits
  import opened Products

  /** The rows from s on, d apart, of a frame h rows high. */
  function Progression(s: nat, d: nat, h: nat): seq<nat>
    requires d > 0
    decreases h - s
  {
    if s >= h then [] else [s] + Progression(s + d, d, h)
  }

  /** The order in which rows are drawn. */
  function RowOrder(h: nat, interlaced: bool): seq<nat> {
    if interlaced then Progression(0, 8, h) + LaterPasses(3, h) else Progression(0, 1, h)
  }

  /** The passes still to come when `parse` of them remain. */
  function LaterPasses(parse: nat, h: nat): seq<nat> {
    if parse == 0 then [] else Progression(PassStart(parse), PassStep(parse), h) + LaterPasses(parse - 1, h)
  }

  /** Spacing and first row of the pass begun with `parse` remaining: 8 from 4, 4 from 2, 2 from 1. */
  function PassStep(parse: nat): (r: nat)
    requires parse > 0
    ensures r > 0
  {
    Pow2(parse)
  }

  function PassStart(parse: nat): nat
    requires parse > 0
  {
    Pow2(parse) / 2
  }

  /** Row r is one of s, s + d, s + 2d, ... */
  predicate OnPass(s: nat, d: nat, r: nat)
    requires d > 0
  {
    r >= s && (r - s) % d == 0
  }

  lemma OnPassStep(s: nat, d: nat, r: nat)
    requires d == 1 || d == 2 || d == 4 || d == 8
    ensures OnPass(s, d, r) <==> r == s || OnPass(s + d, d, r)
  {
    if d == 1 { } else if d == 2 { } else if d == 4 { } else { }
  }

  lemma {:induction false} ProgressionCount(s: nat, d: nat, h: nat, r: nat)
    requires d == 1 || d == 2 || d == 4 || d == 8
    ensures multiset(Progression(s, d, h))[r] == if r < h && OnPass(s, d, r) then 1 else 0
    decreases h - s
  {
    if s < h {
      hide OnPass;
      var rest := Progression(s + d, d, h);
      ProgressionCount(s + d, d, h, r);
      OnPassStep(s, d, r);
      NotYet(s + d, d, s);
      assert multiset([s] + rest) == multiset([s]) + multiset(rest);
    }
  }

  lemma NotYet(s: nat, d: nat, r: nat)
    requires d > 0 && r < s
    ensures !OnPass(s, d, r)
  {
  }

  /** Every row of a frame of any height is drawn exactly once, interlaced or not. */
  lemma EachRowOnce(h: nat, interlaced: bool, r: nat)
    ensures multiset(RowOrder(h, interlaced))[r] == if r < h then 1 else 0
  {
    if interlaced {
      var a, b, c, d := Progression(0, 8, h), Progression(4, 8, h), Progression(2, 4, h), Progression(1, 2, h);
      InterlacedOrder(h);
      ProgressionCount(0, 8, h, r);
      ProgressionCount(4, 8, h, r);
      ProgressionCount(2, 4, h, r);
      ProgressionCount(1, 2, h, r);
      ResiduesSplit(r);
      hide Progression, OnPass;
      assert multiset(a + b + c + d) == multiset(a) + multiset(b) + multiset(c) + multiset(d);
    } else {
      ProgressionCount(0, 1, h, r);
      EveryRow(r);
    }
  }

  lemma InterlacedOrder(h: nat)
    ensures RowOrder(h, true)
         == Progression(0, 8, h) + Progression(4, 8, h) + Progression(2, 4, h) + Progression(1, 2, h)
  {
    hide Progression;
    var a, b, c, d := Progression(0, 8, h), Progression(4, 8, h), Progression(2, 4, h), Progression(1, 2, h);
    Pow2Values();
    assert LaterPasses(0, h) == [];
    assert LaterPasses(1, h) == d;
    assert LaterPasses(2, h) == c + d;
    assert LaterPasses(3, h) == b + (c + d);
    assert a + (b + (c + d)) == a + b + c + d;
  }

  lemma EveryRow(r: nat)
    ensures OnPass(0, 1, r)
  {
  }

  /** Every row number is in exactly one of the four passes. */
  lemma ResiduesSplit(r: nat)
    ensures (if OnPass(0, 8, r) then 1 else 0) + (if OnPass(4, 8, r) then 1 else 0)
          + (if OnPass(2, 4, r) then 1 else 0) + (if OnPass(1, 2, r) then 1 else 0) == 1
  {
    hide OnPass;
    PassOfEight(0, r);
    PassOfEight(4, r);
    PassOfFour(2, r);
    PassOfTwo(1, r);
    var half := r / 2;
    var quarter := half / 2;
    BinaryDigits(r, quarter / 2, quarter % 2, half % 2, r % 2);
  }

  lemma BinaryDigits(r: nat, eighth: nat, high: nat, middle: nat, low: nat)
    requires high <= 1 && middle <= 1 && low <= 1 && r == 2 * (2 * (2 * eighth + high) + middle) + low
    ensures r % 8 == 4 * high + 2 * middle + low && r % 4 == 2 * middle + low && r % 2 == low
  {
    Remainder(r, eighth, 8, 4 * high + 2 * middle + low);
    Remainder(r, 2 * eighth + high, 4, 2 * middle + low);
  }

  lemma Remainder(r: nat, q: nat, d: nat, m: nat)
    requires (d == 8 || d == 4) && m < d && r == (if d == 8 then 8 * q else 4 * q) + m
    ensures r % d == m
  {
  }

  lemma PassOfEight(y: nat, r: nat)
    requires y < 8
    ensures OnPass(y, 8, r) <==> r % 8 == y
  {
    var q, m := r / 8, r % 8;
    if r >= y { assert r - y == if m >= y then 8 * q + (m - y) else 8 * (q - 1) + (8 + m - y); }
  }

  lemma PassOfFour(y: nat, r: nat)
    requires y < 4
    ensures OnPass(y, 4, r) <==> r % 4 == y
  {
    var q, m := r / 4, r % 4;
    if r >= y { assert r - y == if m >= y then 4 * q + (m - y) else 4 * (q - 1) + (4 + m - y); }
  }

  lemma PassOfTwo(y: nat, r: nat)
    requires y < 2
    ensures OnPass(y, 2, r) <==> r % 2 == y
  {
    var q, m := r / 2, r % 2;
    if r >= y { assert r - y == if m >= y then 2 * q + (m - y) else 2 * (q - 1) + (2 + m - y); }
  }

  lemma {:induction false} RowsBelow(h: nat, interlaced: bool, k: nat)
    requires k < |RowOrder(h, interlaced)|
    ensures RowOrder(h, interlaced)[k] < h
  {
    var r := RowOrder(h, interlaced)[k];
    assert r in multiset(RowOrder(h, interlaced));
    EachRowOnce(h, interlaced, r);
  }

  lemma RowsDistinct(h: nat, interlaced: bool, j: nat, k: nat)
    requires j < k < |RowOrder(h, interlaced)|
    ensures RowOrder(h, interlaced)[j] != RowOrder(h, interlaced)[k]
  {
    EachRowOnce(h, interlaced, RowOrder(h, interlaced)[j]);
    hide RowOrder;
    if RowOrder(h, interlaced)[j] == RowOrder(h, interlaced)[k] {
      CountedTwice(RowOrder(h, interlaced), j, k);
    }
  }

  lemma CountedTwice(s: seq<nat>, j: nat, k: nat)
    requires j < k < |s| && s[j] == s[k]
    ensures multiset(s)[s[j]] >= 2
  {
    var a, b := s[..k], s[k..];
    assert s == a + b && a[j] == s[j] && b[0] == s[j];
    assert s[j] in multiset(a) && s[j] in multiset(b);
    assert multiset(a + b) == multiset(a) + multiset(b);
  }

  class Raster {
    const w: nat
    const h: nat
    const interlaced: bool
    const image: array2<byte>
    var curX: nat
    var curY: nat
    var step: nat
    var parse: nat
    ghost var rowsDone: nat
    /** The pixels that fell inside the frame, in decoding order. */
    ghost var pixels: seq<byte>

    constructor (w: nat, h: nat, interlaced: bool)
      ensures this.w == w && this.h == h && this.interlaced == interlaced && fresh(image)
      ensures Valid() && pixels == []
    {
      this.w, this.h, this.interlaced := w, h, interlaced;
      image := new byte[h, w];
      curX := 0;
      curY := if w == 0 then h else 0;
      step := if interlaced then 8 else 1;
      parse := if interlaced then 3 else 0;
      rowsDone := if w == 0 then |RowOrder(h, interlaced)| else 0;
      pixels := [];
      new;
      SkipAll();
      assert RowOrder(h, interlaced)[0..] == RowOrder(h, interlaced);
    }

    lemma SkipAll()
      ensures Times(0, |RowOrder(h, interlaced)|) == 0 && Times(w, 0) == 0
    {
      TimesZero(|RowOrder(h, interlaced)|);
    }

    /** The rows still to be drawn, the current one first. */
    ghost function Remaining(): seq<nat>
      requires step > 0
      reads this
    {
      if w == 0 then [] else Progression(curY, step, h) + LaterPasses(parse, h)
    }

    /** The rows drawn and the rows to come make up the order; the pixels fill the drawn rows. */
    ghost predicate Valid()
      reads this, image
    {
      && image.Length0 == h && image.Length1 == w && step > 0
      && (w > 0 ==> curX < w) && (w == 0 ==> curX == 0 && curY >= h)
      && (curY >= h ==> Remaining() == []) && (curX > 0 ==> curY < h)
      && rowsDone <= |RowOrder(h, interlaced)| && RowOrder(h, interlaced)[rowsDone..] == Remaining()
      && |pixels| == Times(w, rowsDone) + curX && Filled(rowsDone, curX)
    }

    /** The first n rows of the order and x pixels of the next are in place. */
    ghost predicate Filled(n: nat, x: nat)
      requires image.Length0 == h && image.Length1 == w
      reads this`pixels, image
    {
      forall j: nat, i: nat :: j < |RowOrder(h, interlaced)| && i < w && (j < n || (j == n && i < x)) ==> PixelOk(j, i)
    }

    /** Pixel x of the k-th drawn row is in its place. */
    ghost predicate PixelOk(k: nat, x: nat)
      requires image.Length0 == h && image.Length1 == w && k < |RowOrder(h, interlaced)| && x < w
      reads this`pixels, image
    {
      RowsBelow(h, interlaced, k);
      Times(w, k) + x < |pixels| && image[RowOrder(h, interlaced)[k], x] == pixels[Times(w, k) + x]
    }

    /** Draws the next pixel, if the frame is not full, and steps to the next place. */
    method Draw(v: byte)
      requires Valid()
      modifies this, image
      ensures Valid() && pixels == if |old(pixels)| == Capacity() then old(pixels) else old(pixels) + [v]
    {
      hide Progression, RowOrder, LaterPasses, Filled, Times;
      FullAtCapacity();
      if curY >= h { return; }
      DrawInside(v);
    }

    /** Draws a pixel of the current row; at the row's end moves on. */
    method DrawInside(v: byte)
      requires Valid() && curY < h
      modifies this, image
      ensures Valid() && pixels == old(pixels) + [v]
    {
      hide RowOrder, LaterPasses, PixelOk, Filled, Times;
      CurrentRow(curY, step, h, LaterPasses(parse, h), RowOrder(h, interlaced), rowsDone);
      Put(v);
      NextPlace();
    }

    /** Behind a pixel just drawn, moves to its right or to the next row. */
    method NextPlace()
      requires image.Length0 == h && image.Length1 == w && step > 0 && curX < w && curY < h
      requires rowsDone < |RowOrder(h, interlaced)| && RowOrder(h, interlaced)[rowsDone..] == Remaining()
      requires RowOrder(h, interlaced)[rowsDone + 1..] == Progression(curY + step, step, h) + LaterPasses(parse, h)
      requires |pixels| == Times(w, rowsDone) + curX + 1 && Filled(rowsDone, curX + 1)
      requires curX + 1 == w ==> Filled(rowsDone + 1, 0) && |pixels| == Times(w, rowsDone + 1)
      modifies this`curX, this`curY, this`step, this`parse, this`rowsDone
      ensures Valid()
    {
      hide RowOrder, LaterPasses, Progression, PixelOk, Filled, Times;
      curX := curX + 1;
      if curX >= w {
        curX := 0;
        rowsDone := rowsDone + 1;
        NextRow();
      }
    }

    /** How many pixels the frame takes. */
    ghost function Capacity(): nat {
      Times(w, |RowOrder(h, interlaced)|)
    }

    lemma FullAtCapacity()
      requires Valid()
      ensures |pixels| <= Capacity()
      ensures curY >= h <==> |pixels| == Capacity()
    {
      hide RowOrder, Filled;
      if curY < h {
        TimesGrows(w, rowsDone + 1, |RowOrder(h, interlaced)|);
        TimesNext(w, rowsDone);
      }
    }

    static lemma CurrentRow(y: nat, d: nat, h: nat, later: seq<nat>, order: seq<nat>, done: nat)
      requires d > 0 && y < h && done <= |order| && order[done..] == Progression(y, d, h) + later
      ensures done < |order| && order[done] == y
      ensures order[done + 1..] == Progression(y + d, d, h) + later
    {
      ProgressionStep(y, d, h);
      hide Progression;
      var first, rest := Progression(y + d, d, h), Progression(y + d, d, h) + later;
      assert [y] + first + later == [y] + rest;
      FirstOf(order, done, y, rest);
    }

    static lemma ProgressionStep(y: nat, d: nat, h: nat)
      requires d > 0 && y < h
      ensures Progression(y, d, h) == [y] + Progression(y + d, d, h)
    {
    }

    static lemma FirstOf(s: seq<nat>, n: nat, x: nat, rest: seq<nat>)
      requires n <= |s| && s[n..] == [x] + rest
      ensures n < |s| && s[n] == x && s[n + 1..] == rest
    {
      assert |s[n..]| == 1 + |rest|;
      assert s[n] == s[n..][0] && s[n + 1..] == s[n..][1..];
    }

    /** Stores the pixel; no pixel stored before is overwritten. */
    method Put(v: byte)
      requires image.Length0 == h && image.Length1 == w && curY < h && curX < w
      requires rowsDone < |RowOrder(h, interlaced)| && RowOrder(h, interlaced)[rowsDone] == curY
      requires |pixels| == Times(w, rowsDone) + curX && Filled(rowsDone, curX)
      modifies this`pixels, image
      ensures pixels == old(pixels) + [v] && Filled(rowsDone, curX + 1)
      ensures curX + 1 == w ==> Filled(rowsDone + 1, 0) && |pixels| == Times(w, rowsDone + 1)
    {
      hide RowOrder, Times;
      TimesNext(w, rowsDone);
      label L:
      image[curY, curX] := v;
      pixels := pixels + [v];
      forall j: nat, i: nat | j < |RowOrder(h, interlaced)| && i < w && (j < rowsDone || (j == rowsDone && i < curX + 1))
        ensures PixelOk(j, i)
      {
        if j < rowsDone || i < curX {
          assert old@L(PixelOk(j, i));
          if j < rowsDone { RowsDistinct(h, interlaced, j, rowsDone); }
        }
      }
    }

    /** Moves to the next row of the pass, or to the first later pass that has one. */
    method NextRow()
      requires step > 0 && w > 0
      modifies this`curY, this`step, this`parse
      ensures step > 0 && Remaining() == old(Progression(curY + step, step, h) + LaterPasses(parse, h))
      ensures curY >= h ==> Remaining() == []
    {
      curY := curY + step;
      while curY >= h && parse > 0
        invariant step > 0 && Remaining() == old(Progression(curY + step, step, h) + LaterPasses(parse, h))
        decreases parse
      {
        step := Pow2(parse);
        curY := step / 2;
        parse := parse - 1;
      }
    }
  }
}
