/** Enlarging an image row by row: a ring of horizontally resampled scanlines slides over the input, and
    every output row is a weighted sum of the scanlines in the ring. */
module RingBuffer {
  import opened SampleRange

  type Row = seq<real>

  /** The horizontally resampled scanlines, by number; numbers outside the image are edge scanlines. */
  ghost predicate AllWide(h: int -> Row, width: nat) {
    forall n :: |h(n)| == width
  }

  // ---- the direct definition of an output row ----

  /** Pixel x of scanlines a to b, weighted for row y. */
  ghost function DirectSum(f: Filter, h: int -> Row, width: nat, y: int, a: int, b: int, x: nat): real
    requires f.scale > 0.0 && RowTotal(f, y) != 0.0 && AllWide(h, width) && x < width
    decreases b - a + 1
  {
    if b < a then 0.0 else DirectSum(f, h, width, y, a, b - 1, x) + h(b)[x] * Weight(f, y, b)
  }

  /** Output row y: every scanline of its range with its normalised kernel weight. */
  ghost predicate IsDirectRow(f: Filter, h: int -> Row, width: nat, y: int, row: Row)
    requires f.scale > 0.0 && RowTotal(f, y) != 0.0 && AllWide(h, width)
  {
    |row| == width
    && forall x :: 0 <= x < width ==> row[x] == DirectSum(f, h, width, y, FirstScanline(f, y), LastScanline(f, y), x)
  }

  lemma {:induction false} LeadingZeros(f: Filter, h: int -> Row, width: nat, y: int, a: int, m: int, b: int, x: nat)
    requires f.scale > 0.0 && RowTotal(f, y) != 0.0 && AllWide(h, width) && x < width && a <= m <= b + 1
    requires forall k :: a <= k < m ==> Kernel(f, y, k) == 0.0
    ensures DirectSum(f, h, width, y, a, b, x) == DirectSum(f, h, width, y, m, b, x)
    decreases b - a + 1
  {
    if a <= b {
      LeadingZeros(f, h, width, y, a, if m == b + 1 then b else m, b - 1, x);
      if m == b + 1 {
        assert Kernel(f, y, b) == 0.0 && Weight(f, y, b) == 0.0;
      }
    }
  }

  lemma {:induction false} TrailingZeros(f: Filter, h: int -> Row, width: nat, y: int, a: int, m: int, b: int, x: nat)
    requires f.scale > 0.0 && RowTotal(f, y) != 0.0 && AllWide(h, width) && x < width && m <= b
    requires forall k :: m < k <= b ==> Kernel(f, y, k) == 0.0
    ensures DirectSum(f, h, width, y, a, b, x) == DirectSum(f, h, width, y, a, m, x)
    decreases b - m
  {
    if m < b {
      TrailingZeros(f, h, width, y, a, m, b - 1, x);
      assert Kernel(f, y, b) == 0.0 && Weight(f, y, b) == 0.0;
    }
  }

  // ---- the ring ----

  lemma SmallModulus(v: int, n: int)
    requires 0 <= v < 2 * n
    ensures v % n == if v < n then v else v - n
  {
    if v >= n {
      assert v == n + (v - n);
    }
  }

  class VerticalResampler {
    const entries: nat
    const ring: array<Row>
    var beginIndex: int
    var firstScanline: int
    var lastScanline: int

    /** The ring holds one entry more than the filter is wide. */
    constructor (f: Filter)
      requires Enlarging(f)
      ensures Shape() && fresh(ring) && entries == FilterWidth(f) + 1 && beginIndex == -1
    {
      RangeFits(f, 0);
      entries := FilterWidth(f) + 1;
      ring := new Row[FilterWidth(f) + 1](_ => []);
      beginIndex := -1;
    }

    ghost predicate Shape() {
      ring.Length == entries && entries >= 2
    }

    /** The ring is empty, or holds a range of scanlines that fits. */
    predicate Holding()
      reads this
    {
      beginIndex == -1 ||
      (0 <= beginIndex < entries && firstScanline <= lastScanline && lastScanline - firstScanline + 1 <= entries)
    }

    /** The entry of scanline k. */
    function Slot(k: int): int
      requires entries > 0
      reads this
    {
      (beginIndex + (k - firstScanline)) % entries
    }

    /** Every scanline in the range stands in its entry. */
    ghost predicate Valid(h: int -> Row)
      reads this, ring
    {
      && Shape() && Holding()
      && (beginIndex >= 0 ==> forall k :: firstScanline <= k <= lastScanline ==> ring[Slot(k)] == h(k))
    }

    lemma SlotAt(k: int)
      requires Shape() && Holding() && beginIndex >= 0 && firstScanline <= k < firstScanline + entries
      ensures var v := beginIndex + (k - firstScanline); Slot(k) == if v < entries then v else v - entries
    {
      SmallModulus(beginIndex + (k - firstScanline), entries);
    }

    /** Live scanlines and the next one to come have entries of their own. */
    lemma SlotsDiffer(j: int, k: int)
      requires Shape() && Holding() && beginIndex >= 0
      requires firstScanline <= j < k < firstScanline + entries
      ensures Slot(j) != Slot(k)
    {
      SlotAt(j);
      SlotAt(k);
    }

    /** Makes room for scanline n. */
    method AddEmptyEntry(n: int) returns (index: int)
      requires Shape() && Holding()
      requires beginIndex >= 0 ==> n == lastScanline + 1 && n - firstScanline < entries
      modifies this
      ensures Holding() && beginIndex >= 0 && lastScanline == n
      ensures firstScanline == if old(beginIndex) < 0 then n else old(firstScanline)
      ensures beginIndex == if old(beginIndex) < 0 then 0 else old(beginIndex)
      ensures index == Slot(n) && 0 <= index < entries
      ensures firstScanline < n ==> index != beginIndex
    {
      lastScanline := n;
      if beginIndex < 0 {
        beginIndex := 0;
        index := 0;
        firstScanline := n;
      } else {
        index := (beginIndex + (lastScanline - firstScanline)) % entries;
        SlotsDiffer(firstScanline, n);
        SlotAt(firstScanline);
      }
      SlotAt(n);
    }

    /** Decodes scanline n and resamples it horizontally into its entry. */
    method DecodeAndResample(h: int -> Row, n: int)
      requires Valid(h)
      requires beginIndex >= 0 ==> n == lastScanline + 1 && n - firstScanline < entries
      modifies this, ring
      ensures Valid(h) && beginIndex >= 0 && lastScanline == n
      ensures firstScanline == if old(beginIndex) < 0 then n else old(firstScanline)
    {
      var index := AddEmptyEntry(n);
      forall k | firstScanline <= k < n
        ensures Slot(k) != index && 0 <= Slot(k) < entries
      {
        SlotsDiffer(k, n);
        SlotAt(k);
      }
      ring[index] := h(n);
    }

    /** Forgets the scanlines before the given one. */
    method DropBefore(h: int -> Row, inFirst: int)
      requires Valid(h)
      modifies this
      ensures Valid(h)
      ensures old(beginIndex) < 0 || inFirst > old(lastScanline) ==> beginIndex == -1
      ensures old(beginIndex) >= 0 && inFirst <= old(lastScanline) ==>
        && beginIndex >= 0 && lastScanline == old(lastScanline)
        && firstScanline == if inFirst > old(firstScanline) then inFirst else old(firstScanline)
    {
      if beginIndex >= 0 {
        while inFirst > firstScanline
          invariant Valid(h) && beginIndex >= 0 && lastScanline == old(lastScanline)
          invariant firstScanline == old(firstScanline) || old(firstScanline) < firstScanline <= inFirst
          decreases inFirst - firstScanline
        {
          if firstScanline == lastScanline {
            beginIndex, firstScanline, lastScanline := -1, 0, 0;
            break;
          } else {
            DropFirst(h);
          }
        }
      }
    }

    method DropFirst(h: int -> Row)
      requires Valid(h) && beginIndex >= 0 && firstScanline < lastScanline
      modifies this
      ensures Valid(h) && beginIndex >= 0
      ensures firstScanline == old(firstScanline) + 1 && lastScanline == old(lastScanline)
    {
      ghost var begin, first := beginIndex, firstScanline;
      forall k | firstScanline < k <= lastScanline
        ensures ring[Slot(k)] == h(k) && var v := begin + (k - first); Slot(k) == if v < entries then v else v - entries
      {
        SlotAt(k);
      }
      SmallModulus(beginIndex + 1, entries);
      firstScanline := firstScanline + 1;
      beginIndex := (beginIndex + 1) % entries;
      forall k | firstScanline <= k <= lastScanline
        ensures ring[Slot(k)] == h(k)
      {
        SlotAt(k);
      }
    }

    /** Slides the ring to the scanlines of a row: old ones go, missing ones come in. */
    method SlideTo(h: int -> Row, inFirst: int, inLast: int)
      requires Valid(h) && 1 <= inLast - inFirst + 1 <= entries
      requires beginIndex >= 0 ==> firstScanline <= inFirst && lastScanline <= inLast
      modifies this, ring
      ensures Valid(h) && beginIndex >= 0 && firstScanline == inFirst && lastScanline == inLast
    {
      DropBefore(h, inFirst);
      if beginIndex < 0 {
        DecodeAndResample(h, inFirst);
      }
      while inLast > lastScanline
        invariant Valid(h) && beginIndex >= 0 && firstScanline == inFirst && lastScanline <= inLast
        decreases inLast - lastScanline
      {
        DecodeAndResample(h, lastScanline + 1);
      }
    }

    /** Adds up the contributing scanlines of row y, each times its coefficient. */
    method ResampleVertical(ghost f: Filter, h: int -> Row, width: nat, ghost y: int, c: Contributor, encode: array<real>)
      requires f.scale > 0.0 && RowTotal(f, y) != 0.0 && AllWide(h, width) && Contributes(f, y, c)
      requires Valid(h) && beginIndex >= 0 && firstScanline <= c.n0 && c.n1 <= lastScanline && encode.Length == width
      modifies encode
      ensures IsDirectRow(f, h, width, y, encode[..])
    {
      hide RowTotal, FirstScanline, LastScanline, DirectSum;
      for x := 0 to width
        invariant forall j :: 0 <= j < x ==> encode[j] == 0.0
      {
        encode[x] := 0.0;
      }
      AddScanlines(f, h, width, y, c, encode);
      TrimmedSum(f, h, width, y, c);
    }

    /** Adds every scanline of the contributor, weighted, to a row of zeros. */
    method AddScanlines(ghost f: Filter, ghost h: int -> Row, width: nat, ghost y: int, c: Contributor, encode: array<real>)
      requires f.scale > 0.0 && RowTotal(f, y) != 0.0 && AllWide(h, width) && Contributes(f, y, c)
      requires Valid(h) && beginIndex >= 0 && firstScanline <= c.n0 && c.n1 <= lastScanline && encode.Length == width
      requires forall x :: 0 <= x < width ==> encode[x] == 0.0
      modifies encode
      ensures forall x :: 0 <= x < width ==> encode[x] == DirectSum(f, h, width, y, c.n0, c.n1, x)
    {
      hide Kernel, RowTotal, FirstScanline, LastScanline, Weight;
      var k, counter := c.n0, 0;
      while k <= c.n1
        invariant c.n0 <= k <= c.n1 + 1 && counter == k - c.n0
        invariant forall x :: 0 <= x < width ==> encode[x] == DirectSum(f, h, width, y, c.n0, k - 1, x)
        decreases c.n1 - k
      {
        var coefficient := c.coefficients[counter];
        counter := counter + 1;
        SlotAt(k);
        assert ring[Slot(k)] == h(k) && |h(k)| == width && coefficient == Weight(f, y, k);
        AddScanline(f, h, width, y, c.n0, k, coefficient, Slot(k), encode);
        k := k + 1;
      }
    }

    /** The scanlines trimmed from a contributor add nothing. */
    static lemma TrimmedSum(f: Filter, h: int -> Row, width: nat, y: int, c: Contributor)
      requires f.scale > 0.0 && RowTotal(f, y) != 0.0 && AllWide(h, width) && Contributes(f, y, c)
      ensures forall x :: 0 <= x < width ==>
        DirectSum(f, h, width, y, FirstScanline(f, y), LastScanline(f, y), x) == DirectSum(f, h, width, y, c.n0, c.n1, x)
    {
      hide Kernel, RowTotal, FirstScanline, LastScanline, DirectSum;
      forall x | 0 <= x < width
        ensures DirectSum(f, h, width, y, FirstScanline(f, y), LastScanline(f, y), x) == DirectSum(f, h, width, y, c.n0, c.n1, x)
      {
        var first, last := FirstScanline(f, y), LastScanline(f, y);
        LeadingZeros(f, h, width, y, first, c.n0, c.n1, x);
        TrailingZeros(f, h, width, y, first, c.n1, last, x);
      }
    }

    /** Adds one scanline, weighted, to the row being gathered. */
    method AddScanline(ghost f: Filter, ghost h: int -> Row, width: nat, ghost y: int, ghost n0: int, ghost k: int,
                       coefficient: real, slot: int, encode: array<real>)
      requires f.scale > 0.0 && RowTotal(f, y) != 0.0 && AllWide(h, width) && coefficient == Weight(f, y, k) && n0 <= k
      requires Shape() && 0 <= slot < entries && ring[slot] == h(k) && encode.Length == width
      requires forall x :: 0 <= x < width ==> encode[x] == DirectSum(f, h, width, y, n0, k - 1, x)
      modifies encode
      ensures forall x :: 0 <= x < width ==> encode[x] == DirectSum(f, h, width, y, n0, k, x)
    {
      hide Weight, RowTotal;
      assert |h(k)| == width;
      for x := 0 to width
        invariant forall j :: 0 <= j < x ==> encode[j] == DirectSum(f, h, width, y, n0, k, j)
        invariant forall j :: x <= j < width ==> encode[j] == DirectSum(f, h, width, y, n0, k - 1, j)
      {
        encode[x] := encode[x] + ring[slot][x] * coefficient;
      }
    }

    /** Writes all output rows: each equals the direct weighted sum over its own range of scanlines. */
    method EnlargeRows(f: Filter, h: int -> Row, width: nat, contributors: seq<Contributor>) returns (rows: seq<Row>)
      requires Enlarging(f) && AllWide(h, width) && Shape() && entries == FilterWidth(f) + 1 && beginIndex == -1
      requires forall y :: 0 <= y < |contributors| ==> RowTotal(f, y) != 0.0 && Contributes(f, y, contributors[y])
      modifies this, ring
      ensures |rows| == |contributors|
      ensures forall y :: 0 <= y < |rows| ==> IsDirectRow(f, h, width, y, rows[y])
    {
      hide Contributes, IsDirectRow, RowTotal, FirstScanline, LastScanline;
      rows := [];
      var encode := new real[width];
      for y := 0 to |contributors|
        invariant Valid(h) && |rows| == y
        invariant if y == 0 then beginIndex == -1
                  else beginIndex >= 0 && firstScanline == FirstScanline(f, y - 1) && lastScanline == LastScanline(f, y - 1)
        invariant forall j :: 0 <= j < y ==> IsDirectRow(f, h, width, j, rows[j])
      {
        var inFirst, inLast := FirstScanline(f, y), LastScanline(f, y);
        RangeFits(f, y);
        if y > 0 { RangeAdvances(f, y - 1); }
        assert inLast - inFirst + 1 <= entries;
        SlideTo(h, inFirst, inLast);
        InRange(f, y, contributors[y]);
        ResampleVertical(f, h, width, y, contributors[y], encode);
        rows := rows + [encode[..]];
      }
    }

    lemma InRange(f: Filter, y: int, c: Contributor)
      requires f.scale > 0.0 && RowTotal(f, y) != 0.0 && Contributes(f, y, c)
      ensures FirstScanline(f, y) <= c.n0 && c.n1 <= LastScanline(f, y)
    {
    }
  }

  /** Enlarges an image: weights first, then the rows; every row equals its direct weighted sum. */
  method Enlarge(f: Filter, h: int -> Row, width: nat, height: nat) returns (rows: seq<Row>)
    requires Enlarging(f) && AllWide(h, width)
    requires forall y :: 0 <= y < height ==> RowTotal(f, y) != 0.0
    ensures |rows| == height && forall y :: 0 <= y < height ==> IsDirectRow(f, h, width, y, rows[y])
  {
    hide Contributes, IsDirectRow, RowTotal;
    RangeFits(f, 0);
    var group := new real[FilterWidth(f)];
    var contributors := [];
    for y := 0 to height
      invariant |contributors| == y && forall j :: 0 <= j < y ==> Contributes(f, j, contributors[j])
    {
      var c := CalculateCoefficients(f, y, group);
      contributors := contributors + [c];
    }
    var resampler := new VerticalResampler(f);
    rows := resampler.EnlargeRows(f, h, width, contributors);
  }
}
