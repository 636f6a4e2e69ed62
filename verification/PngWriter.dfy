/** The PNG writer: filters each row, compresses, and wraps the result in chunks. */
module PngWriter {
  import opened Bits
  import opened PngFilter
  import opened Products
  import opened Lz77
  import opened Deflate

  /** Where a caller's pixels lie: rows of w bytes, stride apart, top or bottom row first. */
  datatype Source = Source(pixels: seq<byte>, stride: nat, width: nat, height: nat, n: nat, flip: bool)
  {
    function RowBytes(): nat { width * n }

    ghost predicate Valid() {
      && 1 <= n <= 4 && width > 0 && height > 0 && RowBytes() <= stride
      && stride * (height - 1) + RowBytes() <= |pixels|
    }

    /** The position of the row written as number y. */
    function Start(y: nat): int {
      stride * (if flip then height - 1 - y else y)
    }

    function SignedStride(): int {
      if flip then 0 - stride else stride
    }

    lemma StartInside(y: nat)
      requires Valid() && y < height
      ensures 0 <= Start(y) && Start(y) + RowBytes() <= |pixels|
      ensures y > 0 ==> Start(y) - SignedStride() == Start(y - 1)
    {
      var k := if flip then height - 1 - y else y;
      Scaled(stride, k, height - 1);
      if y > 0 {
        if flip {
          assert stride * (k + 1) == stride * k + stride;
        } else {
          assert stride * (k - 1) == stride * k - stride;
        }
      }
    }

    lemma Scaled(a: nat, k: nat, m: nat)
      requires k <= m
      ensures 0 <= a * k <= a * m
    {
    }

    /** The row written as number y. */
    ghost function Row(y: nat): (r: seq<byte>)
      requires Valid() && y < height
      ensures |r| == RowBytes()
    {
      StartInside(y);
      pixels[Start(y)..Start(y) + RowBytes()]
    }

    ghost function Above(y: nat): seq<byte>
      requires Valid() && y < height
    {
      if y == 0 then [] else Row(y - 1)
    }

    /** The first y rows in the order written. */
    ghost function Rows(y: nat): (r: seq<seq<byte>>)
      requires Valid() && y <= height
      ensures |r| == y && forall j :: 0 <= j < y ==> r[j] == Row(j)
    {
      if y == 0 then [] else Rows(y - 1) + [Row(y - 1)]
    }
  }

  /** Filters row y with filter f. */
  method EncodePngLine(src: Source, y: nat, f: nat, line: array<byte>)
    requires src.Valid() && y < src.height && f <= 4 && line.Length == src.RowBytes()
    modifies line
    ensures line[..] == Filtered(f, src.Row(y), src.Above(y), src.n)
  {
    hide Filtered, FilteredPrefix, Predict, PredictFirst, PredictRest, Source.Start, Source.Valid, Source.RowBytes;
    src.StartInside(y);
    var t := if y == 0 then FirstRowFilter(f) else f;
    var z := src.Start(y);
    var above := z - src.SignedStride();
    if y > 0 { src.StartInside(y - 1); }
    ghost var row, prior := src.Row(y), src.Above(y);
    FilteredNone(f, row, prior, src.n);
    for i := 0 to line.Length
      invariant line[..i] == FilteredPrefix(f, row, prior, src.n, i)
    {
      var p := LinePrediction(src, y, f, t, z, above, i);
      FilteredNext(f, row, prior, src.n, i);
      ghost var done := line[..i];
      line[i] := (src.pixels[z + i] as int - p) % 256;
      assert line[..i + 1] == done + [line[i]];
    }
    FilteredAll(f, row, prior, src.n);
    assert line[..] == line[..line.Length];
  }

  lemma FilteredNone(f: nat, row: seq<byte>, prior: seq<byte>, n: nat)
    ensures FilteredPrefix(f, row, prior, n, 0) == []
  {
  }

  lemma FilteredAll(f: nat, row: seq<byte>, prior: seq<byte>, n: nat)
    ensures FilteredPrefix(f, row, prior, n, |row|) == Filtered(f, row, prior, n)
  {
  }

  lemma FilteredNext(f: nat, row: seq<byte>, prior: seq<byte>, n: nat, k: nat)
    requires k < |row|
    ensures FilteredPrefix(f, row, prior, n, k + 1)
         == FilteredPrefix(f, row, prior, n, k) + [(row[k] - Predict(f, row, prior, k, n)) % 256]
  {
  }

  /** What the writer subtracts from byte i of the row at z, whose row above starts at above. */
  method LinePrediction(src: Source, y: nat, f: nat, t: nat, z: nat, above: int, i: nat) returns (p: byte)
    requires src.Valid() && y < src.height && f <= 4 && i < src.RowBytes()
    requires t == (if y == 0 then FirstRowFilter(f) else f) && z == src.Start(y)
    requires y > 0 ==> above == src.Start(y - 1)
    ensures p == Predict(f, src.Row(y), src.Above(y), i, src.n)
  {
    hide Predict, PredictFirst, PredictRest, Source.Start, Source.RowBytes;
    src.StartInside(y);
    if y > 0 { src.StartInside(y - 1); }
    PredictionsAgree(f, src.Row(y), src.Above(y), i, src.n);
    var up := if y == 0 then 0 else src.pixels[above + i];
    if i < src.n {
      p := PredictFirst(t, up);
    } else {
      var upleft := if y == 0 then 0 else src.pixels[above + i - src.n];
      p := PredictRest(t, src.pixels[z + i - src.n], up, upleft);
    }
  }

  // ---- choosing a filter ----

  function Signed(b: byte): int { if b < 128 then b else b - 256 }

  /** The sum of the magnitudes of a filtered line's bytes, read as signed. */
  function Entropy(line: seq<byte>): nat {
    if |line| == 0 then 0 else Entropy(line[..|line| - 1]) + Abs(Signed(line[|line| - 1]))
  }

  /** A byte costs its distance from zero when bytes count round in a circle. */
  lemma CostOfByte(line: seq<byte>, b: byte)
    ensures Entropy(line + [b]) == Entropy(line) + if b <= 128 then b else 256 - b
  {
    assert (line + [b])[..|line|] == line;
  }

  ghost function Cost(src: Source, y: nat, f: nat): nat
    requires src.Valid() && y < src.height
  {
    Entropy(Filtered(f, src.Row(y), src.Above(y), src.n))
  }

  method EstimateEntropy(line: array<byte>) returns (est: nat)
    ensures est == Entropy(line[..])
  {
    est := 0;
    for i := 0 to line.Length
      invariant est == Entropy(line[..i])
    {
      assert line[..i + 1][..i] == line[..i];
      est := est + Abs(Signed(line[i]));
    }
    assert line[..line.Length] == line[..];
  }

  const WORST := 0x7fff_ffff

  /** Tries all filters and keeps the first of least cost; leaves the line filtered with it. */
  method EncodeBestLine(src: Source, y: nat, line: array<byte>) returns (f: nat)
    requires src.Valid() && y < src.height && line.Length == src.RowBytes()
    modifies line
    ensures f <= 4 && line[..] == Filtered(f, src.Row(y), src.Above(y), src.n)
    ensures forall g :: 0 <= g <= 4 ==> Cost(src, y, g) >= WORST || Cost(src, y, f) <= Cost(src, y, g)
    ensures forall g :: 0 <= g < f ==> Cost(src, y, f) < Cost(src, y, g) || Cost(src, y, g) >= WORST
  {
    hide Source.Valid, Source.RowBytes, Filtered, Entropy;
    var best, bestVal := 0, WORST;
    for g := 0 to 5
      invariant best <= 4 && bestVal <= WORST && (best < g || best == 0)
      invariant bestVal == WORST ==> best == 0
      invariant bestVal < WORST ==> best < g && bestVal == Cost(src, y, best)
      invariant forall k :: 0 <= k < g ==> bestVal <= Cost(src, y, k)
      invariant forall k :: 0 <= k < best ==> bestVal < Cost(src, y, k)
    {
      EncodePngLine(src, y, g, line);
      var est := EstimateEntropy(line);
      if est < bestVal {
        best, bestVal := g, est;
      }
    }
    EncodePngLine(src, y, best, line);
    f := best;
  }

  // ---- all rows ----

  lemma {:induction false} FilteredRowsAppend(rows: seq<seq<byte>>, types: seq<nat>, n: nat, prior: seq<byte>,
                                              row: seq<byte>, f: nat)
    requires |rows| == |types| && (forall j :: 0 <= j < |types| ==> types[j] <= 4) && f <= 4
    ensures FilteredRows(rows + [row], types + [f], n, prior)
         == FilteredRows(rows, types, n, prior)
            + ([f] + Filtered(f, row, if |rows| == 0 then prior else rows[|rows| - 1], n))
    decreases |rows|
  {
    if |rows| > 0 {
      FilteredRowsAppend(rows[1..], types[1..], n, rows[0], row, f);
      assert (rows + [row])[1..] == rows[1..] + [row] && (types + [f])[1..] == types[1..] + [f];
      var last := Filtered(f, row, rows[|rows| - 1], n);
      var head, mid := [types[0]] + Filtered(types[0], rows[0], prior, n), FilteredRows(rows[1..], types[1..], n, rows[0]);
      assert head + (mid + ([f] + last)) == head + mid + ([f] + last);
    } else {
      assert [f] + Filtered(f, row, prior, n) + [] == [] + ([f] + Filtered(f, row, prior, n));
    }
  }

  /** Filters every row, with the forced filter or else the cheapest one. */
  method FilterImage(src: Source, forced: int) returns (filt: array<byte>, ghost types: seq<nat>)
    requires src.Valid() && forced < 5
    ensures |types| == src.height && forall j :: 0 <= j < src.height ==> types[j] <= 4
    ensures forced >= 0 ==> forall j :: 0 <= j < src.height ==> types[j] == forced
    ensures filt[..] == FilteredRows(src.Rows(src.height), types, src.n, [])
  {
    var w := src.RowBytes();
    hide FilteredRows, Source.Valid, Source.RowBytes, Times, Source.Row, Source.Rows;
    WriterRoom(w, src.height);
    filt := new byte[(w + 1) * src.height];
    var line := new byte[w];
    types := [];
    NoFilteredRows(src);
    assert filt[..0] == [];
    var at := 0;
    for j := 0 to src.height
      invariant |types| == j && forall k :: 0 <= k < j ==> types[k] <= 4 && (forced >= 0 ==> types[k] == forced)
      invariant at == Times(w + 1, j) && at <= filt.Length
      invariant filt[..at] == FilteredRows(src.Rows(j), types, src.n, [])
    {
      TimesSplit(w + 1, j, src.height);
      var f := EncodeRow(src, j, forced, line);
      FilteredRowsNext(src, j, types, f);
      StoreLine(filt, at, f, line);
      types := types + [f];
      at := at + w + 1;
    }
    assert filt[..at] == filt[..];
  }

  /** Filters row j with the forced or the cheapest filter. */
  method EncodeRow(src: Source, j: nat, forced: int, line: array<byte>) returns (f: nat)
    requires src.Valid() && j < src.height && forced < 5 && line.Length == src.RowBytes()
    modifies line
    ensures f <= 4 && (forced >= 0 ==> f == forced)
    ensures line[..] == Filtered(f, src.Row(j), src.Above(j), src.n)
  {
    if forced > -1 {
      f := forced;
      EncodePngLine(src, j, f, line);
    } else {
      f := EncodeBestLine(src, j, line);
    }
  }

  lemma FilteredRowsNext(src: Source, j: nat, types: seq<nat>, f: nat)
    requires src.Valid() && j < src.height && |types| == j && f <= 4
    requires forall k :: 0 <= k < j ==> types[k] <= 4
    ensures FilteredRows(src.Rows(j + 1), types + [f], src.n, [])
         == FilteredRows(src.Rows(j), types, src.n, []) + ([f] + Filtered(f, src.Row(j), src.Above(j), src.n))
  {
    hide Source.Row, Filtered;
    FilteredRowsAppend(src.Rows(j), types, src.n, [], src.Row(j), f);
  }

  lemma NoFilteredRows(src: Source)
    requires src.Valid()
    ensures FilteredRows(src.Rows(0), [], src.n, []) == []
    ensures Times(src.RowBytes() + 1, 0) == 0
  {
  }

  lemma WriterRoom(w: nat, height: nat)
    ensures (w + 1) * height == Times(w + 1, height)
  {
    TimesIsProduct(w + 1, height);
  }

  /** Copies the filter type and the filtered line into place. */
  method StoreLine(filt: array<byte>, at: nat, f: byte, line: array<byte>)
    requires at + 1 + line.Length <= filt.Length && filt != line
    modifies filt
    ensures filt[..at + 1 + line.Length] == old(filt[..at]) + ([f] + line[..])
  {
    filt[at] := f;
    for i := 0 to line.Length
      invariant filt[..at + 1] == old(filt[..at]) + [f]
      invariant filt[at + 1..at + 1 + i] == line[..i]
      modifies filt
    {
      filt[at + 1 + i] := line[i];
    }
    assert filt[..at + 1 + line.Length] == filt[..at + 1] + filt[at + 1..at + 1 + line.Length];
  }
}
