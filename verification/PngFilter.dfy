/** The PNG row filters (section 6 of RFC 2083): what a filter predicts, filtering a row,
    and undoing it in place, with the special cases both programs use for the first row. */
module PngFilter {
  import opened Bits
  import opened Products

  function Abs(x: int): nat { if x < 0 then -x else x }

  /** Whichever of left, up and upper left is nearest to left + up - upper left. */
  function Paeth(a: int, b: int, c: int): (r: int)
    ensures r == a || r == b || r == c
  {
    var p := a + b - c;
    var pa, pb, pc := Abs(p - a), Abs(p - b), Abs(p - c);
    if pa <= pb && pa <= pc then a else if pb <= pc then b else c
  }

  /** The result is as near to left + up - upper left as any of the three; of equally near ones left comes
      first, then up. */
  lemma PaethIsNearest(a: int, b: int, c: int)
    ensures var p, r := a + b - c, Paeth(a, b, c);
      && Abs(p - r) <= Abs(p - a) && Abs(p - r) <= Abs(p - b) && Abs(p - r) <= Abs(p - c)
      && (Abs(p - a) == Abs(p - r) ==> r == a)
      && (Abs(p - a) > Abs(p - r) && Abs(p - b) == Abs(p - r) ==> r == b)
  {
  }

  // ---- the standard's filters: missing neighbours count as zero ----

  function At(row: seq<byte>, k: int): byte {
    if 0 <= k < |row| then row[k] else 0
  }

  /** What filter f predicts for byte k, with n bytes per pixel; prior is empty on the first row. */
  function Predict(f: nat, row: seq<byte>, prior: seq<byte>, k: nat, n: nat): byte {
    var left, up, upleft := At(row, k - n), At(prior, k), At(prior, k - n);
    if f == 1 then left
    else if f == 2 then up
    else if f == 3 then (left + up) / 2
    else if f == 4 then Paeth(left, up, upleft)
    else 0
  }

  /** Filters 0 to 3 predict nothing, the byte n to the left, the byte above, and their mean rounded down;
      outside the image there are zeros. */
  lemma SimplePredictions(row: seq<byte>, prior: seq<byte>, k: nat, n: nat)
    requires 0 < n && k <= |row| && (prior == [] || k < |prior|)
    ensures var left: int, up: int := if k < n then 0 else row[k - n], if prior == [] then 0 else prior[k];
      && Predict(0, row, prior, k, n) == 0 && Predict(1, row, prior, k, n) == left && Predict(2, row, prior, k, n) == up
      && 2 * Predict(3, row, prior, k, n) as int <= left + up < 2 * Predict(3, row, prior, k, n) as int + 2
  {
  }

  /** Filter 4 predicts the nearest of left, up and upper left. */
  lemma PaethPrediction(row: seq<byte>, prior: seq<byte>, k: nat, n: nat)
    requires 0 < n && k <= |row| && (prior == [] || k < |prior|)
    ensures var left: int, up: int := if k < n then 0 else row[k - n], if prior == [] then 0 else prior[k];
      var upleft: int := if k < n || prior == [] then 0 else prior[k - n];
      Predict(4, row, prior, k, n) == Paeth(left, up, upleft)
  {
  }

  /** A row after filtering. */
  function Filtered(f: nat, row: seq<byte>, prior: seq<byte>, n: nat): (r: seq<byte>)
    ensures |r| == |row|
  {
    FilteredPrefix(f, row, prior, n, |row|)
  }

  function FilteredPrefix(f: nat, row: seq<byte>, prior: seq<byte>, n: nat, k: nat): (r: seq<byte>)
    requires k <= |row|
    ensures |r| == k
  {
    if k == 0 then []
    else FilteredPrefix(f, row, prior, n, k - 1) + [(row[k - 1] - Predict(f, row, prior, k - 1, n)) % 256]
  }

  /** The row that a filtered row stands for. */
  function Unfiltered(f: nat, raw: seq<byte>, prior: seq<byte>, n: nat): (r: seq<byte>)
    ensures |r| == |raw|
  {
    if |raw| == 0 then []
    else
      var k := |raw| - 1;
      var row := Unfiltered(f, raw[..k], prior, n);
      row + [(raw[k] + Predict(f, row, prior, k, n)) % 256]
  }

  lemma PredictPrefix(f: nat, row: seq<byte>, prior: seq<byte>, k: nat, n: nat, m: nat)
    requires n > 0 && k <= m <= |row|
    ensures Predict(f, row[..m], prior, k, n) == Predict(f, row, prior, k, n)
  {
  }

  lemma {:induction false} UnfilterPrefix(f: nat, row: seq<byte>, prior: seq<byte>, n: nat, k: nat)
    requires n > 0 && k <= |row|
    ensures Unfiltered(f, FilteredPrefix(f, row, prior, n, k), prior, n) == row[..k]
  {
    hide Predict;
    if k > 0 {
      UnfilterPrefix(f, row, prior, n, k - 1);
      hide FilteredPrefix, Unfiltered;
      var v := FilteredStep(f, row, prior, n, k);
      UnfilteredStep(f, FilteredPrefix(f, row, prior, n, k - 1), v, prior, n);
      PredictPrefix(f, row, prior, k - 1, n, k - 1);
      assert row[..k] == row[..k - 1] + [row[k - 1]];
    }
  }

  /** The filtered byte k - 1, and that adding the prediction gives the byte back. */
  lemma FilteredStep(f: nat, row: seq<byte>, prior: seq<byte>, n: nat, k: nat) returns (v: byte)
    requires 0 < k <= |row|
    ensures |FilteredPrefix(f, row, prior, n, k - 1)| == k - 1
    ensures FilteredPrefix(f, row, prior, n, k) == FilteredPrefix(f, row, prior, n, k - 1) + [v]
    ensures (v + Predict(f, row, prior, k - 1, n)) % 256 == row[k - 1]
  {
    hide Predict;
    v := Subtracted(row[k - 1], Predict(f, row, prior, k - 1, n));
  }

  lemma Subtracted(v: byte, p: byte) returns (d: byte)
    ensures d == (v - p) % 256 && (d + p) % 256 == v
  {
    d := (v - p) % 256;
  }

  /** Undoing a filter gives the row back, whatever the filter, the row above and the pixel size. */
  lemma RowInverse(f: nat, row: seq<byte>, prior: seq<byte>, n: nat)
    requires n > 0
    ensures Unfiltered(f, Filtered(f, row, prior, n), prior, n) == row
  {
    UnfilterPrefix(f, row, prior, n, |row|);
    assert row[..|row|] == row;
  }

  // ---- the filters as both programs spell them out ----

  /** On the first row: no row above, so "up" does nothing and two filters get special forms. */
  function FirstRowFilter(f: nat): nat {
    if f == 2 then 0 else if f == 3 then 5 else if f == 4 then 6 else f
  }

  /** The prediction for the first pixel's bytes. */
  function PredictFirst(t: nat, up: byte): byte {
    if t == 2 then up else if t == 3 then up / 2 else if t == 4 then Paeth(0, up, 0) else 0
  }

  /** The prediction for all later bytes. */
  function PredictRest(t: nat, left: byte, up: byte, upleft: byte): byte {
    if t == 1 then left
    else if t == 2 then up
    else if t == 3 then (left + up) / 2
    else if t == 4 then Paeth(left, up, upleft)
    else if t == 5 then left / 2
    else if t == 6 then Paeth(left, 0, 0)
    else 0
  }

  /** The programs' case distinctions compute the standard's prediction. */
  lemma PredictionsAgree(f: nat, row: seq<byte>, prior: seq<byte>, k: nat, n: nat)
    requires f <= 4 && k <= |row|
    ensures var t := if prior == [] then FirstRowFilter(f) else f;
      && (k < n ==> PredictFirst(t, At(prior, k)) == Predict(f, row, prior, k, n))
      && (k >= n ==> PredictRest(t, At(row, k - n), At(prior, k), At(prior, k - n)) == Predict(f, row, prior, k, n))
  {
  }

  // ---- whole images ----

  /** Undoes the filters of y rows of w bytes, each preceded by its filter type. */
  function UnfilterRows(raw: seq<byte>, y: nat, w: nat, n: nat, prior: seq<byte>): (r: Option<seq<byte>>)
    ensures r.Some? ==> |raw| >= Times(w + 1, y) && |r.value| == Times(w, y)
    decreases y
  {
    if y == 0 then Some([])
    else if |raw| < w + 1 || raw[0] > 4 then None
    else
      var row := Unfiltered(raw[0], raw[1..w + 1], prior, n);
      match UnfilterRows(raw[w + 1..], y - 1, w, n, row)
      case None => None
      case Some(rest) => Some(row + rest)
  }

  datatype Option<+T> = None | Some(value: T)

  /** The filtered form of some rows: each row's filter type, then the filtered row. */
  ghost function FilteredRows(rows: seq<seq<byte>>, types: seq<nat>, n: nat, prior: seq<byte>): seq<byte>
    requires |rows| == |types| && forall j :: 0 <= j < |types| ==> types[j] <= 4
  {
    if |rows| == 0 then []
    else [types[0]] + Filtered(types[0], rows[0], prior, n) + FilteredRows(rows[1..], types[1..], n, rows[0])
  }

  ghost function Concat(rows: seq<seq<byte>>): seq<byte> {
    if |rows| == 0 then [] else rows[0] + Concat(rows[1..])
  }

  /** Any choice of filters is undone, row by row; bytes after the last row do not matter. */
  lemma {:induction false} ImageInverse(rows: seq<seq<byte>>, types: seq<nat>, w: nat, n: nat, prior: seq<byte>,
                                        extra: seq<byte>)
    requires n > 0 && |rows| == |types| && forall j :: 0 <= j < |types| ==> types[j] <= 4
    requires forall j :: 0 <= j < |rows| ==> |rows[j]| == w
    ensures UnfilterRows(FilteredRows(rows, types, n, prior) + extra, |rows|, w, n, prior) == Some(Concat(rows))
    decreases |rows|
  {
    if |rows| > 0 {
      var f, row := types[0], rows[0];
      var line := Filtered(f, row, prior, n);
      var rest := FilteredRows(rows[1..], types[1..], n, row);
      var raw := FilteredRows(rows, types, n, prior) + extra;
      assert raw == [f] + line + (rest + extra);
      assert raw[1..w + 1] == line && raw[w + 1..] == rest + extra;
      RowInverse(f, row, prior, n);
      ImageInverse(rows[1..], types[1..], w, n, row, extra);
    }
  }

  lemma {:induction false} FilteredRowsLength(rows: seq<seq<byte>>, types: seq<nat>, w: nat, n: nat, prior: seq<byte>)
    requires |rows| == |types| && forall j :: 0 <= j < |types| ==> types[j] <= 4
    requires forall j :: 0 <= j < |rows| ==> |rows[j]| == w
    ensures |FilteredRows(rows, types, n, prior)| == Times(w + 1, |rows|)
    decreases |rows|
  {
    if |rows| > 0 { FilteredRowsLength(rows[1..], types[1..], w, n, rows[0]); }
  }

  // ---- the reader ----

  /** Undoes one row's filter in place: the output row at cur, the row above it just before. */
  method UnfilterRow(out: array<byte>, cur: nat, first: bool, raw: seq<byte>, rp: nat, f: nat, n: nat, w: nat)
    requires f <= 4 && 0 < n <= w && cur + w <= out.Length && rp + w <= |raw| && (first || w <= cur)
    modifies out
    ensures out[..cur] == old(out[..cur])
    ensures var prior := if first then [] else old(out[cur - w..cur]);
      out[cur..cur + w] == Unfiltered(f, raw[rp..rp + w], prior, n)
  {
    hide Predict, Unfiltered;
    ghost var prior := if first then [] else out[cur - w..cur];
    var t := if first then FirstRowFilter(f) else f;
    NoRow(f, prior, n);
    assert out[cur..cur + 0] == [] && raw[rp..rp + 0] == [];
    for k := 0 to w
      invariant out[..cur] == old(out[..cur])
      invariant out[cur..cur + k] == Unfiltered(f, raw[rp..rp + k], prior, n)
    {
      assert first || prior == out[..cur][cur - w..];
      UnfilterByte(out, cur, first, raw, rp, f, t, n, w, k, prior);
    }
  }

  /** Undoes the filter of byte k of the row at cur. */
  method UnfilterByte(out: array<byte>, cur: nat, first: bool, raw: seq<byte>, rp: nat, f: nat, t: nat, n: nat, w: nat,
                      k: nat, ghost prior: seq<byte>)
    requires f <= 4 && 0 < n <= w && k < w && cur + w <= out.Length && rp + w <= |raw| && (first || w <= cur)
    requires t == (if first then FirstRowFilter(f) else f) && prior == if first then [] else out[cur - w..cur]
    requires out[cur..cur + k] == Unfiltered(f, raw[rp..rp + k], prior, n)
    modifies out
    ensures out[..cur] == old(out[..cur])
    ensures out[cur..cur + k + 1] == Unfiltered(f, raw[rp..rp + k + 1], prior, n)
  {
    hide Predict, Unfiltered, FirstRowFilter;
    ghost var row := out[cur..cur + k];
    var p := PredictByte(out, cur, first, f, t, n, w, k);
    UnfilteredStep(f, raw[rp..rp + k], raw[rp + k], prior, n);
    assert raw[rp..rp + k] + [raw[rp + k]] == raw[rp..rp + k + 1];
    out[cur + k] := (raw[rp + k] as int + p) % 256;
    assert out[cur..cur + k + 1] == row + [out[cur + k]];
  }

  /** The prediction for byte k of the row at cur. */
  method PredictByte(out: array<byte>, cur: nat, first: bool, f: nat, t: nat, n: nat, w: nat, k: nat) returns (p: byte)
    requires f <= 4 && 0 < n <= w && k < w && cur + w <= out.Length && (first || w <= cur)
    requires t == if first then FirstRowFilter(f) else f
    ensures p == Predict(f, out[cur..cur + k], if first then [] else out[cur - w..cur], k, n)
  {
    hide Paeth, Predict, PredictFirst, PredictRest;
    ghost var row, prior := out[cur..cur + k], if first then [] else out[cur - w..cur];
    PredictionsAgree(f, row, prior, k, n);
    var up := if first then 0 else out[cur - w + k];
    if k < n {
      p := PredictFirst(t, up);
    } else {
      var upleft := if first then 0 else out[cur - w + k - n];
      p := PredictRest(t, out[cur + k - n], up, upleft);
    }
  }

  lemma NoRow(f: nat, prior: seq<byte>, n: nat)
    ensures Unfiltered(f, [], prior, n) == []
  {
  }

  lemma UnfilteredStep(f: nat, raw: seq<byte>, v: byte, prior: seq<byte>, n: nat)
    ensures var row := Unfiltered(f, raw, prior, n);
      Unfiltered(f, raw + [v], prior, n) == row + [(v as int + Predict(f, row, prior, |raw|, n)) % 256]
  {
    assert (raw + [v])[..|raw|] == raw;
  }

  /** Decodes y rows of x pixels of n bytes into a new image. */
  method CreatePngImageRaw(raw: seq<byte>, n: nat, x: nat, y: nat) returns (ok: bool, out: array<byte>)
    requires n > 0 && x > 0
    ensures fresh(out)
    ensures match UnfilterRows(raw, y, x * n, n, [])
      case None => !ok
      case Some(image) => ok && out[..] == image
  {
    hide Unfiltered;
    var w := x * n;
    WidthPositive(x, n);
    out := new byte[w * y];
    TimesIsProduct(w + 1, y);
    TimesIsProduct(w, y);
    if |raw| < (w + 1) * y { return false, out; }
    ok := UnfilterAll(out, raw, n, w, y);
  }

  /** Unfiltering the rows from j on, below the first `cur` bytes of the image, leads to the goal. */
  ghost predicate RowsLeft(goal: Option<seq<byte>>, out: seq<byte>, cur: nat, raw: seq<byte>, rp: nat, n: nat, w: nat,
                           j: nat, y: nat)
    requires 0 < n <= w && j <= y && cur <= |out| && rp <= |raw| && (j > 0 ==> w <= cur)
  {
    goal == Before(out[..cur], UnfilterRows(raw[rp..], y - j, w, n, RowAbove(out, cur, j, w)))
  }

  lemma AllRowsLeft(out: seq<byte>, raw: seq<byte>, n: nat, w: nat, y: nat)
    requires 0 < n <= w
    ensures RowsLeft(UnfilterRows(raw, y, w, n, []), out, 0, raw, 0, n, w, 0, y)
  {
    hide UnfilterRows;
    assert raw[0..] == raw && out[..0] == [];
    BeforeNothing(UnfilterRows(raw, y, w, n, []));
  }

  lemma NoRowsLeft(goal: Option<seq<byte>>, out: seq<byte>, raw: seq<byte>, rp: nat, n: nat, w: nat, y: nat)
    requires 0 < n <= w && rp <= |raw| && (y > 0 ==> w <= |out|)
    requires RowsLeft(goal, out, |out|, raw, rp, n, w, y, y)
    ensures goal == Some(out)
  {
    assert out[..|out|] == out;
    UnfilterDone(out, raw[rp..], w, n, RowAbove(out, |out|, y, w));
  }

  /** Undoes the filters row after row until one has an unknown type. */
  method UnfilterAll(out: array<byte>, raw: seq<byte>, n: nat, w: nat, y: nat) returns (ok: bool)
    requires 0 < n <= w && out.Length == Times(w, y) && Times(w + 1, y) <= |raw|
    modifies out
    ensures match UnfilterRows(raw, y, w, n, [])
      case None => !ok
      case Some(image) => ok && out[..] == image
  {
    hide UnfilterRows, Times, RowsLeft;
    ghost var goal := UnfilterRows(raw, y, w, n, []);
    var rp, cur, j := 0, 0, 0;
    AllRowsLeft(out[..], raw, n, w, y);
    NoRows(w);
    while j < y
      invariant j <= y && cur == Times(w, j) && rp == Times(w + 1, j)
      invariant cur <= out.Length && rp <= |raw| && (j > 0 ==> w <= cur)
      invariant RowsLeft(goal, out[..], cur, raw, rp, n, w, j, y)
      decreases y - j
    {
      TimesSplit(w, j, y);
      TimesSplit(w + 1, j, y);
      ok := UnfilterNext(out, cur, raw, rp, n, w, j, y, goal);
      if !ok { return; }
      rp := rp + 1 + w;
      cur := cur + w;
      j := j + 1;
    }
    assert cur == out.Length;
    NoRowsLeft(goal, out[..], raw, rp, n, w, y);
    ok := true;
  }

  /** The row above row j, which starts at cur; none for the first. */
  ghost function RowAbove(out: seq<byte>, cur: nat, j: nat, w: nat): seq<byte>
    requires cur <= |out| && (j > 0 ==> w <= cur)
  {
    if j == 0 then [] else out[cur - w..cur]
  }

  /** Undoes the filter of row j, unless its type is unknown. */
  method UnfilterNext(out: array<byte>, cur: nat, raw: seq<byte>, rp: nat, n: nat, w: nat, j: nat, y: nat,
                      ghost goal: Option<seq<byte>>) returns (ok: bool)
    requires 0 < n <= w && j < y && cur + w <= out.Length && rp + 1 + w <= |raw| && (j > 0 ==> w <= cur)
    requires RowsLeft(goal, out[..], cur, raw, rp, n, w, j, y)
    modifies out
    ensures !ok ==> goal == None
    ensures ok ==> RowsLeft(goal, out[..], cur + w, raw, rp + 1 + w, n, w, j + 1, y)
  {
    hide UnfilterRows, Before, Unfiltered;
    var filter := raw[rp];
    ghost var done, prior := out[..cur], RowAbove(out[..], cur, j, w);
    UnfilterRowsStep(raw, rp, y - j, w, n, prior);
    BeforeNone();
    if filter > 4 { return false; }
    UnfilterRow(out, cur, j == 0, raw, rp + 1, filter, n, w);
    ghost var row := out[cur..cur + w];
    assert out[..cur + w] == done + row && RowAbove(out[..], cur + w, j + 1, w) == row;
    BeforeBefore(done, row, UnfilterRows(raw[rp + 1 + w..], y - (j + 1), w, n, row));
    ok := true;
  }

  lemma NoRows(w: nat)
    ensures Times(w, 0) == 0 && Times(w + 1, 0) == 0
  {
  }

  lemma BeforeNone()
    ensures forall a :: Before(a, None) == None
  {
  }

  lemma UnfilterDone(out: seq<byte>, raw: seq<byte>, w: nat, n: nat, prior: seq<byte>)
    ensures Before(out, UnfilterRows(raw, 0, w, n, prior)) == Some(out)
  {
    assert out + [] == out;
  }

  lemma UnfilterRowsStep(raw: seq<byte>, rp: nat, y: nat, w: nat, n: nat, prior: seq<byte>)
    requires y > 0 && rp + 1 + w <= |raw|
    ensures raw[rp] > 4 ==> UnfilterRows(raw[rp..], y, w, n, prior) == None
    ensures raw[rp] <= 4 ==>
      var row := Unfiltered(raw[rp], raw[rp + 1..rp + 1 + w], prior, n);
      UnfilterRows(raw[rp..], y, w, n, prior) == Before(row, UnfilterRows(raw[rp + 1 + w..], y - 1, w, n, row))
  {
    var rest := raw[rp..];
    assert rest[1..w + 1] == raw[rp + 1..rp + 1 + w] && rest[w + 1..] == raw[rp + 1 + w..];
  }

  lemma WidthPositive(x: nat, n: nat)
    requires n > 0 && x > 0
    ensures n <= x * n
  {
  }

  ghost function Before(a: seq<byte>, r: Option<seq<byte>>): Option<seq<byte>> {
    match r
    case None => None
    case Some(b) => Some(a + b)
  }

  lemma BeforeNothing(r: Option<seq<byte>>)
    ensures Before([], r) == r
  {
    if r.Some? { assert [] + r.value == r.value; }
  }

  lemma BeforeBefore(a: seq<byte>, b: seq<byte>, r: Option<seq<byte>>)
    ensures Before(a, Before(b, r)) == Before(a + b, r)
  {
    if r.Some? { assert a + (b + r.value) == a + b + r.value; }
  }
}
