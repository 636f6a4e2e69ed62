/** Which input scanlines contribute to an output row when an image is enlarged, and with what weights.
    Distances and weights are real numbers. */
module SampleRange {
  /** The vertical scale and shift, and the filter: how far it reaches and its kernel. */
  datatype Filter = Filter(scale: real, shift: real, support: real, kernel: real -> real)

  /** Enlarging, with one of the library's filters, which reach at least half a pixel. */
  ghost predicate Enlarging(f: Filter) {
    f.scale > 1.0 && f.support >= 0.5
  }

  function Ceil(x: real): int {
    -((-x).Floor)
  }

  /** The most input scanlines that can affect an output row. */
  function FilterWidth(f: Filter): int {
    Ceil(f.support * 2.0)
  }

  /** The output row's centre among the input scanlines. */
  function Center(f: Filter, y: int): real
    requires f.scale > 0.0
  {
    (y as real + 0.5 + f.shift) / f.scale
  }

  /** The filter's reach among the output rows. */
  function Radius(f: Filter): real {
    f.support * f.scale
  }

  function FirstScanline(f: Filter, y: int): int
    requires f.scale > 0.0
  {
    ((y as real + 0.5 - Radius(f) + f.shift) / f.scale + 0.5).Floor
  }

  function LastScanline(f: Filter, y: int): int
    requires f.scale > 0.0
  {
    ((y as real + 0.5 + Radius(f) + f.shift) / f.scale - 0.5).Floor
  }

  lemma DivideSum(a: real, s: real, d: real, r: real)
    requires d > 0.0 && r == s * d
    ensures (a + r) / d == a / d + s && (a - r) / d == a / d - s
  {
    assert ((a / d) + s) * d == a + r;
    assert ((a / d) - s) * d == a - r;
  }

  lemma RangeAroundCenter(f: Filter, y: int)
    requires f.scale > 0.0
    ensures FirstScanline(f, y) == (Center(f, y) - f.support + 0.5).Floor
    ensures LastScanline(f, y) == (Center(f, y) + f.support - 0.5).Floor
  {
    var a, r := y as real + 0.5 + f.shift, Radius(f);
    DivideSum(a, f.support, f.scale, r);
    hide Radius;
    assert y as real + 0.5 - r + f.shift == a - r;
    assert y as real + 0.5 + r + f.shift == a + r;
  }

  lemma CeilAbove(x: real, n: int)
    requires (n as real) < x
    ensures n < Ceil(x)
  {
  }

  lemma FloorMonotone(a: real, b: real)
    requires a <= b
    ensures a.Floor <= b.Floor
  {
  }

  /** The scanlines of one row number at least one and at most the filter's width. */
  lemma RangeFits(f: Filter, y: int)
    requires Enlarging(f)
    ensures 1 <= LastScanline(f, y) - FirstScanline(f, y) + 1 <= FilterWidth(f)
  {
    RangeAroundCenter(f, y);
    var c, s := Center(f, y), f.support;
    FloorMonotone(c - s + 0.5, c + s - 0.5);
    var n := LastScanline(f, y) - FirstScanline(f, y);
    assert n as real == LastScanline(f, y) as real - FirstScanline(f, y) as real;
    CeilAbove(s * 2.0, n);
  }

  /** From one row to the next the range only moves on. */
  lemma RangeAdvances(f: Filter, y: int)
    requires Enlarging(f)
    ensures FirstScanline(f, y) <= FirstScanline(f, y + 1) && LastScanline(f, y) <= LastScanline(f, y + 1)
  {
    RangeAroundCenter(f, y);
    RangeAroundCenter(f, y + 1);
    CenterAdvances(f, y);
    FloorMonotone(Center(f, y) - f.support + 0.5, Center(f, y + 1) - f.support + 0.5);
    FloorMonotone(Center(f, y) + f.support - 0.5, Center(f, y + 1) + f.support - 0.5);
  }

  lemma CenterAdvances(f: Filter, y: int)
    requires f.scale > 0.0
    ensures Center(f, y) <= Center(f, y + 1)
  {
    var a := y as real + 0.5 + f.shift;
    assert (y + 1) as real + 0.5 + f.shift == a + 1.0;
    DivideGrows(a, a + 1.0, f.scale);
  }

  lemma DivideGrows(a: real, b: real, d: real)
    requires a <= b && d > 0.0
    ensures a / d <= b / d
  {
    var q := b / d - a / d;
    assert q * d == b - a;
    ProductSign(q, d);
  }

  lemma ProductSign(q: real, d: real)
    requires d > 0.0
    ensures q * d >= 0.0 ==> q >= 0.0
  {
  }

  // ---- weights ----

  /** The kernel at input scanline k, before normalisation. */
  function Kernel(f: Filter, y: int, k: int): real
    requires f.scale > 0.0
  {
    (f.kernel)(Center(f, y) - (k as real + 0.5))
  }

  /** The kernel summed over scanlines a to b. */
  function Total(f: Filter, y: int, a: int, b: int): real
    requires f.scale > 0.0
    decreases b - a
  {
    if b < a then 0.0 else Total(f, y, a, b - 1) + Kernel(f, y, b)
  }

  lemma {:induction false} TotalSkipsZero(f: Filter, y: int, a: int, b: int)
    requires f.scale > 0.0 && a <= b && Kernel(f, y, a) == 0.0
    ensures Total(f, y, a, b) == Total(f, y, a + 1, b)
    decreases b - a
  {
    if a < b { TotalSkipsZero(f, y, a, b - 1); }
  }

  /** The weight of scanline k in row y: weights sum to one over the row's range. */
  function Weight(f: Filter, y: int, k: int): real
    requires f.scale > 0.0 && RowTotal(f, y) != 0.0
  {
    Kernel(f, y, k) * (1.0 / RowTotal(f, y))
  }

  function RowTotal(f: Filter, y: int): real
    requires f.scale > 0.0
  {
    Total(f, y, FirstScanline(f, y), LastScanline(f, y))
  }

  /** The scanlines that contribute to a row, with their coefficients. */
  datatype Contributor = Contributor(n0: int, n1: int, coefficients: seq<real>)

  /** The contributor lists the weights of n0 to n1, and every other scanline of the range has none. */
  ghost predicate Contributes(f: Filter, y: int, c: Contributor)
    requires f.scale > 0.0 && RowTotal(f, y) != 0.0
  {
    && FirstScanline(f, y) <= c.n0 <= c.n1 + 1 && c.n1 <= LastScanline(f, y)
    && |c.coefficients| == c.n1 - c.n0 + 1
    && (forall k :: c.n0 <= k <= c.n1 ==> c.coefficients[k - c.n0] == Weight(f, y, k))
    && (forall k :: FirstScanline(f, y) <= k < c.n0 || c.n1 < k <= LastScanline(f, y) ==> Kernel(f, y, k) == 0.0)
  }

  lemma ZeroProduct(a: real, s: real)
    requires s != 0.0
    ensures a * (1.0 / s) == 0.0 <==> a == 0.0
  {
    assert (1.0 / s) * s == 1.0;
    if a * (1.0 / s) == 0.0 {
      assert a == a * ((1.0 / s) * s) == (a * (1.0 / s)) * s;
    }
  }

  /** Evaluates the kernel over the row's range: scanlines without weight at either end are dropped, and
      the rest is normalised. */
  method CalculateCoefficients(f: Filter, y: int, group: array<real>) returns (c: Contributor)
    requires Enlarging(f) && RowTotal(f, y) != 0.0 && group.Length >= FilterWidth(f)
    modifies group
    ensures Contributes(f, y, c)
  {
    hide Total, Weight, Kernel;
    var first, total := EvaluateKernel(f, y, group);
    var last := LastScanline(f, y);
    ZeroProduct(1.0, total);
    RangeFits(f, y);
    var n1 := Normalise(f, y, group, first, last, 1.0 / total);
    c := Contributor(first, n1, group[..n1 - first + 1]);
  }

  /** Stores and adds up the kernel over the row's range from the first scanline on where it is not zero. */
  method EvaluateKernel(f: Filter, y: int, group: array<real>) returns (first: int, total: real)
    requires Enlarging(f) && RowTotal(f, y) != 0.0 && group.Length >= FilterWidth(f)
    modifies group
    ensures FirstScanline(f, y) <= first <= LastScanline(f, y) + 1 && total == RowTotal(f, y)
    ensures forall k :: FirstScanline(f, y) <= k < first ==> Kernel(f, y, k) == 0.0
    ensures LastScanline(f, y) - first < group.Length
    ensures forall j :: 0 <= j <= LastScanline(f, y) - first ==> group[j] == Kernel(f, y, first + j)
  {
    RangeFits(f, y);
    hide Kernel, FirstScanline, LastScanline, FilterWidth;
    first := FirstScanline(f, y);
    var last, i := LastScanline(f, y), 0;
    total := 0.0;
    while i <= last - first
      invariant FirstScanline(f, y) <= first <= last + 1 && 0 <= i <= last - first + 1
      invariant forall k :: FirstScanline(f, y) <= k < first ==> Kernel(f, y, k) == 0.0
      invariant forall j :: 0 <= j < i ==> group[j] == Kernel(f, y, first + j)
      invariant total == Total(f, y, first, first + i - 1) && Total(f, y, first, last) == RowTotal(f, y)
      decreases last - first - i
    {
      group[i] := Kernel(f, y, i + first);
      if i == 0 && group[i] == 0.0 {
        TotalSkipsZero(f, y, first, last);
        first := first + 1;
      } else {
        total := total + group[i];
        i := i + 1;
      }
    }
  }

  /** Scales the coefficients and finds the last one that is not zero. */
  method Normalise(f: Filter, y: int, group: array<real>, first: int, last: int, scale: real) returns (n1: int)
    requires f.scale > 0.0 && RowTotal(f, y) != 0.0 && scale == 1.0 / RowTotal(f, y)
    requires 0 <= last - first + 1 <= group.Length
    requires forall j :: 0 <= j <= last - first ==> group[j] == Kernel(f, y, first + j)
    modifies group
    ensures first - 1 <= n1 <= last
    ensures forall j :: 0 <= j <= last - first ==> group[j] == Weight(f, y, first + j)
    ensures forall k :: n1 < k <= last ==> Kernel(f, y, k) == 0.0
  {
    for i := 0 to last - first + 1
      invariant forall j :: 0 <= j < i ==> group[j] == Weight(f, y, first + j)
      invariant forall j :: i <= j <= last - first ==> group[j] == Kernel(f, y, first + j)
    {
      group[i] := group[i] * scale;
    }
    n1 := last;
    var i := last - first;
    while i >= 0
      invariant -1 <= i <= last - first && n1 == first + i
      invariant forall k :: n1 < k <= last ==> Kernel(f, y, k) == 0.0
      invariant forall j :: 0 <= j <= last - first ==> group[j] == Weight(f, y, first + j)
      decreases i
    {
      ZeroProduct(Kernel(f, y, first + i), RowTotal(f, y));
      if group[i] != 0.0 { return; }
      n1 := first + i - 1;
      i := i - 1;
    }
  }
}
