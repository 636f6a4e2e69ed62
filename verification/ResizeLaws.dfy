/** What the sample ranges and weights of the resizer mean for an image: which scanlines a row sees, and that
    constant images and, with an interpolating kernel, the scanlines themselves are kept. */
module ResizeLaws {
  import opened RingBuffer
  import opened SampleRange

  /** The middle of output row y lies at Center in the input: scaled up again it is y + 0.5, shifted. */
  lemma CenterScales(f: Filter, y: int)
    requires f.scale > 0.0
    ensures Center(f, y) * f.scale == y as real + 0.5 + f.shift
  {
  }

  /** A row sees exactly the scanlines whose middle lies within the filter's support of the row's middle. */
  lemma RangeExact(f: Filter, y: int, k: int)
    requires f.scale > 0.0
    ensures FirstScanline(f, y) <= k <= LastScanline(f, y)
      <==> Center(f, y) - f.support < k as real + 0.5 <= Center(f, y) + f.support
  {
    RangeAroundCenter(f, y);
  }

  /** A scanline's weight is the kernel at the distance of its middle from the row's, divided by the sum of all. */
  lemma WeightIs(f: Filter, y: int, k: int)
    requires f.scale > 0.0 && RowTotal(f, y) != 0.0
    ensures Weight(f, y, k) * RowTotal(f, y) == (f.kernel)(Center(f, y) - k as real - 0.5)
  {
    assert Center(f, y) - (k as real + 0.5) == Center(f, y) - k as real - 0.5;
    var t := RowTotal(f, y);
    assert (1.0 / t) * t == 1.0;
    assert Kernel(f, y, k) * (1.0 / t) * t == Kernel(f, y, k) * ((1.0 / t) * t);
  }

  /** If all scanlines have the same value at x, so has the sum of any weights, times the weights' own sum. */
  lemma {:induction false} ConstantSum(f: Filter, h: int -> Row, width: nat, y: int, a: int, b: int, x: nat, v: real)
    requires f.scale > 0.0 && RowTotal(f, y) != 0.0 && AllWide(h, width) && x < width
    requires forall k :: |h(k)| == width && h(k)[x] == v
    ensures DirectSum(f, h, width, y, a, b, x) * RowTotal(f, y) == v * Total(f, y, a, b)
    decreases b - a + 1
  {
    hide RowTotal, Weight, Kernel;
    var t := RowTotal(f, y);
    if a <= b {
      ConstantSum(f, h, width, y, a, b - 1, x, v);
      WeightKernel(f, y, b);
      assert h(b)[x] == v;
      Distribute(DirectSum(f, h, width, y, a, b - 1, x), v, Weight(f, y, b), t, Total(f, y, a, b - 1), Kernel(f, y, b));
    }
  }

  lemma WeightKernel(f: Filter, y: int, k: int)
    requires f.scale > 0.0 && RowTotal(f, y) != 0.0
    ensures Weight(f, y, k) * RowTotal(f, y) == Kernel(f, y, k)
  {
    WeightIs(f, y, k);
  }

  lemma Distribute(s: real, v: real, w: real, t: real, total: real, kernel: real)
    requires s * t == v * total && w * t == kernel
    ensures (s + v * w) * t == v * (total + kernel)
  {
    assert (v * w) * t == v * (w * t);
  }

  /** A constant image stays constant. */
  lemma ConstantKept(f: Filter, h: int -> Row, width: nat, y: int, row: Row, v: real, x: nat)
    requires f.scale > 0.0 && RowTotal(f, y) != 0.0 && AllWide(h, width) && x < width
    requires IsDirectRow(f, h, width, y, row) && forall k :: |h(k)| == width && h(k)[x] == v
    ensures row[x] == v
  {
    hide Kernel, Weight, DirectSum, Total, FirstScanline, LastScanline;
    var a, b, t := FirstScanline(f, y), LastScanline(f, y), RowTotal(f, y);
    ConstantSum(f, h, width, y, a, b, x, v);
    Cancel(row[x], v, t);
  }

  lemma Cancel(a: real, b: real, t: real)
    requires t != 0.0 && a * t == b * t
    ensures a == b
  {
    assert (a - b) * t == 0.0;
  }

  /** The kernel at a whole distance. */
  function AtWhole(f: Filter, d: int): real {
    (f.kernel)(d as real)
  }

  /** It is zero at every whole distance but zero. */
  ghost predicate Interpolating(f: Filter) {
    forall d: int :: AtWhole(f, d) == 0.0 <==> d != 0
  }

  lemma {:induction false} OneWeight(f: Filter, h: int -> Row, width: nat, y: int, a: int, b: int, x: nat, j: int)
    requires f.scale > 0.0 && RowTotal(f, y) != 0.0 && AllWide(h, width) && x < width
    requires forall k :: k != j ==> Kernel(f, y, k) == 0.0
    ensures |h(j)| == width
    ensures Total(f, y, a, b) == if a <= j <= b then Kernel(f, y, j) else 0.0
    ensures DirectSum(f, h, width, y, a, b, x) == if a <= j <= b then h(j)[x] * Weight(f, y, j) else 0.0
    decreases b - a + 1
  {
    hide RowTotal, Kernel;
    assert |h(j)| == width;
    if a <= b {
      OneWeight(f, h, width, y, a, b - 1, x, j);
      if b != j {
        assert Kernel(f, y, b) == 0.0 && Weight(f, y, b) == 0.0;
      }
    }
  }

  /** Where the middle of a row falls on the middle of a scanline, an interpolating kernel gives that scanline. */
  lemma ScanlineKept(f: Filter, h: int -> Row, width: nat, y: int, row: Row, j: int, x: nat)
    requires Enlarging(f) && RowTotal(f, y) != 0.0 && AllWide(h, width) && x < width
    requires IsDirectRow(f, h, width, y, row) && Interpolating(f) && Center(f, y) == j as real + 0.5
    ensures |h(j)| == width && row[x] == h(j)[x]
  {
    hide Total, DirectSum, Center, FirstScanline, LastScanline;
    var a, b := FirstScanline(f, y), LastScanline(f, y);
    RangeExact(f, y, j);
    forall k | k != j
      ensures Kernel(f, y, k) == 0.0
    {
      assert Center(f, y) - (k as real + 0.5) == (j - k) as real;
      assert AtWhole(f, j - k) == 0.0;
    }
    assert AtWhole(f, 0) != 0.0 && Center(f, y) - (j as real + 0.5) == 0 as real;
    OneWeight(f, h, width, y, a, b, x, j);
    WeightKernel(f, y, j);
    assert RowTotal(f, y) == Kernel(f, y, j);
    Cancel(Weight(f, y, j), 1.0, Kernel(f, y, j));
  }
}
