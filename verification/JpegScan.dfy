/** The entropy-coded segment of a JPEG scan as an endless stream of bits: stuffed zeros and fill
    bytes are dropped, and zeros follow the first marker or the end of the file. */
module JpegScan {
  import opened Bits
  import opened Inflate

  /** Where the reader stands in the file, and whether it has met a marker. */
  datatype Feed = Feed(pos: nat, nomore: bool)

  function Next(file: seq<byte>, p: nat): nat {
    if p < |file| then p + 1 else p
  }

  /** The first position from p on that does not hold 0xff. */
  function AfterFill(file: seq<byte>, p: nat): (q: nat)
    ensures p <= q && ByteAt(file, q) != 0xff
    decreases |file| - p
  {
    if p < |file| && file[p] == 0xff then AfterFill(file, p + 1) else p
  }

  /** A marker: 0xff, any fill bytes, then a code that is not zero. */
  predicate AtMarker(file: seq<byte>, p: nat) {
    ByteAt(file, p) == 0xff && ByteAt(file, AfterFill(file, p)) != 0
  }

  /** The byte the feed delivers next (section F.2.2.5 of ITU-T T.81). */
  function FeedByte(file: seq<byte>, f: Feed): byte {
    if f.nomore || AtMarker(file, f.pos) then 0 else ByteAt(file, f.pos)
  }

  function FeedNext(file: seq<byte>, f: Feed): Feed {
    if f.nomore then f
    else if ByteAt(file, f.pos) != 0xff then f.(pos := Next(file, f.pos))
    else Feed(Next(file, AfterFill(file, f.pos)), AtMarker(file, f.pos))
  }

  /** The n-th byte the feed delivers. */
  function FeedAt(file: seq<byte>, f: Feed, n: nat): byte
    decreases n
  {
    if n == 0 then FeedByte(file, f) else FeedAt(file, FeedNext(file, f), n - 1)
  }

  lemma {:induction false} Ended(file: seq<byte>, f: Feed, n: nat)
    requires f.nomore || AtMarker(file, f.pos)
    ensures FeedAt(file, f, n) == 0
    decreases n
  {
    if n > 0 { Ended(file, FeedNext(file, f), n - 1); }
  }

  /** Bits of a byte, most significant first. */
  function Msb8(b: byte): (s: seq<bit>)
    ensures |s| == 8
  {
    var l := Lsb(b, 8);
    [l[7], l[6], l[5], l[4], l[3], l[2], l[1], l[0]]
  }

  lemma Msb8Value(b: byte)
    ensures MsbVal(Msb8(b)) == b
  {
    MsbLsbReverse(Msb8(b), Lsb(b, 8));
    LsbValOfLsb(b, 8);
    Pow2Values();
    LowBound(b, 8);
  }

  function ScanBit(file: seq<byte>, f: Feed, q: nat): bit {
    Msb8(FeedAt(file, f, q / 8))[q % 8]
  }

  /** The n bits from position p of the scan that starts at f. */
  function ScanBits(file: seq<byte>, f: Feed, p: nat, n: nat): (s: seq<bit>)
    ensures |s| == n
  {
    seq<bit>(n, i requires 0 <= i < n => ScanBit(file, f, p + i))
  }

  lemma ScanSplit(file: seq<byte>, f: Feed, p: nat, m: nat, n: nat)
    ensures ScanBits(file, f, p, m + n) == ScanBits(file, f, p, m) + ScanBits(file, f, p + m, n)
  {
  }

  lemma ScanByte(file: seq<byte>, f: Feed, m: nat)
    ensures ScanBits(file, f, 8 * m, 8) == Msb8(FeedAt(file, f, m))
  {
    hide Msb8, FeedAt, ScanBit;
    forall i | 0 <= i < 8
      ensures ScanBit(file, f, 8 * m + i) == Msb8(FeedAt(file, f, m))[i]
    {
      BitOfByte(file, f, m, i);
    }
  }

  lemma BitOfByte(file: seq<byte>, f: Feed, m: nat, i: nat)
    requires i < 8
    ensures ScanBit(file, f, 8 * m + i) == Msb8(FeedAt(file, f, m))[i]
  {
    hide Msb8, FeedAt;
    assert (8 * m + i) / 8 == m && (8 * m + i) % 8 == i;
  }

  /** From byte m of the scan on, the feed g delivers what the scan holds. */
  ghost predicate Delivers(file: seq<byte>, f: Feed, m: nat, g: Feed) {
    forall n: nat :: FeedAt(file, g, n) == ScanByteAt(file, f, m, n)
  }

  function ScanByteAt(file: seq<byte>, f: Feed, m: nat, n: nat): byte {
    FeedAt(file, f, m + n)
  }

  lemma DeliversStart(file: seq<byte>, f: Feed)
    ensures Delivers(file, f, 0, f)
  {
  }

  lemma DeliversNext(file: seq<byte>, f: Feed, m: nat, g: Feed)
    requires Delivers(file, f, m, g)
    ensures FeedByte(file, g) == FeedAt(file, f, m)
    ensures Delivers(file, f, m + 1, FeedNext(file, g))
  {
    hide FeedByte, FeedNext, FeedAt;
    assert FeedAt(file, g, 0) == ScanByteAt(file, f, m, 0);
    FeedFirst(file, g);
    var next, m1 := FeedNext(file, g), m + 1;
    forall n: nat
      ensures FeedAt(file, next, n) == ScanByteAt(file, f, m1, n)
    {
      var n1 := n + 1;
      assert FeedAt(file, g, n1) == ScanByteAt(file, f, m, n1);
      FeedLater(file, g, n);
    }
  }

  lemma FeedFirst(file: seq<byte>, g: Feed)
    ensures FeedAt(file, g, 0) == FeedByte(file, g)
  {
  }

  lemma FeedLater(file: seq<byte>, g: Feed, n: nat)
    ensures FeedAt(file, g, n + 1) == FeedAt(file, FeedNext(file, g), n)
  {
  }

  /** Having read a marker is as good as standing before it. */
  lemma DeliversMarker(file: seq<byte>, f: Feed, m: nat, g: Feed, h: Feed)
    requires Delivers(file, f, m, g) && AtMarker(file, g.pos) && h.nomore
    ensures Delivers(file, f, m, h)
  {
    forall n: nat
      ensures FeedAt(file, h, n) == ScanByteAt(file, f, m, n)
    {
      Ended(file, g, n);
      Ended(file, h, n);
      assert FeedAt(file, g, n) == ScanByteAt(file, f, m, n);
    }
  }

  /** Once the feed has ended the scan holds zeros only. */
  lemma DeliversZeros(file: seq<byte>, f: Feed, m: nat, g: Feed, p: nat, n: nat)
    requires Delivers(file, f, m, g) && g.nomore && 8 * m <= p
    ensures MsbVal(ScanBits(file, f, p, n)) == 0
  {
    var s := ScanBits(file, f, p, n);
    forall i | 0 <= i < n
      ensures s[i] == 0
    {
      assert s[i] == ScanBit(file, f, p + i);
      var q := (p + i) / 8;
      Ended(file, g, q - m);
      assert FeedAt(file, g, q - m) == ScanByteAt(file, f, m, q - m);
      Msb8Zero();
    }
    ZeroValue(s);
  }

  lemma Msb8Zero()
    ensures forall i :: 0 <= i < 8 ==> Msb8(0)[i] == 0
  {
    assert Lsb(0, 8) == [0, 0, 0, 0, 0, 0, 0, 0];
  }

  lemma {:induction false} ZeroValue(s: seq<bit>)
    requires forall i :: 0 <= i < |s| ==> s[i] == 0
    ensures MsbVal(s) == 0
  {
    if |s| > 0 { ZeroValue(s[..|s| - 1]); }
  }
}
