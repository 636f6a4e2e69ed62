/** AC coefficients from the encoder's side (sections F.1.2.2 and B.1.1.5 of ITU-T T.81): what an encoder
    writes for a block, byte stuffing included, reads back as the block. */
module JpegBlocks {
  import opened Bits
  import opened Inflate
  import opened JpegBits
  import opened JpegHuffman
  import opened JpegLookup
  import opened JpegScan
  import opened Jpegs

  // ---- the zigzag ----

  /** Figure A.6: the number of the coefficient at row-major place z. */
  function Numbered(z: nat): nat
    requires z < 64
  {
    if z < 8 then [0, 1, 5, 6, 14, 15, 27, 28][z]
    else if z < 16 then [2, 4, 7, 13, 16, 26, 29, 42][z - 8]
    else if z < 24 then [3, 8, 12, 17, 25, 30, 41, 43][z - 16]
    else if z < 32 then [9, 11, 18, 24, 31, 40, 44, 53][z - 24]
    else if z < 40 then [10, 19, 23, 32, 39, 45, 52, 54][z - 32]
    else if z < 48 then [20, 22, 33, 38, 46, 51, 55, 60][z - 40]
    else if z < 56 then [21, 34, 37, 47, 50, 56, 59, 61][z - 48]
    else [35, 36, 48, 49, 57, 58, 62, 63][z - 56]
  }

  /** The order of the coefficients is that of the figure; what lies past it falls on the last place. */
  lemma ZigzagIsFigure(k: nat, z: nat)
    requires k < 79 && z < 64
    ensures k < 64 ==> (ZigzagPlace(k) == z <==> Numbered(z) == k)
    ensures k >= 64 ==> ZigzagPlace(k) == 63
  {
    PlaceNumbered(k);
    NumberedPlace(z);
  }

  lemma PlaceNumbered(k: nat)
    requires k < 79
    ensures k < 64 ==> Numbered(ZigzagPlace(k)) == k
    ensures k >= 64 ==> ZigzagPlace(k) == 63
  {
    if k < 16 {
      PlacesTo16(k);
    } else if k < 32 {
      PlacesTo32(k);
    } else if k < 48 {
      PlacesTo48(k);
    } else if k < 64 {
      PlacesTo64(k);
    }
  }

  lemma PlacesTo16(k: nat)
    requires k < 16
    ensures Numbered(ZigzagPlace(k)) == k
  {
  }

  lemma PlacesTo32(k: nat)
    requires 16 <= k < 32
    ensures Numbered(ZigzagPlace(k)) == k
  {
  }

  lemma PlacesTo48(k: nat)
    requires 32 <= k < 48
    ensures Numbered(ZigzagPlace(k)) == k
  {
  }

  lemma PlacesTo64(k: nat)
    requires 48 <= k < 64
    ensures Numbered(ZigzagPlace(k)) == k
  {
  }

  lemma NumberedPlace(z: nat)
    requires z < 64
    ensures Numbered(z) < 64 && ZigzagPlace(Numbered(z)) == z
  {
    if z < 32 { UpperHalf(z); } else { LowerHalf(z); }
  }

  lemma UpperHalf(z: nat)
    requires z < 32
    ensures Numbered(z) < 64 && ZigzagPlace(Numbered(z)) == z
  {
  }

  lemma LowerHalf(z: nat)
    requires 32 <= z < 64
    ensures Numbered(z) < 64 && ZigzagPlace(Numbered(z)) == z
  {
  }

  function Row(k: nat): nat
    requires k < 79
  {
    ZigzagPlace(k) / 8
  }

  function Column(k: nat): nat
    requires k < 79
  {
    ZigzagPlace(k) % 8
  }

  /** From coefficient k the walk goes to a neighbour on the next diagonal; or down-left where the diagonal's
      number is odd, and up-right where it is even. */
  predicate WalksOn(k: nat)
    requires k < 63
  {
    var r, c, r', c' := Row(k), Column(k), Row(k + 1), Column(k + 1);
    || (r' + c' == r + c && if (r + c) % 2 == 1 then r' == r + 1 else r == r' + 1)
    || (r' + c' == r + c + 1 && (r' == r || c' == c))
  }

  /** The walk starts in the corner and goes from diagonal to diagonal. */
  lemma ZigzagWalk(k: nat)
    requires k < 63
    ensures ZigzagPlace(0) == 0 && WalksOn(k)
  {
    if k < 8 {
      WalksTo8(k);
    } else if k < 16 {
      WalksTo16(k);
    } else if k < 24 {
      WalksTo24(k);
    } else if k < 32 {
      WalksTo32(k);
    } else if k < 40 {
      WalksTo40(k);
    } else if k < 48 {
      WalksTo48(k);
    } else if k < 56 {
      WalksTo56(k);
    } else {
      WalksTo63(k);
    }
  }

  lemma WalksTo8(k: nat)
    requires k < 8
    ensures WalksOn(k)
  {
  }

  lemma WalksTo16(k: nat)
    requires 8 <= k < 16
    ensures WalksOn(k)
  {
  }

  lemma WalksTo24(k: nat)
    requires 16 <= k < 24
    ensures WalksOn(k)
  {
  }

  lemma WalksTo32(k: nat)
    requires 24 <= k < 32
    ensures WalksOn(k)
  {
  }

  lemma WalksTo40(k: nat)
    requires 32 <= k < 40
    ensures WalksOn(k)
  {
  }

  lemma WalksTo48(k: nat)
    requires 40 <= k < 48
    ensures WalksOn(k)
  {
  }

  lemma WalksTo56(k: nat)
    requires 48 <= k < 56
    ensures WalksOn(k)
  {
  }

  lemma WalksTo63(k: nat)
    requires 56 <= k < 63
    ensures WalksOn(k)
  {
  }

  // ---- magnitudes ----

  /** v has n magnitude bits. */
  predicate HasSize(v: int, n: nat)
    requires n >= 1
  {
    Pow2(n - 1) <= v < Pow2(n) || Pow2(n - 1) <= -v < Pow2(n)
  }

  /** The magnitude bits of v as a number: v itself, or for a negative v the n low bits of v - 1. */
  function Magnitude(v: int, n: nat): (m: int)
    requires n >= 1 && HasSize(v, n)
    ensures 0 <= m < Pow2(n)
  {
    if v > 0 then v else v + Pow2(n) - 1
  }

  /** Extending the magnitude bits gives the value back, and only values with n magnitude bits arise. */
  lemma ExtendInverts(v: int, n: nat)
    requires n >= 1 && HasSize(v, n)
    ensures Extend(Magnitude(v, n), n) == v
  {
  }

  lemma ExtendHasSize(m: nat, n: nat)
    requires n >= 1 && m < Pow2(n)
    ensures HasSize(Extend(m, n), n) && Magnitude(Extend(m, n), n) == m
  {
  }

  /** Truncation keeps the low sixteen bits and lies in the range of a short. */
  lemma ShortIs(v: int)
    ensures -0x8000 <= Short(v) < 0x8000 && (v - Short(v)) % 0x1_0000 == 0
    ensures -0x8000 <= v < 0x8000 ==> Short(v) == v
  {
    var q := (v + 0x8000) / 0x1_0000;
    assert v - Short(v) == 0x1_0000 * q;
  }

  // ---- a block as it is written ----

  /** Some zeros and a coefficient with `size` magnitude bits; or sixteen zeros. */
  datatype Coefficient = Value(zeros: nat, v: int, size: nat) | SixteenZeros

  /** The symbol of a coefficient: zeros in the high half, size in the low half. */
  function SymbolOf(a: Coefficient): nat {
    match a
    case Value(zeros, v, size) => 16 * zeros + size
    case SixteenZeros => 0xf0
  }

  predicate CoefficientOk(a: Coefficient, k: nat) {
    match a
    case Value(zeros, v, size) => zeros <= 15 && 1 <= size <= 15 && HasSize(v, size) && k + zeros < 64
    case SixteenZeros => k + 16 < 64
  }

  /** Where the next coefficient starts. */
  function Past(a: Coefficient, k: nat): nat {
    if a.Value? then k + a.zeros + 1 else k + 16
  }

  /** The block with the coefficient in its place, times its factor. */
  function Stored(a: Coefficient, k: nat, dequant: seq<nat>, data: seq<int>): (r: seq<int>)
    requires CoefficientOk(a, k) && |dequant| == 64 && |data| == 64
    ensures |r| == 64
  {
    match a
    case Value(zeros, v, size) =>
      var z := ZigzagPlace(k + zeros);
      data[z := Short(v * dequant[z])]
    case SixteenZeros => data
  }

  predicate AllOk(items: seq<Coefficient>, k: nat)
    decreases |items|
  {
    if items == [] then k <= 64 else CoefficientOk(items[0], k) && AllOk(items[1..], Past(items[0], k))
  }

  function Block(items: seq<Coefficient>, k: nat, dequant: seq<nat>, data: seq<int>): seq<int>
    requires AllOk(items, k) && |dequant| == 64 && |data| == 64
    decreases |items|
  {
    if items == [] then data
    else Block(items[1..], Past(items[0], k), dequant, Stored(items[0], k, dequant, data))
  }

  /** n bits of v, the highest first. */
  function High(v: nat, n: nat): (bits: seq<bit>)
    ensures |bits| == n
  {
    Lsb(BitReverse(v, n), n)
  }

  /** The number of the code for a symbol, which the table has. */
  ghost predicate CodeOf(t: AcTable, symbol: nat, i: nat)
    requires |t.count| == 16
  {
    i < |Sizes(t.count)| && i < |t.values| && t.values[i] == symbol
  }

  /** The code that the table gives to the symbol, by figure C.2. */
  ghost predicate IsWord(t: AcTable, symbol: nat, bits: seq<bit>)
    requires |t.count| == 16
  {
    exists i: nat :: CodeOf(t, symbol, i) && bits == High(HuffCode(Sizes(t.count), i), Sizes(t.count)[i])
  }

  /** The bits are the code of the coefficient's symbol followed by its magnitude. */
  ghost predicate IsWritten(t: AcTable, a: Coefficient, k: nat, bits: seq<bit>)
    requires |t.count| == 16
  {
    CoefficientOk(a, k) &&
    match a
    case Value(zeros, v, size) =>
      exists w: seq<bit> :: IsWord(t, SymbolOf(a), w) && bits == w + High(Magnitude(v, size), size)
    case SixteenZeros => IsWord(t, 0xf0, bits)
  }

  /** The scan shows these bits at p. */
  ghost predicate ScanShows(file: seq<byte>, from: Feed, p: nat, bits: seq<bit>) {
    ScanBits(file, from, p, |bits|) == bits
  }

  /** From bit p to `end` stands what an encoder writes for the coefficients from k on: each in turn, and the
      end-of-block code unless the block is full. */
  ghost predicate BlockAt(t: AcTable, file: seq<byte>, from: Feed, p: nat, items: seq<Coefficient>, k: nat, end: nat)
    requires |t.count| == 16
    decreases |items|
  {
    if items != [] then
      exists bits: seq<bit> :: IsWritten(t, items[0], k, bits) && ScanShows(file, from, p, bits)
        && BlockAt(t, file, from, p + |bits|, items[1..], Past(items[0], k), end)
    else if k >= 64 then end == p
    else exists bits: seq<bit> :: IsWord(t, 0, bits) && ScanShows(file, from, p, bits) && end == p + |bits|
  }

  lemma HighValue(v: nat, n: nat)
    requires v < Pow2(n)
    ensures MsbVal(High(v, n)) == v
  {
    ReversedCode(v, n);
  }

  /** A code in the scan decodes to its symbol. */
  lemma WordDecodes(t: AcTable, file: seq<byte>, from: Feed, p: nat, symbol: nat, bits: seq<bit>)
    requires UsableTable(t) && IsWord(t, symbol, bits) && ScanShows(file, from, p, bits)
    ensures var d := Plain(t.count, MsbVal(ScanBits(file, from, p, 16)));
      d.Decoded? && 0 <= d.index < 256 && t.values[d.index] == symbol && d.length == |bits|
  {
    hide HuffCode, MsbVal, SizeList, Start, ScanBit, FlagFree, Lsb, BitReverse, Pow2;
    var sizes := Sizes(t.count);
    var i: nat :| CodeOf(t, symbol, i) && bits == High(HuffCode(sizes, i), sizes[i]);
    var s, window := sizes[i], ScanBits(file, from, p, 16);
    CodeFits(sizes, i);
    HighValue(HuffCode(sizes, i), s);
    assert s <= 16;
    ScanSplit(file, from, p, s, 16 - s);
    assert window[..s] == bits;
    assert Matches(sizes, window, i);
    DecodeIsMatch(sizes, window, i);
  }

  /** What decoding makes of the scan from bit p on, for the coefficients from k on. */
  ghost function Outcome(t: AcTable, file: seq<byte>, from: Feed, p: nat, k: nat, data: seq<int>): AcResult
    requires UsableTable(t) && |data| == 64
  {
    AcFrom(t, file, from, p, k, data)
  }

  /** The symbol at p is decoded. */
  ghost predicate SymbolAtBit(t: AcTable, file: seq<byte>, from: Feed, p: nat, symbol: nat, length: nat)
    requires UsableTable(t)
  {
    var d := Plain(t.count, MsbVal(ScanBits(file, from, p, 16)));
    d.Decoded? && 0 <= d.index < 256 && t.values[d.index] == symbol && d.length == length
  }

  lemma OutcomeOfValue(t: AcTable, file: seq<byte>, from: Feed, p: nat, k: nat, data: seq<int>, zeros: nat, size: nat, length: nat, v: int)
    requires UsableTable(t) && |data| == 64 && zeros <= 15 && 1 <= size <= 15 && k + zeros < 64
    requires SymbolAtBit(t, file, from, p, 16 * zeros + size, length)
    requires Extend(MsbVal(ScanBits(file, from, p + length, size)), size) == v
    ensures var z := ZigzagPlace(k + zeros);
      Outcome(t, file, from, p, k, data)
      == Outcome(t, file, from, p + length + size, k + zeros + 1, data[z := Short(v * t.dequant[z])])
  {
    hide AcFrom, Plain, MsbVal, ScanBits, ZigzagPlace, Extend, Short, Kraft, FlagFree, SizeList;
    AcValue(t, file, from, p, k, data);
  }

  lemma OutcomeOfZero(t: AcTable, file: seq<byte>, from: Feed, p: nat, k: nat, data: seq<int>, symbol: nat, length: nat)
    requires UsableTable(t) && |data| == 64 && k < 64 && (symbol == 0 || symbol == 0xf0)
    requires SymbolAtBit(t, file, from, p, symbol, length)
    ensures Outcome(t, file, from, p, k, data)
         == if symbol == 0 then AcDone(data, p + length) else Outcome(t, file, from, p + length, k + 16, data)
  {
    hide AcFrom, Plain, MsbVal, ScanBits, Kraft, FlagFree, SizeList;
    AcZero(t, file, from, p, k, data);
  }

  lemma OutcomeAtEnd(t: AcTable, file: seq<byte>, from: Feed, p: nat, k: nat, data: seq<int>)
    requires UsableTable(t) && |data| == 64 && k >= 64
    ensures Outcome(t, file, from, p, k, data) == AcDone(data, p)
  {
  }

  lemma SymbolShows(t: AcTable, file: seq<byte>, from: Feed, p: nat, symbol: nat, bits: seq<bit>)
    requires UsableTable(t) && IsWord(t, symbol, bits) && ScanShows(file, from, p, bits)
    ensures SymbolAtBit(t, file, from, p, symbol, |bits|)
  {
    hide Plain, MsbVal, ScanBits, UsableTable, IsWord;
    WordDecodes(t, file, from, p, symbol, bits);
  }

  /** The two parts of a coefficient in the scan. */
  lemma ValueParts(file: seq<byte>, from: Feed, p: nat, w: seq<bit>, m: nat, n: nat)
    requires m < Pow2(n) && ScanShows(file, from, p, w + High(m, n))
    ensures ScanShows(file, from, p, w) && MsbVal(ScanBits(file, from, p + |w|, n)) == m
  {
    hide MsbVal, High, Pow2, ScanBits;
    HighLength(m, n);
    HighValue(m, n);
    ScanSplit(file, from, p, |w|, n);
    ScanLength(file, from, p, |w|);
    PartsShow(ScanBits(file, from, p, |w|), ScanBits(file, from, p + |w|, n), w, High(m, n));
  }

  lemma HighLength(m: nat, n: nat)
    ensures |High(m, n)| == n
  {
  }

  lemma ScanLength(file: seq<byte>, from: Feed, p: nat, n: nat)
    ensures |ScanBits(file, from, p, n)| == n
  {
  }

  lemma PartsShow(a: seq<bit>, b: seq<bit>, c: seq<bit>, d: seq<bit>)
    requires a + b == c + d && |a| == |c|
    ensures a == c && b == d
  {
    assert (a + b)[..|a|] == a && (c + d)[..|c|] == c && (a + b)[|a|..] == b && (c + d)[|c|..] == d;
  }

  /** A coefficient reads back and is stored in its place. */
  lemma CoefficientReads(t: AcTable, file: seq<byte>, from: Feed, p: nat, a: Coefficient, k: nat, bits: seq<bit>, data: seq<int>)
    requires UsableTable(t) && |data| == 64 && |t.dequant| == 64 && |t.count| == 16
    requires IsWritten(t, a, k, bits) && ScanShows(file, from, p, bits)
    ensures Outcome(t, file, from, p, k, data)
         == Outcome(t, file, from, p + |bits|, Past(a, k), Stored(a, k, t.dequant, data))
  {
    hide UsableTable, Outcome, IsWord, ScanShows, SymbolAtBit, High, MsbVal, ScanBits, ZigzagPlace, Short, Extend, HasSize, Magnitude;
    match a {
      case Value(zeros, v, n) =>
        MagnitudeFits(v, n);
        var m := Magnitude(v, n);
        var w: seq<bit> :| IsWord(t, SymbolOf(a), w) && bits == w + High(m, n);
        HighLength(m, n);
        ValueParts(file, from, p, w, m, n);
        SymbolShows(t, file, from, p, 16 * zeros + n, w);
        ExtendInverts(v, n);
        OutcomeOfValue(t, file, from, p, k, data, zeros, n, |w|, v);
      case SixteenZeros =>
        SymbolShows(t, file, from, p, 0xf0, bits);
        OutcomeOfZero(t, file, from, p, k, data, 0xf0, |bits|);
    }
  }

  lemma MagnitudeFits(v: int, n: nat)
    requires n >= 1 && HasSize(v, n)
    ensures 0 <= Magnitude(v, n) < Pow2(n)
  {
  }

  /** What an encoder writes for the rest of a block is decoded to its coefficients, each in its place and
      multiplied by its factor. */
  lemma {:induction false} ItemsRead(t: AcTable, file: seq<byte>, from: Feed, p: nat, items: seq<Coefficient>, k: nat,
                                     end: nat, data: seq<int>)
    requires UsableTable(t) && |data| == 64 && |t.dequant| == 64 && |t.count| == 16 && AllOk(items, k)
    requires BlockAt(t, file, from, p, items, k, end)
    ensures Outcome(t, file, from, p, k, data) == AcDone(Block(items, k, t.dequant, data), end)
    decreases |items|
  {
    hide UsableTable, Outcome, IsWritten, IsWord, ScanShows, Stored, Past, SymbolAtBit, CoefficientOk;
    if items != [] {
      var bits: seq<bit> :| IsWritten(t, items[0], k, bits) && ScanShows(file, from, p, bits)
        && BlockAt(t, file, from, p + |bits|, items[1..], Past(items[0], k), end);
      CoefficientReads(t, file, from, p, items[0], k, bits, data);
      ItemsRead(t, file, from, p + |bits|, items[1..], Past(items[0], k), end, Stored(items[0], k, t.dequant, data));
    } else if k >= 64 {
      OutcomeAtEnd(t, file, from, p, k, data);
    } else {
      var bits: seq<bit> :| IsWord(t, 0, bits) && ScanShows(file, from, p, bits) && end == p + |bits|;
      SymbolShows(t, file, from, p, 0, bits);
      OutcomeOfZero(t, file, from, p, k, data, 0, |bits|);
    }
  }

  /** A whole block, from coefficient 1 on. */
  lemma BlockReads(t: AcTable, file: seq<byte>, from: Feed, p: nat, items: seq<Coefficient>, end: nat, data: seq<int>)
    requires UsableTable(t) && |data| == 64 && AllOk(items, 1) && BlockAt(t, file, from, p, items, 1, end)
    ensures AcFrom(t, file, from, p, 1, data) == AcDone(Block(items, 1, t.dequant, data), end)
  {
    hide AcFrom, BlockAt, Block, AllOk;
    ItemsRead(t, file, from, p, items, 1, end, data);
    assert Outcome(t, file, from, p, 1, data) == AcFrom(t, file, from, p, 1, data);
  }

  // ---- stuffing ----

  /** The bytes of a scan as they are written: a zero behind every 0xff. */
  function Stuffed(s: seq<byte>): seq<byte> {
    if |s| == 0 then [] else (if s[0] == 0xff then [0xff, 0] else [s[0]]) + Stuffed(s[1..])
  }

  /** A marker, fill bytes before its code or not, ends the scan: zeros follow for ever. */
  lemma MarkerEnds(file: seq<byte>, p: nat, fill: nat, n: nat)
    requires p + fill + 1 < |file| && file[p + fill + 1] != 0 && file[p + fill + 1] != 0xff
    requires forall i :: p <= i <= p + fill ==> file[i] == 0xff
    ensures FeedAt(file, Feed(p, false), n) == 0
  {
    FillPassed(file, p, fill + 1);
    Ended(file, Feed(p, false), n);
  }

  lemma {:induction false} FillPassed(file: seq<byte>, p: nat, k: nat)
    requires p + k < |file| && file[p + k] != 0xff && forall i :: p <= i < p + k ==> file[i] == 0xff
    ensures AfterFill(file, p) == p + k
    decreases k
  {
    if k > 0 { FillPassed(file, p + 1, k - 1); }
  }

  /** Written bytes are fed back without the stuffing, wherever they stand in a file. */
  lemma {:induction false} StuffedFeeds(file: seq<byte>, p: nat, s: seq<byte>, n: nat)
    requires p + |Stuffed(s)| <= |file| && file[p..p + |Stuffed(s)|] == Stuffed(s) && n < |s|
    ensures FeedAt(file, Feed(p, false), n) == s[n]
    decreases n
  {
    var w := if s[0] == 0xff then [0xff, 0] else [s[0]];
    var rest := Stuffed(s[1..]);
    var all := file[p..p + |Stuffed(s)|];
    assert all == w + rest;
    hide Stuffed;
    assert file[p] == all[0] == s[0];
    if s[0] == 0xff {
      assert file[p + 1] == all[1] == 0;
      FillPassed(file, p, 1);
    }
    if n > 0 {
      assert FeedNext(file, Feed(p, false)) == Feed(p + |w|, false);
      assert file[p + |w|..p + |w| + |rest|] == all[|w|..];
      StuffedFeeds(file, p + |w|, s[1..], n - 1);
    }
  }
}
