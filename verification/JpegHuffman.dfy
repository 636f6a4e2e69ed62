/** JPEG's Huffman tables: Annex C of ITU-T T.81 assigns the codes; the decoder keeps, per code
    length, a pre-shifted bound and an offset, and a 9-bit direct lookup beside them. */
module JpegHuffman {
  import opened Bits

  const FAST_BITS := 9
  const NOT_FAST := 255
  const TOP := 0x1_0000

  // ---- Annex C ----

  /** n symbols of length s */
  function Repeat(s: nat, n: nat): (r: seq<nat>)
    ensures |r| == n && forall i :: 0 <= i < n ==> r[i] == s
  {
    seq(n, _ => s)
  }

  /** The code lengths of the symbols, in symbol order, for the first j entries of a length histogram
      (figure C.1). */
  function SizeList(count: seq<nat>, j: nat): seq<nat>
    requires j <= |count|
  {
    if j == 0 then [] else SizeList(count, j - 1) + Repeat(j, count[j - 1])
  }

  /** Lengths from 1 to 16 that never fall. */
  ghost predicate Sorted(sizes: seq<nat>) {
    && (forall i :: 0 <= i < |sizes| ==> 1 <= sizes[i] <= 16)
    && (forall i, j :: 0 <= i < j < |sizes| ==> sizes[i] <= sizes[j])
  }

  /** Figure C.2: the next code is one more, extended with zeros to the next length. */
  function HuffCode(sizes: seq<nat>, i: nat): nat
    requires i < |sizes| && Sorted(sizes)
  {
    if i == 0 then 0 else Shl(HuffCode(sizes, i - 1) + 1, sizes[i] - sizes[i - 1])
  }

  /** The next bits, first bit most significant, are the code of symbol i. */
  ghost predicate Matches(sizes: seq<nat>, bits: seq<bit>, i: nat)
    requires Sorted(sizes)
  {
    i < |sizes| && sizes[i] <= |bits| && MsbVal(bits[..sizes[i]]) == HuffCode(sizes, i)
  }

  // ---- the same codes as consecutive intervals of 16-bit numbers ----

  /** How many 16-bit numbers start with a code of length s. */
  function Span(s: nat): nat
    requires s <= 16
  {
    Pow2(16 - s)
  }

  /** The Kraft sum of the first n symbols, in units of 2^-16. */
  function Start(sizes: seq<nat>, n: nat): nat
    requires Sorted(sizes) && n <= |sizes|
  {
    if n == 0 then 0 else Start(sizes, n - 1) + Span(sizes[n - 1])
  }

  /** All codes fit in their lengths. */
  ghost predicate Kraft(sizes: seq<nat>)
    requires Sorted(sizes)
  {
    Start(sizes, |sizes|) <= TOP
  }

  lemma {:induction false} StartGrows(sizes: seq<nat>, i: nat, j: nat)
    requires Sorted(sizes) && i <= j <= |sizes|
    ensures Start(sizes, i) <= Start(sizes, j) && (i < j ==> Start(sizes, i) < Start(sizes, j))
    decreases j
  {
    if i < j { StartGrows(sizes, i, j - 1); }
  }

  lemma {:induction false} StartIsCode(sizes: seq<nat>, i: nat)
    requires Sorted(sizes) && i < |sizes|
    ensures Start(sizes, i) == Shl(HuffCode(sizes, i), 16 - sizes[i])
    ensures Start(sizes, i + 1) == Shl(HuffCode(sizes, i) + 1, 16 - sizes[i])
  {
    hide Shl, Pow2;
    if i > 0 {
      StartIsCode(sizes, i - 1);
      ShlShl(HuffCode(sizes, i - 1) + 1, sizes[i] - sizes[i - 1], 16 - sizes[i]);
    } else {
      ShlZero(16 - sizes[0]);
    }
    assert Start(sizes, i + 1) == Start(sizes, i) + Span(sizes[i]);
    hide Start, HuffCode;
    ShlAdd(HuffCode(sizes, i), 1, 16 - sizes[i]);
    ShlPow2(16 - sizes[i]);
  }

  lemma {:induction false} ShlZero(n: nat)
    ensures Shl(0, n) == 0
  {
    if n > 0 { ShlZero(n - 1); }
  }

  /** w, read as 16 bits, lies in the interval of symbol i. */
  ghost predicate Within(sizes: seq<nat>, w: nat, i: nat)
    requires Sorted(sizes)
  {
    i < |sizes| && Start(sizes, i) <= w < Start(sizes, i + 1)
  }

  lemma MatchIsInterval(sizes: seq<nat>, bits: seq<bit>, i: nat)
    requires Sorted(sizes) && |bits| == 16
    ensures Matches(sizes, bits, i) <==> Within(sizes, MsbVal(bits), i)
  {
    if i < |sizes| {
      var s, c, w := sizes[i], HuffCode(sizes, i), MsbVal(bits);
      StartIsCode(sizes, i);
      MsbValSplit(bits, s);
      ShrBelow(w, 16 - s, c);
      ShrBelow(w, 16 - s, c + 1);
    }
  }

  /** Codes are prefix-free: at most one starts the bits. */
  lemma IntervalUnique(sizes: seq<nat>, w: nat, i: nat, j: nat)
    requires Sorted(sizes) && Within(sizes, w, i) && Within(sizes, w, j)
    ensures i == j
  {
    if i < j {
      StartGrows(sizes, i + 1, j);
    } else if j < i {
      StartGrows(sizes, j + 1, i);
    }
  }

  datatype Symbol = Symbol(index: nat) | NoSymbol

  /** Which of the first n symbols' codes starts the 16 bits w. */
  function SymbolAt(sizes: seq<nat>, w: nat, n: nat): Symbol
    requires Sorted(sizes) && n <= |sizes|
  {
    if n == 0 then NoSymbol
    else if Start(sizes, n - 1) <= w < Start(sizes, n) then Symbol(n - 1)
    else SymbolAt(sizes, w, n - 1)
  }

  lemma {:induction false} DecodeFinds(sizes: seq<nat>, w: nat, n: nat, i: nat)
    requires Sorted(sizes) && n <= |sizes|
    ensures SymbolAt(sizes, w, n) == Symbol(i) <==> i < n && Within(sizes, w, i)
    decreases n
  {
    if n > 0 {
      DecodeFinds(sizes, w, n - 1, i);
      if i < n - 1 && Within(sizes, w, i) && Within(sizes, w, n - 1) {
        IntervalUnique(sizes, w, i, n - 1);
      }
    }
  }

  /** The symbol the next 16 bits start with. */
  function DecodeBits(sizes: seq<nat>, bits: seq<bit>): Symbol
    requires Sorted(sizes)
  {
    SymbolAt(sizes, MsbVal(bits), |sizes|)
  }

  /** Decoding finds the one symbol whose Annex C code starts the bits, if any does. */
  lemma DecodeIsMatch(sizes: seq<nat>, bits: seq<bit>, i: nat)
    requires Sorted(sizes) && |bits| == 16
    ensures DecodeBits(sizes, bits) == Symbol(i) <==> Matches(sizes, bits, i)
  {
    DecodeFinds(sizes, MsbVal(bits), |sizes|, i);
    MatchIsInterval(sizes, bits, i);
  }

  /** Every 16-bit number below the Kraft sum starts with some code. */
  lemma {:induction false} DecodeCovers(sizes: seq<nat>, w: nat, n: nat)
    requires Sorted(sizes) && n <= |sizes|
    ensures w < Start(sizes, n) <==> SymbolAt(sizes, w, n).Symbol?
  {
    if n > 0 { DecodeCovers(sizes, w, n - 1); }
  }

  // ---- the size list ----

  lemma {:induction false} SizeListSorted(count: seq<nat>, j: nat)
    requires j <= |count| <= 16
    ensures Sorted(SizeList(count, j))
    ensures forall i :: 0 <= i < |SizeList(count, j)| ==> SizeList(count, j)[i] <= j
  {
    if j > 0 { SizeListSorted(count, j - 1); }
  }

  lemma {:induction false} SizeListGrows(count: seq<nat>, i: nat, j: nat)
    requires i <= j <= |count|
    ensures SizeList(count, i) <= SizeList(count, j)
    decreases j
  {
    if i < j { SizeListGrows(count, i, j - 1); }
  }

  /** How many symbols are shorter than j. */
  function Shorter(count: seq<nat>, j: nat): nat
    requires 1 <= j <= |count| + 1
  {
    |SizeList(count, j - 1)|
  }

  /** The length histogram of a whole table: a byte in the file for every length. */
  ghost predicate Histogram(count: seq<nat>) {
    |count| == 16 && (forall j :: 0 <= j < 16 ==> count[j] <= 255) && |SizeList(count, 16)| <= 256
  }

  function Sizes(count: seq<nat>): (sizes: seq<nat>)
    requires |count| == 16
    ensures Sorted(sizes)
  {
    SizeListSorted(count, 16);
    SizeList(count, 16)
  }

  /** Symbols from Shorter(j) up to Shorter(j + 1) are those of length j. */
  lemma LengthRange(count: seq<nat>, j: nat)
    requires |count| == 16 && 1 <= j <= 16
    ensures Shorter(count, j) <= Shorter(count, j + 1) <= |Sizes(count)|
    ensures Shorter(count, j + 1) == Shorter(count, j) + count[j - 1]
    ensures forall i :: 0 <= i < |Sizes(count)| ==>
      (Sizes(count)[i] < j <==> i < Shorter(count, j)) && (Sizes(count)[i] <= j <==> i < Shorter(count, j + 1))
  {
    var sizes := Sizes(count);
    SizeListSorted(count, j - 1);
    SizeListSorted(count, j);
    SizeListGrows(count, j - 1, 16);
    SizeListGrows(count, j, 16);
    forall i | Shorter(count, j + 1) <= i < |sizes|
      ensures sizes[i] > j
    {
      LaterSizes(count, j, 16, i);
    }
  }

  lemma {:induction false} LaterSizes(count: seq<nat>, j: nat, m: nat, i: nat)
    requires j <= m <= |count| && |SizeList(count, j)| <= i < |SizeList(count, m)|
    ensures SizeList(count, m)[i] > j
    decreases m
  {
    if j < m && i < |SizeList(count, m - 1)| { LaterSizes(count, j, m - 1, i); }
  }

  /** The code at which length j begins. */
  function FirstCode(count: seq<nat>, j: nat): nat
    requires 1 <= j <= |count| + 1
  {
    if j == 1 then 0 else 2 * (FirstCode(count, j - 1) + count[j - 2])
  }

  /** The Kraft sum of equally long symbols grows by their span. */
  lemma {:induction false} StartOfRun(sizes: seq<nat>, k: nat, m: nat, j: nat, c: nat)
    requires Sorted(sizes) && k <= m <= |sizes| && 1 <= j <= 16
    requires forall i :: k <= i < m ==> sizes[i] == j
    requires Shl(c, 16 - j) == Start(sizes, k)
    ensures Shl(c + m - k, 16 - j) == Start(sizes, m)
    decreases m
  {
    if k < m {
      StartOfRun(sizes, k, m - 1, j, c);
      ShlAdd(c + m - 1 - k, 1, 16 - j);
      ShlPow2(16 - j);
    }
  }

  lemma {:induction false} FirstCodeStart(count: seq<nat>, j: nat)
    requires |count| == 16 && 1 <= j <= 16
    ensures Shorter(count, j) <= |Sizes(count)|
    ensures Shl(FirstCode(count, j), 16 - j) == Start(Sizes(count), Shorter(count, j))
    decreases j
  {
    LengthRange(count, j);
    if j == 1 {
      ShlZero(15);
    } else {
      FirstCodeStart(count, j - 1);
      LengthRange(count, j - 1);
      StartOfRun(Sizes(count), Shorter(count, j - 1), Shorter(count, j), j - 1, FirstCode(count, j - 1));
      ShlTwice(FirstCode(count, j - 1) + count[j - 2], 16 - j);
    }
  }

  lemma ShlTwice(a: nat, n: nat)
    ensures Shl(2 * a, n) == Shl(a, n + 1)
  {
    ShlShl(a, 1, n);
    ShlValues(a);
  }

  /** The bound and the offset kept for each code length below n. */
  ghost predicate LengthsBelow(count: seq<nat>, n: nat, maxcode: seq<int>, delta: seq<int>)
    requires |count| == 16 && n <= 17 && |maxcode| == 18 && |delta| == 17
  {
    forall j :: 1 <= j < n ==> LengthEntry(count, j, maxcode[j], delta[j])
  }

  ghost predicate LengthEntry(count: seq<nat>, j: nat, bound: int, offset: int)
    requires |count| == 16 && 1 <= j <= 16
  {
    LengthRange(count, j);
    bound == Start(Sizes(count), Shorter(count, j + 1)) && offset == Shorter(count, j) - FirstCode(count, j)
  }

  /** Codes of length j lie between the bounds of j - 1 and j, and the offset turns them into symbols. */
  lemma OffsetFinds(count: seq<nat>, w: nat, j: nat) returns (i: nat)
    requires |count| == 16 && 1 <= j <= 16
    requires Shorter(count, j) <= Shorter(count, j + 1) <= |Sizes(count)|
    requires Start(Sizes(count), Shorter(count, j)) <= w < Start(Sizes(count), Shorter(count, j + 1))
    ensures Within(Sizes(count), w, i) && Sizes(count)[i] == j
    ensures i == Shr(w, 16 - j) + Shorter(count, j) - FirstCode(count, j)
  {
    hide Start, Shl, Shr, SizeList, FirstCode;
    var sizes, k, c := Sizes(count), Shorter(count, j), FirstCode(count, j);
    LengthRange(count, j);
    FirstCodeStart(count, j);
    var v := Shr(w, 16 - j);
    ShrBelow(w, 16 - j, c);
    ShrBelow(w, 16 - j, v);
    ShrBelow(w, 16 - j, v + 1);
    StartOfRun(sizes, k, Shorter(count, j + 1), j, c);
    ShrBelow(w, 16 - j, c + count[j - 1]);
    i := v - c + k;
    StartOfRun(sizes, k, i, j, c);
    StartOfRun(sizes, k, i + 1, j, c);
  }

  // ---- the 9-bit lookup ----

  /** The entry for index x once the first n symbols are entered. */
  function FastEntry(sizes: seq<nat>, x: nat, n: nat): nat
    requires Sorted(sizes) && n <= |sizes|
  {
    if n == 0 then NOT_FAST
    else if sizes[n - 1] <= FAST_BITS && Start(sizes, n - 1) <= 128 * x < Start(sizes, n) then n - 1
    else FastEntry(sizes, x, n - 1)
  }

  /** A short symbol's interval consists of whole lookup indices. */
  lemma ShortStart(sizes: seq<nat>, i: nat)
    requires Sorted(sizes) && i < |sizes| && sizes[i] <= FAST_BITS
    ensures Start(sizes, i) == 128 * Shl(HuffCode(sizes, i), FAST_BITS - sizes[i])
    ensures Start(sizes, i + 1) == Start(sizes, i) + 128 * Pow2(FAST_BITS - sizes[i])
  {
    var s, c := sizes[i], HuffCode(sizes, i);
    StartIsCode(sizes, i);
    ShlShl(c, FAST_BITS - s, 7);
    ShlValues(Shl(c, FAST_BITS - s));
    ShlOfPow2(FAST_BITS - s, 7);
    ShlValues(Pow2(FAST_BITS - s));
    ShlAdd(c, 1, 16 - s);
    ShlPow2(16 - s);
  }

  lemma WholeIndices(sizes: seq<nat>, w: nat, i: nat)
    requires Sorted(sizes) && i < |sizes| && sizes[i] <= FAST_BITS
    ensures Start(sizes, i) <= 128 * (w / 128) < Start(sizes, i + 1) <==> Within(sizes, w, i)
  {
    hide Start, HuffCode, Shl, Pow2;
    ShortStart(sizes, i);
  }

  /** The lookup gives the symbol whose short code starts the bits, and only then a symbol. */
  lemma {:induction false} FastEntryFinds(sizes: seq<nat>, w: nat, n: nat)
    requires Sorted(sizes) && n <= |sizes|
    ensures var e := FastEntry(sizes, w / 128, n);
      || (e < n && sizes[e] <= FAST_BITS && Within(sizes, w, e))
      || (e == NOT_FAST && forall i :: 0 <= i < n && sizes[i] <= FAST_BITS ==> !Within(sizes, w, i))
    decreases n
  {
    hide Start, HuffCode, Within;
    if n > 0 {
      FastEntryFinds(sizes, w, n - 1);
      if sizes[n - 1] <= FAST_BITS {
        WholeIndices(sizes, w, n - 1);
      }
    }
  }

  lemma CodeAt(count: seq<nat>, j: nat, k: nat)
    requires |count| == 16 && 1 <= j <= 16 && k < |Sizes(count)|
    requires Shorter(count, j) <= k < Shorter(count, j + 1)
    ensures Sizes(count)[k] == j
    ensures HuffCode(Sizes(count), k) == FirstCode(count, j) + k - Shorter(count, j)
  {
    var sizes, c := Sizes(count), FirstCode(count, j) + k - Shorter(count, j);
    LengthRange(count, j);
    FirstCodeStart(count, j);
    StartOfRun(sizes, Shorter(count, j), k, j, FirstCode(count, j));
    StartIsCode(sizes, k);
    ShlMonotone(HuffCode(sizes, k), c, 16 - j);
    ShlMonotone(c, HuffCode(sizes, k), 16 - j);
  }

  lemma CodeFits(sizes: seq<nat>, i: nat)
    requires Sorted(sizes) && Kraft(sizes) && i < |sizes|
    ensures Start(sizes, i + 1) <= TOP && HuffCode(sizes, i) < Pow2(sizes[i]) <= TOP
  {
    hide Start, HuffCode, Shl, Pow2;
    var s := sizes[i];
    StartIsCode(sizes, i);
    StartGrows(sizes, i + 1, |sizes|);
    Pow2Monotone(s, 16);
    Pow2Values();
    ShlOfPow2(s, 16 - s);
    ShlMonotone(Pow2(s), HuffCode(sizes, i), 16 - s);
    ShlMonotone(HuffCode(sizes, i), HuffCode(sizes, i) + 1, 16 - s);
  }

  /** The builder's test after length j: the codes so far fit exactly when the last one does. */
  lemma LengthTest(count: seq<nat>, j: nat)
    requires |count| == 16 && 1 <= j <= 16 && Shorter(count, j + 1) <= |Sizes(count)|
    ensures FirstCode(count, j) + count[j - 1] <= Pow2(j) <==> Start(Sizes(count), Shorter(count, j + 1)) <= TOP
    ensures Shl(FirstCode(count, j) + count[j - 1], 16 - j) == Start(Sizes(count), Shorter(count, j + 1))
  {
    hide Start, HuffCode, Shl, Pow2, SizeList, FirstCode;
    var c := FirstCode(count, j);
    LengthRange(count, j);
    FirstCodeStart(count, j);
    StartOfRun(Sizes(count), Shorter(count, j), Shorter(count, j + 1), j, c);
    Pow2Values();
    ShlOfPow2(j, 16 - j);
    ShlMonotone(Pow2(j), c + count[j - 1], 16 - j);
    ShlMonotone(c + count[j - 1], Pow2(j), 16 - j);
  }

  lemma LengthsExtend(count: seq<nat>, j: nat, before: (seq<int>, seq<int>), after: (seq<int>, seq<int>))
    requires |count| == 16 && 1 <= j <= 16 && |before.0| == |after.0| == 18 && |before.1| == |after.1| == 17
    requires LengthsBelow(count, j, before.0, before.1)
    requires after.0 == before.0[j := after.0[j]] && after.1 == before.1[j := after.1[j]]
    requires LengthEntry(count, j, after.0[j], after.1[j])
    ensures LengthsBelow(count, j + 1, after.0, after.1)
  {
  }

  lemma LengthsKeepSentinel(count: seq<nat>, bounds: seq<int>, offsets: seq<int>, v: int)
    requires |count| == 16 && |bounds| == 18 && |offsets| == 17 && LengthsBelow(count, 17, bounds, offsets)
    ensures LengthsBelow(count, 17, bounds[17 := v], offsets)
  {
  }

  /** A lookup entry of 255 means "not accelerated"; the 256th symbol must not need it. */
  ghost predicate FlagFree(sizes: seq<nat>) {
    |sizes| == 256 ==> sizes[255] > FAST_BITS
  }

  class JpegHuffman {
    const fast: array<byte>
    const code: array<nat>
    const values: array<byte>
    const size: array<nat>
    const maxcode: array<int>
    const delta: array<int>

    ghost function Repr(): set<object> {
      {this, fast, code, values, size, maxcode, delta}
    }

    ghost predicate Shape() {
      && fast.Length == 512 && code.Length == 256 && values.Length == 256
      && size.Length == 257 && maxcode.Length == 18 && delta.Length == 17
      && fast != values && code != size && maxcode != delta
    }

    constructor ()
      ensures Shape() && fresh(Repr())
    {
      fast := new byte[512];
      code := new nat[256];
      values := new byte[256];
      size := new nat[257];
      maxcode := new int[18];
      delta := new int[17];
    }

    /** What a successful build establishes. */
    ghost predicate Built(count: seq<nat>)
      reads fast, size, maxcode, delta
    {
      && Shape() && Histogram(count) && Kraft(Sizes(count))
      && size[..|Sizes(count)|] == Sizes(count)
      && LengthsBelow(count, 17, maxcode[..], delta[..]) && maxcode[17] == 0xffff_ffff
      && (forall x :: 0 <= x < 512 ==> fast[x] == FastEntry(Sizes(count), x, |Sizes(count)|))
    }

    /** Builds the table; succeeds exactly when the codes fit in their lengths. */
    method Build(count: seq<nat>) returns (ok: bool)
      requires Shape() && Histogram(count)
      modifies fast, code, size, maxcode, delta
      ensures ok <==> Kraft(Sizes(count))
      ensures ok ==> Built(count)
    {
      hide LengthsBelow, FastEntry, Kraft;
      var k := ListSizes(count);
      ok := AssignCodes(count);
      if !ok { return; }
      ghost var bounds := maxcode[..];
      maxcode[17] := 0xffff_ffff;
      LengthsKeepSentinel(count, bounds, delta[..], 0xffff_ffff);
      assert maxcode[..] == bounds[17 := 0xffff_ffff];
      FillFast(count, k);
    }

    /** Spells out the length of every symbol. */
    method ListSizes(count: seq<nat>) returns (k: nat)
      requires Shape() && Histogram(count)
      modifies size
      ensures k == |Sizes(count)| && size[..k] == Sizes(count) && size[k] == 0
    {
      k := 0;
      for i := 0 to 16
        invariant k == |SizeList(count, i)| <= 256 && size[..k] == SizeList(count, i)
      {
        SizeListGrows(count, i + 1, 16);
        ghost var done := SizeList(count, i);
        for j := 0 to count[i]
          invariant k == |done| + j <= 256 && size[..k] == done + Repeat(i + 1, j)
        {
          assert k < 256;
          size[k] := i + 1;
          k := k + 1;
          assert Repeat(i + 1, j + 1) == Repeat(i + 1, j) + [i + 1];
        }
      }
      size[k] := 0;
    }

    /** Numbers the codes length by length; stops at the first length whose codes do not fit. */
    method AssignCodes(count: seq<nat>) returns (ok: bool)
      requires Shape() && Histogram(count)
      requires size[..|Sizes(count)|] == Sizes(count) && size[|Sizes(count)|] == 0
      modifies code, maxcode, delta
      ensures ok <==> Kraft(Sizes(count))
      ensures ok ==> LengthsBelow(count, 17, maxcode[..], delta[..])
      ensures ok ==> forall i :: 0 <= i < |Sizes(count)| ==> code[i] == HuffCode(Sizes(count), i) % TOP
    {
      hide LengthsBelow, LengthEntry, HuffCode, Start, Shl, SizeList;
      ghost var sizes := Sizes(count);
      var c, k := 0, 0;
      FirstEntries(count, maxcode[..], delta[..]);
      for j := 1 to 17
        invariant k == Shorter(count, j) <= |sizes| && c == FirstCode(count, j)
        invariant LengthsBelow(count, j, maxcode[..], delta[..])
        invariant forall i :: 0 <= i < k ==> code[i] == HuffCode(sizes, i) % TOP
        invariant j > 1 ==> Start(sizes, k) <= TOP
      {
        LengthRange(count, j);
        LengthTest(count, j);
        ghost var before := (maxcode[..], delta[..]);
        delta[j] := k - c;
        if size[k] == j {
          while size[k] == j
            invariant Shorter(count, j) <= k <= Shorter(count, j + 1)
            invariant c == FirstCode(count, j) + k - Shorter(count, j)
            invariant forall i :: 0 <= i < k ==> code[i] == HuffCode(sizes, i) % TOP
            decreases |sizes| - k
            modifies code
          {
            assert size[k] == if k < |sizes| then sizes[k] else 0;
            CodeAt(count, j, k);
            code[k] := c % TOP;
            c := c + 1;
            k := k + 1;
          }
          assert k < |sizes| ==> size[k] == sizes[k];
          if c - 1 >= Pow2(j) {
            StartGrows(sizes, k, |sizes|);
            return false;
          }
        }
        assert k < |sizes| ==> size[k] == sizes[k];
        assert k == Shorter(count, j + 1);
        maxcode[j] := Shl(c, 16 - j);
        Entry(count, j, maxcode[j], delta[j]);
        LengthsExtend(count, j, before, (maxcode[..], delta[..]));
        c := 2 * c;
      }
      assert k == |sizes|;
      ok := true;
    }

    lemma FirstEntries(count: seq<nat>, bounds: seq<int>, offsets: seq<int>)
      requires |count| == 16 && |bounds| == 18 && |offsets| == 17
      ensures LengthsBelow(count, 1, bounds, offsets) && Shorter(count, 1) == 0
    {
    }

    lemma Entry(count: seq<nat>, j: nat, bound: int, offset: int)
      requires |count| == 16 && 1 <= j <= 16 && Shorter(count, j + 1) <= |Sizes(count)|
      requires bound == Start(Sizes(count), Shorter(count, j + 1))
      requires offset == Shorter(count, j) - FirstCode(count, j)
      ensures LengthEntry(count, j, bound, offset)
    {
    }

    /** Enters every short symbol at all the lookup indices that start with its code. */
    method FillFast(count: seq<nat>, k: nat)
      requires Shape() && Histogram(count) && Kraft(Sizes(count)) && k == |Sizes(count)|
      requires size[..k] == Sizes(count)
      requires forall i :: 0 <= i < k ==> code[i] == HuffCode(Sizes(count), i) % TOP
      modifies fast
      ensures forall x :: 0 <= x < 512 ==> fast[x] == FastEntry(Sizes(count), x, k)
    {
      hide HuffCode, Start, Kraft;
      ghost var sizes := Sizes(count);
      for x := 0 to 512
        invariant forall y :: 0 <= y < x ==> fast[y] == NOT_FAST
      {
        fast[x] := NOT_FAST;
      }
      for i := 0 to k
        invariant forall x :: 0 <= x < 512 ==> fast[x] == FastEntry(sizes, x, i)
      {
        var s := size[i];
        assert s == size[..k][i] == sizes[i];
        if s <= FAST_BITS {
          FillSymbol(sizes, i, s, code[i]);
        }
      }
    }

    method FillSymbol(ghost sizes: seq<nat>, i: nat, s: nat, symbolCode: nat)
      requires Shape() && Sorted(sizes) && Kraft(sizes) && i < |sizes| <= 256 && s == sizes[i] <= FAST_BITS
      requires symbolCode == HuffCode(sizes, i) % TOP
      requires forall x :: 0 <= x < 512 ==> fast[x] == FastEntry(sizes, x, i)
      modifies fast
      ensures forall x :: 0 <= x < 512 ==> fast[x] == FastEntry(sizes, x, i + 1)
    {
      hide HuffCode, Start, Kraft, Shl, Pow2;
      CodeFits(sizes, i);
      ShortStart(sizes, i);
      var c := Shl(symbolCode, FAST_BITS - s);
      var m := Pow2(FAST_BITS - s);
      for j := 0 to m
        invariant forall x :: 0 <= x < 512 ==> fast[x] == if c <= x < c + j then i else FastEntry(sizes, x, i)
      {
        fast[c + j] := i;
      }
    }
  }
}
