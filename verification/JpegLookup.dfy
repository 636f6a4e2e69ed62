/** What the accelerated tables give for the next bits, compared with plain canonical decoding. */
module JpegLookup {
  import opened Bits
  import opened JpegHuffman

  /** A symbol number and how many bits its code takes. */
  datatype Decoded = Decoded(index: int, length: nat) | Bad

  /** Canonical decoding of 16 bits. */
  function Plain(count: seq<nat>, w: nat): Decoded
    requires |count| == 16
  {
    match SymbolAt(Sizes(count), w, |Sizes(count)|)
    case NoSymbol => Bad
    case Symbol(i) => DecodeFinds(Sizes(count), w, |Sizes(count)|, i); Decoded(i, Sizes(count)[i])
  }

  lemma PlainIsSymbol(count: seq<nat>, w: nat)
    requires |count| == 16
    ensures Plain(count, w).Decoded? ==>
      && 0 <= Plain(count, w).index < |Sizes(count)|
      && Within(Sizes(count), w, Plain(count, w).index)
      && Plain(count, w).length == Sizes(count)[Plain(count, w).index]
  {
    var d := SymbolAt(Sizes(count), w, |Sizes(count)|);
    if d.Symbol? { DecodeFinds(Sizes(count), w, |Sizes(count)|, d.index); }
  }

  /** The search over pre-shifted bounds, from length k on. */
  function Search(count: seq<nat>, w: nat, k: nat): Decoded
    requires |count| == 16 && 1 <= k <= 17
    decreases 17 - k
  {
    if k == 17 then Bad
    else
      LengthRange(count, k);
      if w < Start(Sizes(count), Shorter(count, k + 1)) then
        Decoded(Shr(w, 16 - k) + Shorter(count, k) - FirstCode(count, k), k)
      else Search(count, w, k + 1)
  }

  /** The lookup first, then the search among longer codes. */
  function Lookup(count: seq<nat>, w: nat): Decoded
    requires |count| == 16
  {
    var sizes := Sizes(count);
    var e := FastEntry(sizes, w / 128, |sizes|);
    FastEntryFinds(sizes, w, |sizes|);
    if e < NOT_FAST then Decoded(e, sizes[e]) else Search(count, w, FAST_BITS + 1)
  }

  /** Past every code shorter than k, the search finds the code that starts the bits. */
  lemma {:induction false} SearchIsPlain(count: seq<nat>, w: nat, k: nat)
    requires |count| == 16 && 1 <= k <= 17
    requires Shorter(count, k) <= |Sizes(count)| && Start(Sizes(count), Shorter(count, k)) <= w
    ensures Search(count, w, k) == Plain(count, w)
    decreases 17 - k
  {
    hide Start, FirstCode, SizeList;
    var sizes := Sizes(count);
    if k == 17 {
      assert Shorter(count, 17) == |sizes|;
      DecodeCovers(sizes, w, |sizes|);
    } else {
      LengthRange(count, k);
      if w < Start(sizes, Shorter(count, k + 1)) {
        var i := OffsetFinds(count, w, k);
        DecodeFinds(sizes, w, |sizes|, i);
      } else {
        SearchIsPlain(count, w, k + 1);
      }
    }
  }

  /** If no short code starts the bits they lie past all short codes. */
  lemma PastShort(count: seq<nat>, w: nat)
    requires |count| == 16
    requires forall i :: 0 <= i < |Sizes(count)| && Sizes(count)[i] <= FAST_BITS ==> !Within(Sizes(count), w, i)
    ensures Shorter(count, FAST_BITS + 1) <= |Sizes(count)|
    ensures Start(Sizes(count), Shorter(count, FAST_BITS + 1)) <= w
  {
    var sizes, n := Sizes(count), Shorter(count, FAST_BITS + 1);
    LengthRange(count, FAST_BITS);
    if w < Start(sizes, n) {
      DecodeCovers(sizes, w, n);
      DecodeFinds(sizes, w, n, SymbolAt(sizes, w, n).index);
    }
  }

  /** With the 255 flag out of the way the tables decode canonically. */
  lemma LookupIsPlainAt(count: seq<nat>, w: nat)
    requires Histogram(count) && FlagFree(Sizes(count))
    ensures Lookup(count, w) == Plain(count, w)
  {
    hide Start, SizeList, FastEntry, Search;
    var sizes := Sizes(count);
    var e := FastEntry(sizes, w / 128, |sizes|);
    FastEntryFinds(sizes, w, |sizes|);
    if e < NOT_FAST {
      DecodeFinds(sizes, w, |sizes|, e);
    } else {
      PastShort(count, w);
      SearchIsPlain(count, w, FAST_BITS + 1);
    }
  }

  lemma {:induction false} SearchIsLong(count: seq<nat>, w: nat, k: nat)
    requires |count| == 16 && 1 <= k <= 17
    ensures Search(count, w, k).Decoded? ==> Search(count, w, k).length >= k
    decreases 17 - k
  {
    if k < 17 { SearchIsLong(count, w, k + 1); }
  }

  /** A 256th symbol with a short code is mistaken for "not accelerated": too many bits are consumed. */
  lemma FlagMistaken(count: seq<nat>)
    requires Histogram(count) && Kraft(Sizes(count)) && !FlagFree(Sizes(count))
    ensures var w := Start(Sizes(count), 255);
      w < TOP && Plain(count, w) == Decoded(255, Sizes(count)[255]) && Lookup(count, w) != Plain(count, w)
  {
    hide SizeList, FastEntry, Search;
    var sizes := Sizes(count);
    var w := Start(sizes, 255);
    StartGrows(sizes, 255, 256);
    DecodeFinds(sizes, w, 256, 255);
    var e := FastEntry(sizes, w / 128, 256);
    FastEntryFinds(sizes, w, 256);
    if e < NOT_FAST {
      IntervalUnique(sizes, w, e, 255);
    } else {
      SearchIsLong(count, w, FAST_BITS + 1);
    }
  }

  /** The accelerated tables agree with canonical decoding on all inputs exactly when symbol number 255
      is absent or has a code of more than nine bits. */
  lemma LookupIsPlain(count: seq<nat>)
    requires Histogram(count) && Kraft(Sizes(count))
    ensures (forall w :: 0 <= w < TOP ==> Lookup(count, w) == Plain(count, w)) <==> FlagFree(Sizes(count))
  {
    if FlagFree(Sizes(count)) {
      forall w | 0 <= w < TOP
        ensures Lookup(count, w) == Plain(count, w)
      {
        LookupIsPlainAt(count, w);
      }
    } else {
      FlagMistaken(count);
    }
  }

  /** 255 codes of eight bits and one of nine: the decoder takes ten bits for the last one's nine. */
  lemma MistakenTable()
    ensures var count := [0, 0, 0, 0, 0, 0, 0, 255, 1, 0, 0, 0, 0, 0, 0, 0];
      && Histogram(count) && Kraft(Sizes(count)) && !FlagFree(Sizes(count))
      && Plain(count, 0xff00) == Decoded(255, 9) && Lookup(count, 0xff00) != Plain(count, 0xff00)
  {
    hide Start, Lookup, Plain;
    var count := [0, 0, 0, 0, 0, 0, 0, 255, 1, 0, 0, 0, 0, 0, 0, 0];
    NoSizes(count, 7);
    SameSizes(count, 9, 16);
    var sizes := Sizes(count);
    assert sizes == Repeat(8, 255) + Repeat(9, 1);
    EqualStarts(sizes, 255);
    StartStep(sizes, 255);
    Pow2Values();
    FlagMistaken(count);
  }

  lemma {:induction false} NoSizes(count: seq<nat>, j: nat)
    requires j <= |count| && forall i :: 0 <= i < j ==> count[i] == 0
    ensures SizeList(count, j) == []
  {
    if j > 0 { NoSizes(count, j - 1); }
  }

  lemma {:induction false} SameSizes(count: seq<nat>, i: nat, j: nat)
    requires i <= j <= |count| && forall k :: i <= k < j ==> count[k] == 0
    ensures SizeList(count, j) == SizeList(count, i)
    decreases j
  {
    if i < j { SameSizes(count, i, j - 1); }
  }

  lemma {:induction false} EqualStarts(sizes: seq<nat>, n: nat)
    requires Sorted(sizes) && n <= |sizes| && forall i :: 0 <= i < n ==> sizes[i] == 8
    ensures Start(sizes, n) == 256 * n
  {
    Pow2Values();
    if n > 0 { EqualStarts(sizes, n - 1); }
  }

  /** Even then the symbol number read is one of the table's 256. */
  lemma LookupInRange(count: seq<nat>, w: nat)
    requires Histogram(count) && Kraft(Sizes(count)) && w < TOP
    ensures Lookup(count, w).Decoded? ==> 0 <= Lookup(count, w).index < 256 && Lookup(count, w).length <= 16
  {
    hide SizeList, FastEntry, Search, Start, Lookup, Plain;
    var sizes := Sizes(count);
    if FlagFree(sizes) {
      LookupIsPlainAt(count, w);
      PlainIsSymbol(count, w);
    } else {
      MistakenInRange(count, w);
    }
  }

  lemma {:induction false} ShortCodesFill(sizes: seq<nat>, n: nat)
    requires Sorted(sizes) && n <= |sizes| && forall i :: 0 <= i < n ==> sizes[i] <= 7
    ensures 512 * n <= Start(sizes, n)
  {
    if n > 0 {
      ShortCodesFill(sizes, n - 1);
      Pow2Values();
      Pow2Monotone(9, 16 - sizes[n - 1]);
    }
  }

  lemma LastIsLong(sizes: seq<nat>)
    requires Sorted(sizes) && |sizes| == 256 && Kraft(sizes)
    ensures sizes[255] >= 8 && Span(sizes[255]) <= 256
  {
    if sizes[255] <= 7 {
      ShortCodesFill(sizes, 256);
    } else {
      Pow2Values();
      Pow2Monotone(16 - sizes[255], 8);
    }
  }

  lemma MistakenInRange(count: seq<nat>, w: nat)
    requires Histogram(count) && Kraft(Sizes(count)) && !FlagFree(Sizes(count)) && w < TOP
    ensures Lookup(count, w).Decoded? ==> 0 <= Lookup(count, w).index < 256 && Lookup(count, w).length <= 16
  {
    hide SizeList, FastEntry, Start, FirstCode, Shl, Shr;
    var sizes := Sizes(count);
    FastEntryFinds(sizes, w, 256);
    if FastEntry(sizes, w / 128, 256) == NOT_FAST {
      LengthRange(count, 9);
      LengthRange(count, 10);
      assert Shorter(count, 10) == 256;
      assert Shorter(count, 11) == 256;
      FirstCodeStart(count, 10);
      var c: int, v: int := FirstCode(count, 10), Shr(w, 6);
      ShrBelow(w, 6, c);
      ShrBelow(w, 6, v);
      if w < Start(sizes, 256) {
        assert Search(count, w, 10) == Decoded(v + 256 - c, 10);
        LastInterval(count, w);
      } else {
        PastAll(count, w, 10);
      }
    }
  }

  lemma {:induction false} PastAll(count: seq<nat>, w: nat, k: nat)
    requires |count| == 16 && 1 <= k <= 17 && Start(Sizes(count), |Sizes(count)|) <= w
    ensures Search(count, w, k) == Bad
    decreases 17 - k
  {
    hide Start, SizeList, FirstCode;
    if k < 17 {
      LengthRange(count, k);
      StartGrows(Sizes(count), Shorter(count, k + 1), |Sizes(count)|);
      PastAll(count, w, k + 1);
    }
  }

  /** The mistaken bits lie within 256 of the end, four or fewer ten-bit codes before it. */
  lemma LastInterval(count: seq<nat>, w: nat)
    requires Histogram(count) && Kraft(Sizes(count)) && !FlagFree(Sizes(count))
    requires FastEntry(Sizes(count), w / 128, 256) == NOT_FAST && w < Start(Sizes(count), 256)
    ensures FirstCode(count, 10) - 4 <= Shr(w, 6)
  {
    hide SizeList, FastEntry, Start, FirstCode, Shl, Shr;
    var sizes := Sizes(count);
    DecodeCovers(sizes, w, 256);
    var i := SymbolAt(sizes, w, 256).index;
    DecodeFinds(sizes, w, 256, i);
    FastEntryFinds(sizes, w, 256);
    assert i == 255;
    LastIsLong(sizes);
    StartStep(sizes, 255);
    LengthRange(count, 9);
    assert Shorter(count, 10) == 256;
    FirstCodeStart(count, 10);
    var c, v := FirstCode(count, 10), Shr(w, 6);
    ShlValues(c);
    ShlValues(v + 1);
    ShrBelow(w, 6, v + 1);
  }

  lemma StartStep(sizes: seq<nat>, i: nat)
    requires Sorted(sizes) && i < |sizes|
    ensures Start(sizes, i + 1) == Start(sizes, i) + Span(sizes[i])
  {
  }
}
