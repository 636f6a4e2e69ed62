/** The decoding table for one list of code lengths: a 9-bit direct lookup and, for longer
    codes, the first code, first symbol and pre-shifted last code of every length. */
module ZHuffman {
  import opened Bits
  import opened BitReversal
  import opened Huffman

  const FAST_BITS := 9

  /** The lookup entry for symbol i of length s. */
  function FastEntry(s: nat, i: nat): nat {
    512 * s + i
  }

  lemma FastEntryParts(s: nat, i: nat)
    requires s <= MAX_SIZE && i < 512
    ensures BitOr(i, Shl(s, FAST_BITS)) % 0x1_0000 == FastEntry(s, i)
    ensures Shr(FastEntry(s, i), FAST_BITS) == s && BitAnd(FastEntry(s, i), 511) == i
  {
    hide BitOr, BitAnd, Low, Shr, Shl;
    Pow2Values();
    OrShifted(i, s, 9);
    Shl512(s);
    AndMask(FastEntry(s, i), 9);
    LowOfShifted(i, s, 9);
  }

  lemma Shl512(s: nat)
    ensures Shl(s, 9) == 512 * s
  {
    assert Shl(s, 1) == 2 * s && Shl(s, 2) == 4 * s && Shl(s, 3) == 8 * s;
    assert Shl(s, 4) == 16 * s && Shl(s, 5) == 32 * s && Shl(s, 6) == 64 * s;
    assert Shl(s, 7) == 128 * s && Shl(s, 8) == 256 * s;
  }

  /** In terms of the lookup index: the code of i, reversed, fills the index's low bits. */
  lemma MatchesIndex(sizes: seq<nat>, j: nat, i: nat)
    requires ValidSizes(sizes) && Kraft(sizes) && i < |sizes| && 0 < sizes[i] <= FAST_BITS
    ensures Matches(sizes, Lsb(j, FAST_BITS), i) <==> Low(j, sizes[i]) == BitReverse(Code(sizes, i), sizes[i])
  {
    var s := sizes[i];
    LsbAppend(j, s, FAST_BITS - s);
    var bits := Lsb(j, FAST_BITS)[..s];
    assert bits == Lsb(j, s);
    LsbValOfLsb(j, s);
    CodeFits(sizes, i);
    ReverseSpells(bits, Code(sizes, i));
  }

  lemma {:induction false} LowPeriod(a: nat, n: nat)
    ensures Low(a + Pow2(n), n) == Low(a, n)
    decreases n
  {
    if n > 0 {
      LowPeriod(a / 2, n - 1);
      assert (a + Pow2(n)) / 2 == a / 2 + Pow2(n - 1);
    }
  }

  lemma {:induction false} LowGap(a: nat, b: nat, n: nat)
    requires a < b && Low(a, n) == Low(b, n)
    ensures a + Pow2(n) <= b
    decreases n
  {
    if n > 0 { LowGap(a / 2, b / 2, n - 1); }
  }

  /** The per-length tables for lengths below n are those of the canonical code. */
  ghost predicate LengthsBelow(sizes: seq<nat>, n: nat, firstcode: seq<nat>, firstsymbol: seq<nat>, maxcode: seq<nat>)
    requires |firstcode| == |firstsymbol| == 16 && |maxcode| == 17 && n <= 16
  {
    forall s :: 1 <= s < n ==>
      && firstcode[s] == FirstCode(sizes, s)
      && firstsymbol[s] == FirstSymbol(sizes, s)
      && maxcode[s] == Shl(End(sizes, s), 16 - s)
  }

  /** The symbol table has an entry for every used symbol below n. */
  ghost predicate SymbolsBelow(sizes: seq<nat>, n: nat, size: seq<nat>, value: seq<nat>)
    requires |size| == |value| == 288 && n <= |sizes|
  {
    forall i :: 0 <= i < n && sizes[i] > 0 ==>
      Slot(sizes, i) < 288 && size[Slot(sizes, i)] == sizes[i] && value[Slot(sizes, i)] == i
  }

  /** Where symbol i stands when symbols are listed by length, then by number. */
  ghost function Slot(sizes: seq<nat>, i: nat): nat
    requires i < |sizes|
  {
    FirstSymbol(sizes, sizes[i]) + Count(sizes[..i], sizes[i])
  }

  /** The lookup holds exactly the symbols below n whose code starts the index's bits. */
  ghost predicate FastBelow(sizes: seq<nat>, n: nat, fast: seq<nat>)
    requires |fast| == 512 && n <= |sizes|
  {
    && (forall j, i :: 0 <= j < 512 && 0 <= i < n && Matches(sizes, Lsb(j, FAST_BITS), i) ==>
          fast[j] == FastEntry(sizes[i], i))
    && (forall j :: 0 <= j < 512 && fast[j] != 0 ==>
          exists i :: 0 <= i < n && Matches(sizes, Lsb(j, FAST_BITS), i))
  }

  lemma FastSkip(sizes: seq<nat>, n: nat, fast: seq<nat>)
    requires |fast| == 512 && n < |sizes| && FastBelow(sizes, n, fast)
    requires sizes[n] == 0 || sizes[n] > FAST_BITS
    ensures FastBelow(sizes, n + 1, fast)
  {
    forall j | 0 <= j < 512 && fast[j] != 0
      ensures exists i :: 0 <= i < n + 1 && Matches(sizes, Lsb(j, FAST_BITS), i)
    {
      var i :| 0 <= i < n && Matches(sizes, Lsb(j, FAST_BITS), i);
    }
  }

  lemma SlotsDiffer(sizes: seq<nat>, i: nat, j: nat)
    requires i < j < |sizes| && sizes[i] > 0 && sizes[j] > 0
    ensures Slot(sizes, i) != Slot(sizes, j)
  {
    RankBelowCount(sizes, i);
    RankBelowCount(sizes, j);
    if sizes[i] < sizes[j] {
      FirstSymbolMonotone(sizes, sizes[i], sizes[j]);
    } else if sizes[j] < sizes[i] {
      FirstSymbolMonotone(sizes, sizes[j], sizes[i]);
    } else {
      CountPrefix(sizes, i, j, sizes[i]);
    }
  }

  /** Overwriting the indices whose low bits are the reversed code of n keeps the earlier entries. */
  lemma FastFilled(sizes: seq<nat>, n: nat, before: seq<nat>, after: seq<nat>)
    requires ValidSizes(sizes) && Kraft(sizes) && n < |sizes| && 0 < sizes[n] <= FAST_BITS
    requires |before| == |after| == 512 && FastBelow(sizes, n, before)
    requires forall k :: 0 <= k < 512 ==>
      after[k] == if Low(k, sizes[n]) == BitReverse(Code(sizes, n), sizes[n]) then FastEntry(sizes[n], n) else before[k]
    ensures FastBelow(sizes, n + 1, after)
  {
    forall j, i | 0 <= j < 512 && 0 <= i < n + 1 && Matches(sizes, Lsb(j, FAST_BITS), i)
      ensures after[j] == FastEntry(sizes[i], i)
    {
      MatchesIndex(sizes, j, n);
      if Matches(sizes, Lsb(j, FAST_BITS), n) {
        MatchUnique(sizes, Lsb(j, FAST_BITS), i, n);
      }
    }
    forall j | 0 <= j < 512 && after[j] != 0
      ensures exists i :: 0 <= i < n + 1 && Matches(sizes, Lsb(j, FAST_BITS), i)
    {
      MatchesIndex(sizes, j, n);
      if !Matches(sizes, Lsb(j, FAST_BITS), n) {
        var i :| 0 <= i < n && Matches(sizes, Lsb(j, FAST_BITS), i);
      }
    }
  }

  lemma EmptyTables(sizes: seq<nat>, fast: seq<nat>)
    requires |fast| == 512 && forall j :: 0 <= j < 512 ==> fast[j] == 0
    ensures FastBelow(sizes, 0, fast)
  {
  }

  lemma LowFirst(r: nat, n: nat)
    requires r < Pow2(n)
    ensures Low(r, n) == r && forall k :: 0 <= k < r ==> Low(k, n) != r
  {
    LowBound(r, n);
    forall k | 0 <= k < r ensures Low(k, n) != r { LowBound(k, n); }
  }

  lemma NoLengths(sizes: seq<nat>, firstcode: seq<nat>, firstsymbol: seq<nat>, maxcode: seq<nat>)
    requires |firstcode| == |firstsymbol| == 16 && |maxcode| == 17
    ensures LengthsBelow(sizes, 1, firstcode, firstsymbol, maxcode)
  {
  }

  lemma LengthsKeepSentinel(sizes: seq<nat>, firstcode: seq<nat>, firstsymbol: seq<nat>, maxcode: seq<nat>, v: nat)
    requires |firstcode| == |firstsymbol| == 16 && |maxcode| == 17
    requires LengthsBelow(sizes, 16, firstcode, firstsymbol, maxcode)
    ensures LengthsBelow(sizes, 16, firstcode, firstsymbol, maxcode[16 := v])
  {
  }

  lemma LengthsExtend(sizes: seq<nat>, i: nat, firstcode: seq<nat>, firstsymbol: seq<nat>, maxcode: seq<nat>,
                      firstcode': seq<nat>, firstsymbol': seq<nat>, maxcode': seq<nat>)
    requires |firstcode| == |firstsymbol| == |firstcode'| == |firstsymbol'| == 16 && 1 <= i < 16
    requires |maxcode| == |maxcode'| == 17
    requires LengthsBelow(sizes, i, firstcode, firstsymbol, maxcode)
    requires forall s :: 1 <= s < i ==>
      firstcode'[s] == firstcode[s] && firstsymbol'[s] == firstsymbol[s] && maxcode'[s] == maxcode[s]
    requires firstcode'[i] == FirstCode(sizes, i) && firstsymbol'[i] == FirstSymbol(sizes, i)
    requires maxcode'[i] == Shl(End(sizes, i), 16 - i)
    ensures LengthsBelow(sizes, i + 1, firstcode', firstsymbol', maxcode')
  {
  }

  class ZHuffman {
    const fast: array<nat>
    const firstcode: array<nat>
    const maxcode: array<nat>
    const firstsymbol: array<nat>
    const size: array<nat>
    const value: array<nat>

    ghost function Repr(): set<object> {
      {this, fast, firstcode, maxcode, firstsymbol, size, value}
    }

    /** The six arrays have the sizes of the declaration and do not overlap. */
    ghost predicate Shape() {
      && fast.Length == 512 && firstcode.Length == 16 && maxcode.Length == 17
      && firstsymbol.Length == 16 && size.Length == 288 && value.Length == 288
      && fast != firstcode && fast != maxcode && fast != firstsymbol && fast != size && fast != value
      && firstcode != maxcode && firstcode != firstsymbol && firstcode != size && firstcode != value
      && maxcode != firstsymbol && maxcode != size && maxcode != value
      && firstsymbol != size && firstsymbol != value && size != value
    }

    constructor ()
      ensures Shape() && fresh(Repr())
    {
      fast := new nat[512];
      firstcode := new nat[16];
      maxcode := new nat[17];
      firstsymbol := new nat[16];
      size := new nat[288];
      value := new nat[288];
    }

    /** What a successful build establishes. */
    ghost predicate Built(sizes: seq<nat>)
      reads Repr()
    {
      && Shape()
      && ValidSizes(sizes) && |sizes| <= 288 && Kraft(sizes)
      && LengthsBelow(sizes, 16, firstcode[..], firstsymbol[..], maxcode[..]) && maxcode[16] == 0x1_0000
      && SymbolsBelow(sizes, |sizes|, size[..], value[..])
      && FastBelow(sizes, |sizes|, fast[..])
    }

    /** Builds the table; succeeds exactly when the lengths satisfy Kraft's inequality. */
    method Build(sizelist: seq<nat>) returns (ok: bool)
      requires Shape() && ValidSizes(sizelist) && |sizelist| <= 288
      modifies fast, firstcode, maxcode, firstsymbol, size, value
      ensures ok <==> Kraft(sizelist)
      ensures ok ==> Built(sizelist)
    {
      hide LengthsBelow, FastBelow, SymbolsBelow, FirstCode, Count, Kraft, LengthAccepted, Pow2;
      ClearFast();
      var sizes := CountLengths(sizelist);
      for i := 1 to 16
        invariant forall s :: 1 <= s <= MAX_SIZE ==> sizes[s] == Count(sizelist, s)
        invariant forall s :: 1 <= s < i ==> Count(sizelist, s) <= Pow2(s)
      {
        if sizes[i] > Pow2(i) {
          TooMany(sizelist, i);
          return false;
        }
      }
      var nextCode;
      ok, nextCode := AssignLengths(sizelist, sizes);
      AcceptanceIsKraft(sizelist);
      if !ok { return; }
      EmptyTables(sizelist, fast[..]);
      SetSentinel(sizelist);
      EnterSymbols(sizelist, nextCode);
    }

    lemma TooMany(sizes: seq<nat>, s: nat)
      requires ValidSizes(sizes) && 1 <= s <= MAX_SIZE && Count(sizes, s) > Pow2(s)
      ensures !Kraft(sizes)
    {
      AcceptanceIsKraft(sizes);
      assert !LengthAccepted(sizes, s);
    }

    method ClearFast()
      requires Shape()
      modifies fast
      ensures forall k :: 0 <= k < 512 ==> fast[k] == 0
    {
      for j := 0 to 512
        invariant forall k :: 0 <= k < j ==> fast[k] == 0
      {
        fast[j] := 0;
      }
    }

    /** No 16 bits reach the last bound. */
    method SetSentinel(ghost sizelist: seq<nat>)
      requires Shape() && LengthsBelow(sizelist, 16, firstcode[..], firstsymbol[..], maxcode[..])
      modifies maxcode
      ensures LengthsBelow(sizelist, 16, firstcode[..], firstsymbol[..], maxcode[..]) && maxcode[16] == 0x1_0000
    {
      hide LengthsBelow;
      LengthsKeepSentinel(sizelist, firstcode[..], firstsymbol[..], maxcode[..], 0x1_0000);
      ghost var shifted := maxcode[..];
      maxcode[16] := 0x1_0000;
      assert maxcode[..] == shifted[16 := 0x1_0000];
    }

    /** Enters the symbols in order, each under the next code of its length. */
    method EnterSymbols(sizelist: seq<nat>, nextCode: array<nat>)
      requires Shape() && ValidSizes(sizelist) && |sizelist| <= 288 && Kraft(sizelist)
      requires nextCode.Length == 16 && nextCode != fast && nextCode != size && nextCode != value
      requires nextCode != firstcode && nextCode != maxcode && nextCode != firstsymbol
      requires forall s :: 1 <= s <= MAX_SIZE ==> nextCode[s] == FirstCode(sizelist, s)
      requires LengthsBelow(sizelist, 16, firstcode[..], firstsymbol[..], maxcode[..])
      requires FastBelow(sizelist, 0, fast[..])
      modifies fast, size, value, nextCode
      ensures SymbolsBelow(sizelist, |sizelist|, size[..], value[..])
      ensures FastBelow(sizelist, |sizelist|, fast[..])
    {
      for i := 0 to |sizelist|
        invariant forall s :: 1 <= s <= MAX_SIZE ==> nextCode[s] == FirstCode(sizelist, s) + Count(sizelist[..i], s)
        invariant SymbolsBelow(sizelist, i, size[..], value[..])
        invariant FastBelow(sizelist, i, fast[..])
      {
        var s := sizelist[i];
        if s > 0 {
          EnterSymbol(sizelist, i, nextCode[s]);
          nextCode[s] := nextCode[s] + 1;
        } else {
          FastSkip(sizelist, i, fast[..]);
        }
        assert sizelist[..i + 1][..i] == sizelist[..i];
      }
    }

    /** The length histogram, with the unused symbols dropped. */
    method CountLengths(sizelist: seq<nat>) returns (sizes: array<nat>)
      requires ValidSizes(sizelist)
      ensures fresh(sizes) && sizes.Length == 17
      ensures sizes[0] == 0 && forall s :: 1 <= s <= MAX_SIZE ==> sizes[s] == Count(sizelist, s)
    {
      sizes := new nat[17](_ => 0);
      for i := 0 to |sizelist|
        invariant forall s :: 0 <= s <= MAX_SIZE ==> sizes[s] == Count(sizelist[..i], s)
      {
        sizes[sizelist[i]] := sizes[sizelist[i]] + 1;
        assert sizelist[..i + 1][..i] == sizelist[..i];
      }
      assert sizelist[..|sizelist|] == sizelist;
      sizes[0] := 0;
    }

    static lemma FirstLength(sizelist: seq<nat>)
      ensures FirstCode(sizelist, 1) == 0 && FirstSymbol(sizelist, 1) == 0
    {
    }

    static lemma NextLength(sizelist: seq<nat>, i: nat)
      requires i >= 1
      ensures End(sizelist, i) == FirstCode(sizelist, i) + Count(sizelist, i)
      ensures FirstCode(sizelist, i + 1) == 2 * End(sizelist, i)
      ensures FirstSymbol(sizelist, i + 1) == FirstSymbol(sizelist, i) + Count(sizelist, i)
      ensures Count(sizelist, i) <= Pow2(i) ==>
        (LengthAccepted(sizelist, i) <==> (Count(sizelist, i) > 0 ==> End(sizelist, i) <= Pow2(i)))
    {
      hide Count;
    }

    /** Numbers the codes length by length; stops at the first length whose codes do not fit. */
    method AssignLengths(sizelist: seq<nat>, sizes: array<nat>) returns (ok: bool, nextCode: array<nat>)
      requires Shape() && ValidSizes(sizelist) && |sizelist| <= 288
      requires sizes.Length == 17 && sizes !in Repr()
      requires forall s :: 1 <= s <= MAX_SIZE ==> sizes[s] == Count(sizelist, s) <= Pow2(s)
      modifies firstcode, maxcode, firstsymbol
      ensures ok <==> forall s :: 1 <= s <= MAX_SIZE ==> LengthAccepted(sizelist, s)
      ensures fresh(nextCode) && nextCode.Length == 16
      ensures ok ==> LengthsBelow(sizelist, 16, firstcode[..], firstsymbol[..], maxcode[..])
      ensures ok ==> forall s :: 1 <= s <= MAX_SIZE ==> nextCode[s] == FirstCode(sizelist, s)
    {
      hide LengthsBelow, Shl, Count, LengthAccepted, FirstCode, End, FirstSymbol;
      FirstLength(sizelist);
      NoLengths(sizelist, firstcode[..], firstsymbol[..], maxcode[..]);
      nextCode := new nat[16];
      var code, k := 0, 0;
      for i := 1 to 16
        invariant forall s :: 1 <= s < i ==> LengthAccepted(sizelist, s)
        invariant code == FirstCode(sizelist, i) && k == FirstSymbol(sizelist, i)
        invariant forall s :: 1 <= s < i ==> nextCode[s] == FirstCode(sizelist, s)
        invariant LengthsBelow(sizelist, i, firstcode[..], firstsymbol[..], maxcode[..])
        modifies firstcode, maxcode, firstsymbol, nextCode
      {
        nextCode[i] := code;
        NextLength(sizelist, i);
        StoreLength(sizelist, i, code, k, code + sizes[i]);
        code := code + sizes[i];
        if sizes[i] > 0 {
          if code - 1 >= Pow2(i) {
            return false, nextCode;
          }
        }
        code := 2 * code;
        k := k + sizes[i];
      }
      ok := true;
    }

    /** Stores the first code, the first symbol and the pre-shifted end of length i. */
    method StoreLength(ghost sizelist: seq<nat>, i: nat, code: nat, k: nat, end: nat)
      requires Shape() && ValidSizes(sizelist) && |sizelist| <= 288 && 1 <= i <= MAX_SIZE
      requires forall s :: 1 <= s < i ==> LengthAccepted(sizelist, s)
      requires code == FirstCode(sizelist, i) && k == FirstSymbol(sizelist, i) && end == End(sizelist, i)
      requires LengthsBelow(sizelist, i, firstcode[..], firstsymbol[..], maxcode[..])
      modifies firstcode, maxcode, firstsymbol
      ensures LengthsBelow(sizelist, i + 1, firstcode[..], firstsymbol[..], maxcode[..])
    {
      hide LengthsBelow, Shl, Count, LengthAccepted, FirstCode, FirstSymbol, End;
      StartsFit(sizelist, i);
      ghost var was := (firstcode[..], firstsymbol[..], maxcode[..]);
      firstcode[i] := code % 0x1_0000;
      firstsymbol[i] := k % 0x1_0000;
      maxcode[i] := Shl(end, 16 - i);
      LengthsExtend(sizelist, i, was.0, was.1, was.2, firstcode[..], firstsymbol[..], maxcode[..]);
    }

    /** The 16-bit fields hold the first code and first symbol untruncated. */
    lemma StartsFit(sizes: seq<nat>, i: nat)
      requires ValidSizes(sizes) && |sizes| <= 288 && 1 <= i <= MAX_SIZE
      requires forall s :: 1 <= s < i ==> LengthAccepted(sizes, s)
      ensures FirstCode(sizes, i) < 0x1_0000 && FirstSymbol(sizes, i) < 0x1_0000
    {
      FirstSymbolBound(sizes, i);
      AcceptedEndFits(sizes, i - 1);
      Pow2Monotone(i, 15);
      Pow2Values();
    }

    /** Enters symbol i under its code c into the symbol table and, if short, the lookup. */
    method EnterSymbol(sizelist: seq<nat>, i: nat, c: nat)
      requires Shape() && ValidSizes(sizelist) && |sizelist| <= 288 && Kraft(sizelist)
      requires i < |sizelist| && sizelist[i] > 0 && c == Code(sizelist, i)
      requires LengthsBelow(sizelist, 16, firstcode[..], firstsymbol[..], maxcode[..])
      requires SymbolsBelow(sizelist, i, size[..], value[..]) && FastBelow(sizelist, i, fast[..])
      modifies fast, size, value
      ensures SymbolsBelow(sizelist, i + 1, size[..], value[..]) && FastBelow(sizelist, i + 1, fast[..])
    {
      var s := sizelist[i];
      var slot := c - firstcode[s] + firstsymbol[s];
      FirstSymbolBound(sizelist, s);
      RankBelowCount(sizelist, i);
      forall i' | 0 <= i' < i && sizelist[i'] > 0
        ensures Slot(sizelist, i') != slot
      {
        SlotsDiffer(sizelist, i', i);
      }
      size[slot] := s;
      value[slot] := i;
      if s <= FAST_BITS {
        FillFast(sizelist, i, c);
      } else {
        FastSkip(sizelist, i, fast[..]);
      }
    }

    /** Stores symbol i at every lookup index whose low bits are its reversed code. */
    method FillFast(sizelist: seq<nat>, i: nat, c: nat)
      requires Shape() && ValidSizes(sizelist) && |sizelist| <= 288 && Kraft(sizelist)
      requires i < |sizelist| && 0 < sizelist[i] <= FAST_BITS && c == Code(sizelist, i)
      requires FastBelow(sizelist, i, fast[..])
      modifies fast
      ensures FastBelow(sizelist, i + 1, fast[..])
    {
      hide FastBelow, Matches, Code, Low, BitReverse, BitReverse16, BitOr, Shl, FastEntry, Pow2, Kraft, KraftSum;
      var s := sizelist[i];
      FastEntryParts(s, i);
      var fastv := BitOr(i, Shl(s, FAST_BITS)) % 0x1_0000;
      assert fastv == FastEntry(s, i);
      CodeFits(sizelist, i);
      BitReverseByShift(c, s);
      var j := ReversedLow(c, s);
      ReversedCode(c, s);
      LowFirst(j, s);
      while j < 512
        invariant Low(j, s) == BitReverse(c, s)
        invariant forall k :: 0 <= k < 512 ==>
          fast[k] == if k < j && Low(k, s) == BitReverse(c, s) then fastv else old(fast[k])
        decreases 512 - j
      {
        fast[j] := fastv;
        LowPeriod(j, s);
        forall k | j < k < j + Pow2(s) && Low(k, s) == BitReverse(c, s)
          ensures false
        {
          LowGap(j, k, s);
        }
        j := j + Pow2(s);
      }
      ghost var before, after := old(fast[..]), fast[..];
      assert forall k :: 0 <= k < 512 ==>
        after[k] == if Low(k, s) == BitReverse(c, s) then fastv else before[k];
      FastFilled(sizelist, i, before, after);
    }
  }
}
