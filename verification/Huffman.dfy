/** Canonical prefix codes as section 3.2.2 of RFC 1951 assigns them: a list of code lengths
    (0 for an unused symbol, at most 15) determines every code. */
module Huffman {
  import opened Bits

  const MAX_SIZE := 15

  ghost predicate ValidSizes(sizes: seq<nat>) {
    forall i :: 0 <= i < |sizes| ==> sizes[i] <= MAX_SIZE
  }

  /** How many symbols have length s. */
  function Count(sizes: seq<nat>, s: nat): nat {
    if |sizes| == 0 then 0
    else Count(sizes[..|sizes| - 1], s) + (if sizes[|sizes| - 1] == s then 1 else 0)
  }

  /** The first code of length s (step 2 of the RFC's algorithm). */
  function FirstCode(sizes: seq<nat>, s: nat): nat
    decreases s, 0
  {
    if s <= 1 then 0 else 2 * End(sizes, s - 1)
  }

  /** One past the last code of length s. */
  function End(sizes: seq<nat>, s: nat): nat
    decreases s, 1
  {
    if s == 0 then 0 else FirstCode(sizes, s) + Count(sizes, s)
  }

  /** How many used symbols are shorter than s. */
  function FirstSymbol(sizes: seq<nat>, s: nat): nat {
    if s <= 1 then 0 else FirstSymbol(sizes, s - 1) + Count(sizes, s - 1)
  }

  /** The code of symbol i (step 3: numbered consecutively among symbols of its length). */
  function Code(sizes: seq<nat>, i: nat): nat
    requires i < |sizes|
  {
    FirstCode(sizes, sizes[i]) + Count(sizes[..i], sizes[i])
  }

  /** The Kraft sum, in units of 2^-15. */
  function KraftSum(sizes: seq<nat>): nat
    requires ValidSizes(sizes)
  {
    if |sizes| == 0 then 0
    else
      var s := sizes[|sizes| - 1];
      KraftSum(sizes[..|sizes| - 1]) + (if s == 0 then 0 else Pow2(MAX_SIZE - s))
  }

  /** The codes fit in their lengths: an assignment of distinct prefix-free codes exists. */
  ghost predicate Kraft(sizes: seq<nat>)
    requires ValidSizes(sizes)
  {
    KraftSum(sizes) <= Pow2(MAX_SIZE)
  }

  /** The next bits, most significant code bit first, are the code of symbol i. */
  ghost predicate Matches(sizes: seq<nat>, bits: seq<bit>, i: nat) {
    i < |sizes| && 0 < sizes[i] <= |bits| && MsbVal(bits[..sizes[i]]) == Code(sizes, i)
  }

  // ---- Kraft's inequality is what the table builder's tests check ----

  lemma {:induction false} AppendFirstCode(sizes: seq<nat>, s: nat, t: nat)
    requires 0 < s <= MAX_SIZE && t <= MAX_SIZE
    ensures FirstCode(sizes + [s], t) == FirstCode(sizes, t) + (if s < t then Pow2(t - s) else 0)
    ensures End(sizes + [s], t) == End(sizes, t) + (if s <= t then Pow2(t - s) else 0)
    decreases t
  {
    assert (sizes + [s])[..|sizes|] == sizes;
    if t > 0 {
      AppendFirstCode(sizes, s, t - 1);
    }
  }

  lemma {:induction false} AppendUnused(sizes: seq<nat>, t: nat)
    ensures FirstCode(sizes + [0], t) == FirstCode(sizes, t) && End(sizes + [0], t) == End(sizes, t)
    decreases t
  {
    assert (sizes + [0])[..|sizes|] == sizes;
    if t > 0 {
      AppendUnused(sizes, t - 1);
    }
  }

  lemma {:induction false} EmptyEnd(t: nat)
    ensures FirstCode([], t) == 0 && End([], t) == 0
  {
    if t > 0 { EmptyEnd(t - 1); }
  }

  /** The end of the longest codes measures the whole Kraft sum. */
  lemma {:induction false} KraftSumIsEnd(sizes: seq<nat>)
    requires ValidSizes(sizes)
    ensures KraftSum(sizes) == End(sizes, MAX_SIZE)
  {
    if |sizes| == 0 {
      EmptyEnd(MAX_SIZE);
    } else {
      var rest, s := sizes[..|sizes| - 1], sizes[|sizes| - 1];
      assert sizes == rest + [s];
      KraftSumIsEnd(rest);
      if s == 0 {
        AppendUnused(rest, MAX_SIZE);
      } else {
        AppendFirstCode(rest, s, MAX_SIZE);
      }
    }
  }

  /** Codes of length t start no earlier than the shorter ones, extended, end. */
  lemma {:induction false} EndGrows(sizes: seq<nat>, s: nat, t: nat)
    requires s < t
    ensures Shl(End(sizes, s), t - s) <= FirstCode(sizes, t) <= End(sizes, t)
    decreases t
  {
    if s + 1 < t {
      EndGrows(sizes, s, t - 1);
    } else if s > 0 {
      assert FirstCode(sizes, t) == 2 * End(sizes, s);
      assert Shl(End(sizes, s), 1) == 2 * Shl(End(sizes, s), 0);
    } else {
      assert Shl(0, 1) == 2 * Shl(0, 0);
    }
  }

  /** What the table builder tests, length by length. */
  ghost predicate LengthAccepted(sizes: seq<nat>, s: nat) {
    Count(sizes, s) <= Pow2(s) && (Count(sizes, s) > 0 ==> End(sizes, s) <= Pow2(s))
  }

  lemma {:induction false} AcceptedEndFits(sizes: seq<nat>, s: nat)
    requires forall t :: 1 <= t <= s ==> LengthAccepted(sizes, t)
    ensures End(sizes, s) <= Pow2(s)
  {
    if s > 0 {
      AcceptedEndFits(sizes, s - 1);
      assert LengthAccepted(sizes, s);
    }
  }

  lemma KraftEndFits(sizes: seq<nat>, s: nat)
    requires ValidSizes(sizes) && Kraft(sizes) && s <= MAX_SIZE
    ensures End(sizes, s) <= Pow2(s)
  {
    KraftSumIsEnd(sizes);
    if s < MAX_SIZE {
      EndGrows(sizes, s, MAX_SIZE);
      if End(sizes, s) > Pow2(s) {
        ShlMonotone(Pow2(s), End(sizes, s), MAX_SIZE - s);
        ShlOfPow2(s, MAX_SIZE - s);
      }
    }
  }

  /** The builder's length-by-length tests accept exactly the lists that satisfy Kraft's inequality. */
  lemma AcceptanceIsKraft(sizes: seq<nat>)
    requires ValidSizes(sizes)
    ensures (forall s :: 1 <= s <= MAX_SIZE ==> LengthAccepted(sizes, s)) <==> Kraft(sizes)
  {
    KraftSumIsEnd(sizes);
    if forall s :: 1 <= s <= MAX_SIZE ==> LengthAccepted(sizes, s) {
      AcceptedEndFits(sizes, MAX_SIZE);
    }
    if Kraft(sizes) {
      forall s | 1 <= s <= MAX_SIZE
        ensures LengthAccepted(sizes, s)
      {
        KraftEndFits(sizes, s);
      }
    }
  }

  // ---- ranks ----

  lemma {:induction false} CountPrefix(sizes: seq<nat>, i: nat, j: nat, s: nat)
    requires i <= j <= |sizes|
    ensures Count(sizes[..i], s) <= Count(sizes[..j], s)
    ensures i < j && sizes[i] == s ==> Count(sizes[..i], s) < Count(sizes[..j], s)
    decreases j
  {
    if i < j {
      CountPrefix(sizes, i, j - 1, s);
      assert sizes[..j][..j - 1] == sizes[..j - 1];
    }
  }

  lemma {:induction false} CountBound(sizes: seq<nat>, s: nat)
    ensures Count(sizes, s) <= |sizes|
  {
    if |sizes| > 0 { CountBound(sizes[..|sizes| - 1], s); }
  }

  lemma RankBelowCount(sizes: seq<nat>, i: nat)
    requires i < |sizes|
    ensures Count(sizes[..i], sizes[i]) < Count(sizes, sizes[i])
  {
    CountPrefix(sizes, i, |sizes|, sizes[i]);
    assert sizes[..|sizes|] == sizes;
  }

  /** Used symbols fit in the symbol table. */
  lemma {:induction false} FirstSymbolBound(sizes: seq<nat>, s: nat)
    requires 1 <= s
    ensures FirstSymbol(sizes, s) <= |sizes|
    ensures FirstSymbol(sizes, s) + Count(sizes, s) <= |sizes|
  {
    if |sizes| == 0 {
      FirstSymbolEmpty(s);
    } else {
      var rest, z := sizes[..|sizes| - 1], sizes[|sizes| - 1];
      FirstSymbolBound(rest, s);
      assert sizes == rest + [z];
      FirstSymbolAppend(rest, z, s);
    }
  }

  lemma {:induction false} FirstSymbolEmpty(s: nat)
    ensures FirstSymbol([], s) == 0
  {
    if s > 1 { FirstSymbolEmpty(s - 1); }
  }

  lemma {:induction false} FirstSymbolAppend(sizes: seq<nat>, z: nat, s: nat)
    ensures FirstSymbol(sizes + [z], s) == FirstSymbol(sizes, s) + (if 0 < z < s then 1 else 0)
    decreases s
  {
    assert (sizes + [z])[..|sizes|] == sizes;
    if s > 1 { FirstSymbolAppend(sizes, z, s - 1); }
  }

  lemma {:induction false} FirstSymbolMonotone(sizes: seq<nat>, s: nat, t: nat)
    requires 1 <= s < t
    ensures FirstSymbol(sizes, s) + Count(sizes, s) <= FirstSymbol(sizes, t)
    decreases t
  {
    if s + 1 < t { FirstSymbolMonotone(sizes, s, t - 1); }
  }

  // ---- prefix freeness ----

  lemma CodeFits(sizes: seq<nat>, i: nat)
    requires ValidSizes(sizes) && Kraft(sizes) && i < |sizes| && sizes[i] > 0
    ensures FirstCode(sizes, sizes[i]) <= Code(sizes, i) < End(sizes, sizes[i]) <= Pow2(sizes[i])
  {
    RankBelowCount(sizes, i);
    KraftEndFits(sizes, sizes[i]);
  }

  lemma NoProperPrefix(sizes: seq<nat>, bits: seq<bit>, i: nat, j: nat)
    requires ValidSizes(sizes) && Kraft(sizes)
    requires Matches(sizes, bits, i) && Matches(sizes, bits, j)
    ensures sizes[i] >= sizes[j]
  {
    var s, t := sizes[i], sizes[j];
    if s < t {
      CodeFits(sizes, i);
      CodeFits(sizes, j);
      EndGrows(sizes, s, t);
      assert bits[..t][..s] == bits[..s];
      MsbValSplit(bits[..t], s);
      ShrBelow(Code(sizes, j), t - s, End(sizes, s));
    }
  }

  /** At most one symbol's code starts the bits. */
  lemma MatchUnique(sizes: seq<nat>, bits: seq<bit>, i: nat, j: nat)
    requires ValidSizes(sizes) && Kraft(sizes)
    requires Matches(sizes, bits, i) && Matches(sizes, bits, j)
    ensures i == j
  {
    NoProperPrefix(sizes, bits, i, j);
    NoProperPrefix(sizes, bits, j, i);
    if i < j {
      CountPrefix(sizes, i, j, sizes[i]);
    } else if j < i {
      CountPrefix(sizes, j, i, sizes[i]);
    }
  }

  /** Every rank below the count is held by some symbol. */
  lemma {:induction false} NthOfSize(sizes: seq<nat>, s: nat, r: nat) returns (i: nat)
    requires r < Count(sizes, s)
    ensures i < |sizes| && sizes[i] == s && Count(sizes[..i], s) == r
  {
    var n := |sizes| - 1;
    if r < Count(sizes[..n], s) {
      i := NthOfSize(sizes[..n], s, r);
      assert sizes[..n][..i] == sizes[..i];
    } else {
      i := n;
    }
  }

  /** A symbol no longer than n is matched by the first n bits alone. */
  lemma MatchesPrefix(sizes: seq<nat>, bits: seq<bit>, n: nat, i: nat)
    requires n <= |bits| && i < |sizes| && sizes[i] <= n
    ensures Matches(sizes, bits[..n], i) <==> Matches(sizes, bits, i)
  {
    assert bits[..n][..sizes[i]] == bits[..sizes[i]];
  }

  /** The code-length interval holding the next bits finds the symbol they start with. */
  lemma IntervalMatches(sizes: seq<nat>, bits: seq<bit>, s: nat) returns (i: nat)
    requires ValidSizes(sizes) && 1 <= s <= |bits|
    requires FirstCode(sizes, s) <= MsbVal(bits[..s]) < End(sizes, s)
    ensures Matches(sizes, bits, i) && sizes[i] == s
    ensures Count(sizes[..i], s) == MsbVal(bits[..s]) - FirstCode(sizes, s)
  {
    i := NthOfSize(sizes, s, MsbVal(bits[..s]) - FirstCode(sizes, s));
  }

  /** Some code of at most s bits starts the bits exactly when they lie below the end of length s. */
  lemma {:induction false} ShortMatch(sizes: seq<nat>, bits: seq<bit>, s: nat) returns (i: nat)
    requires ValidSizes(sizes) && 1 <= s <= |bits|
    requires MsbVal(bits[..s]) < End(sizes, s)
    ensures Matches(sizes, bits, i) && sizes[i] <= s
    decreases s
  {
    if MsbVal(bits[..s]) >= FirstCode(sizes, s) {
      i := IntervalMatches(sizes, bits, s);
    } else {
      assert bits[..s][..s - 1] == bits[..s - 1];
      i := ShortMatch(sizes, bits, s - 1);
    }
  }

  lemma MatchBelowEnd(sizes: seq<nat>, bits: seq<bit>, i: nat, s: nat)
    requires ValidSizes(sizes) && Kraft(sizes)
    requires Matches(sizes, bits, i) && sizes[i] <= s <= |bits|
    ensures MsbVal(bits[..s]) < End(sizes, s)
  {
    hide Shl, Shr, MsbVal, End, FirstCode, Kraft, ValidSizes;
    var t := sizes[i];
    CodeFits(sizes, i);
    if t < s {
      assert bits[..s][..t] == bits[..t];
      MsbValSplit(bits[..s], t);
      ShrBelow(MsbVal(bits[..s]), s - t, End(sizes, t));
      EndGrows(sizes, t, s);
    }
  }
}
