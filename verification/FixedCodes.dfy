/** The fixed codes of section 3.2.6 of RFC 1951, as canonical codes of their length lists. */
module FixedCodes {
  import opened Bits
  import opened Huffman
  import opened Inflate

  lemma {:induction false} CountConcat(a: seq<nat>, b: seq<nat>, s: nat)
    ensures Count(a + b, s) == Count(a, s) + Count(b, s)
  {
    if |b| == 0 {
      assert a + b == a;
    } else {
      CountConcat(a, b[..|b| - 1], s);
      assert (a + b)[..|a + b| - 1] == a + b[..|b| - 1];
    }
  }

  lemma {:induction false} CountFill(v: nat, n: nat, s: nat)
    ensures Count(Fill(v, n), s) == if v == s then n else 0
  {
    if n > 0 {
      CountFill(v, n - 1, s);
      assert Fill(v, n)[..n - 1] == Fill(v, n - 1);
    }
  }

  /** How many of the first i fixed lengths are s. */
  lemma FixedCount(i: nat, s: nat)
    requires i <= 288
    ensures Count(FixedLengths()[..i], s) ==
      (if s == 8 then (if i <= 144 then i else if i <= 280 then 144 else i - 136)
       else if s == 9 then (if i <= 144 then 0 else if i <= 256 then i - 144 else 112)
       else if s == 7 then (if i <= 256 then 0 else if i <= 280 then i - 256 else 24)
       else 0)
  {
    var a, b, c, d := Fill(8, 144), Fill(9, 112), Fill(7, 24), Fill(8, 8);
    assert FixedLengths() == a + b + c + d;
    var n1 := if i <= 144 then i else 144;
    var n2 := if i <= 144 then 0 else if i <= 256 then i - 144 else 112;
    var n3 := if i <= 256 then 0 else if i <= 280 then i - 256 else 24;
    var n4 := if i <= 280 then 0 else i - 280;
    assert FixedLengths()[..i] == Fill(8, n1) + Fill(9, n2) + Fill(7, n3) + Fill(8, n4);
    CountConcat(Fill(8, n1) + Fill(9, n2) + Fill(7, n3), Fill(8, n4), s);
    CountConcat(Fill(8, n1) + Fill(9, n2), Fill(7, n3), s);
    CountConcat(Fill(8, n1), Fill(9, n2), s);
    CountFill(8, n1, s);
    CountFill(9, n2, s);
    CountFill(7, n3, s);
    CountFill(8, n4, s);
  }

  /** The first codes: 0 for length 7, 0x30 for 8, 0x190 for 9; lengths past 9 start at the end. */
  lemma FixedStarts()
    ensures FirstCode(FixedLengths(), 7) == 0 && FirstCode(FixedLengths(), 8) == 0x30
    ensures FirstCode(FixedLengths(), 9) == 0x190 && End(FixedLengths(), 9) == 512
    ensures End(FixedLengths(), MAX_SIZE) == Pow2(MAX_SIZE)
  {
    var l := FixedLengths();
    assert l[..288] == l;
    forall s: nat ensures Count(l, s) == if s == 7 then 24 else if s == 8 then 152 else if s == 9 then 112 else 0 {
      FixedCount(288, s);
    }
    hide Count, FixedLengths;
    assert End(l, 3) == 0;
    assert End(l, 6) == 0;
    assert End(l, 8) == 200;
    assert End(l, 9) == 512;
    assert End(l, 12) == 4096;
    assert End(l, 15) == 32768;
    Pow2Values();
  }

  lemma FixedDistanceStarts()
    ensures FirstCode(FixedDistances(), 5) == 0 && End(FixedDistances(), MAX_SIZE) == Pow2(MAX_SIZE)
    ensures forall i :: 0 <= i <= 32 ==> Count(FixedDistances()[..i], 5) == i
  {
    var l := FixedDistances();
    assert l[..32] == l;
    forall s: nat, i: nat | i <= 32
      ensures Count(l[..i], s) == if s == 5 then i else 0
    {
      assert l[..i] == Fill(5, i);
      CountFill(5, i, s);
    }
    assert forall s: nat :: Count(l[..32], s) == if s == 5 then 32 else 0;
    hide Count, FixedDistances;
    assert End(l, 3) == 0;
    assert End(l, 5) == 32;
    assert End(l, 8) == 256;
    assert End(l, 11) == 2048;
    assert End(l, 13) == 8192;
    assert End(l, 15) == 32768;
    Pow2Values();
  }

  /** Both fixed length lists fill the code space exactly. */
  lemma FixedKraft()
    ensures ValidSizes(FixedLengths()) && Kraft(FixedLengths())
    ensures ValidSizes(FixedDistances()) && Kraft(FixedDistances())
  {
    FixedStarts();
    FixedDistanceStarts();
    KraftSumIsEnd(FixedLengths());
    KraftSumIsEnd(FixedDistances());
  }

  /** The code the writer's macros give to symbol n, and its length. */
  function FixedCode(n: nat): nat
    requires n < 288
  {
    if n <= 143 then 0x30 + n
    else if n <= 255 then 0x190 + n - 144
    else if n <= 279 then n - 256
    else 0xc0 + n - 280
  }

  function FixedSize(n: nat): nat
    requires n < 288
  {
    if n <= 143 then 8 else if n <= 255 then 9 else if n <= 279 then 7 else 8
  }

  /** The writer's constants are the canonical codes of the reader's fixed lengths. */
  lemma FixedCodeIsCanonical(n: nat)
    requires n < 288
    ensures FixedLengths()[n] == FixedSize(n) && Code(FixedLengths(), n) == FixedCode(n) < Pow2(FixedSize(n))
  {
    FixedStarts();
    FixedCount(n, FixedSize(n));
    Pow2Values();
  }

  lemma FixedDistanceIsCanonical(n: nat)
    requires n < 32
    ensures FixedDistances()[n] == 5 && Code(FixedDistances(), n) == n
  {
    FixedDistanceStarts();
    hide FirstCode, Count, End;
  }
}
