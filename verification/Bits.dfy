/** Bits, powers of two and the shift, mask and or operators that the coders apply to
    unsigned machine words.  A bit string is a sequence of 0s and 1s, earliest bit first. */
module Bits {
  type byte = x: int | 0 <= x < 256
  type bit = x: int | 0 <= x < 2

  // ---- machine word operators, one bit at a time ----

  function Pow2(n: nat): (r: nat)
    ensures r > 0
  {
    if n == 0 then 1 else 2 * Pow2(n - 1)
  }

  /** `a << n` before truncation to the width of the word */
  function Shl(a: nat, n: nat): nat {
    if n == 0 then a else 2 * Shl(a, n - 1)
  }

  /** `a << n` on a 32-bit unsigned word */
  function Shl32(a: nat, n: nat): nat {
    Shl(a, n) % 0x1_0000_0000
  }

  /** `a >> n` on an unsigned word */
  function Shr(a: nat, n: nat): nat
    decreases n, a
  {
    if n == 0 then a else Shr(a / 2, n - 1)
  }

  /** `a | b` */
  function BitOr(a: nat, b: nat): nat {
    if a == 0 then b
    else if b == 0 then a
    else (if a % 2 == 1 || b % 2 == 1 then 1 else 0) + 2 * BitOr(a / 2, b / 2)
  }

  /** `a & b` */
  function BitAnd(a: nat, b: nat): nat {
    if a == 0 || b == 0 then 0
    else (if a % 2 == 1 && b % 2 == 1 then 1 else 0) + 2 * BitAnd(a / 2, b / 2)
  }

  /** The n low bits of a, as a number. */
  function Low(a: nat, n: nat): nat
    decreases n, a
  {
    if n == 0 then 0 else a % 2 + 2 * Low(a / 2, n - 1)
  }

  // ---- facts about the operators ----

  lemma {:induction false} Pow2Monotone(a: nat, b: nat)
    requires a <= b
    ensures Pow2(a) <= Pow2(b)
    decreases b
  {
    if a < b { Pow2Monotone(a, b - 1); }
  }

  /** The small powers, unfolded for the solver. */
  lemma Pow2Values()
    ensures Pow2(0) == 1 && Pow2(1) == 2 && Pow2(2) == 4 && Pow2(3) == 8 && Pow2(4) == 16 && Pow2(5) == 32
    ensures Pow2(6) == 64 && Pow2(7) == 128 && Pow2(8) == 256 && Pow2(9) == 512 && Pow2(10) == 1024
    ensures Pow2(11) == 2048 && Pow2(12) == 4096 && Pow2(13) == 8192 && Pow2(14) == 16384 && Pow2(15) == 32768
    ensures Pow2(16) == 65536
  {
    assert Pow2(4) == 16;
    assert Pow2(8) == 256;
    assert Pow2(12) == 4096;
  }

  lemma {:induction false} ShlPow2(n: nat)
    ensures Shl(1, n) == Pow2(n)
  {
    if n > 0 { ShlPow2(n - 1); }
  }

  lemma {:induction false} ShlAdd(a: nat, b: nat, n: nat)
    ensures Shl(a + b, n) == Shl(a, n) + Shl(b, n)
  {
    if n > 0 { ShlAdd(a, b, n - 1); }
  }

  lemma {:induction false} ShlShl(a: nat, m: nat, n: nat)
    ensures Shl(Shl(a, m), n) == Shl(a, m + n)
  {
    if n > 0 { ShlShl(a, m, n - 1); }
  }

  lemma {:induction false} ShlOfPow2(m: nat, n: nat)
    ensures Shl(Pow2(m), n) == Pow2(m + n)
  {
    if n > 0 { ShlOfPow2(m, n - 1); }
  }

  lemma {:induction false} ShlMonotone(a: nat, b: nat, n: nat)
    ensures a < b ==> Shl(a, n) < Shl(b, n)
    ensures a <= b ==> Shl(a, n) <= Shl(b, n)
  {
    if n > 0 { ShlMonotone(a, b, n - 1); }
  }

  lemma {:induction false} ShrBelow(a: nat, n: nat, c: nat)
    ensures Shr(a, n) < c <==> a < Shl(c, n)
    decreases n
  {
    if n > 0 { ShrBelow(a / 2, n - 1, c); }
  }

  lemma {:induction false} ShrShr(a: nat, m: nat, n: nat)
    ensures Shr(Shr(a, m), n) == Shr(a, m + n)
    decreases m
  {
    if m > 0 { ShrShr(a / 2, m - 1, n); }
  }

  lemma {:induction false} ShrOfShl(a: nat, n: nat)
    ensures Shr(Shl(a, n), n) == a
    decreases n
  {
    if n > 0 { ShrOfShl(a, n - 1); }
  }

  lemma {:induction false} LowBound(a: nat, n: nat)
    ensures Low(a, n) < Pow2(n)
    ensures a < Pow2(n) ==> Low(a, n) == a
    decreases n
  {
    if n > 0 { LowBound(a / 2, n - 1); }
  }

  lemma {:induction false} LowAndRest(a: nat, n: nat)
    ensures a == Low(a, n) + Shl(Shr(a, n), n)
    decreases n
  {
    if n > 0 { LowAndRest(a / 2, n - 1); }
  }

  lemma {:induction false} LowOfShifted(a: nat, c: nat, n: nat)
    requires a < Pow2(n)
    ensures Low(a + Shl(c, n), n) == a && Shr(a + Shl(c, n), n) == c
    decreases n
  {
    if n > 0 { LowOfShifted(a / 2, c, n - 1); }
  }

  lemma {:induction false} LowLow(a: nat, m: nat, n: nat)
    requires m <= n
    ensures Low(Low(a, n), m) == Low(a, m)
    decreases m
  {
    if m > 0 {
      LowLow(a / 2, m - 1, n - 1);
      assert Low(a, n) % 2 == a % 2 && Low(a, n) / 2 == Low(a / 2, n - 1);
    }
  }

  lemma {:induction false} ShlFits(a: nat, m: nat, n: nat)
    requires a < Pow2(m)
    ensures Shl(a, n) < Pow2(m + n)
  {
    ShlMonotone(a, Pow2(m), n);
    ShlOfPow2(m, n);
  }

  /** No bit is lost off the top of a 32-bit word. */
  lemma Shl32Exact(a: nat, m: nat, n: nat)
    requires a < Pow2(m) && m + n <= 32
    ensures Shl32(a, n) == Shl(a, n)
  {
    hide Pow2, Shl;
    ShlFits(a, m, n);
    Pow2Monotone(m + n, 32);
    Pow2Of32();
  }

  lemma Pow2Of32()
    ensures Pow2(32) == 0x1_0000_0000
  {
    Pow2Values();
    hide Pow2;
    Pow2Four(16);
    Pow2Four(20);
    Pow2Four(24);
    Pow2Four(28);
  }

  lemma Pow2Four(n: nat)
    ensures Pow2(n + 4) == 16 * Pow2(n)
  {
    assert Pow2(n + 2) == 4 * Pow2(n);
  }

  /** The small shifts, unfolded for the solver. */
  lemma ShlValues(a: nat)
    ensures Shl(a, 1) == 2 * a && Shl(a, 2) == 4 * a && Shl(a, 3) == 8 * a && Shl(a, 4) == 16 * a
    ensures Shl(a, 5) == 32 * a && Shl(a, 6) == 64 * a && Shl(a, 7) == 128 * a
  {
    ShlNext(a, 0);
    ShlNext(a, 1);
    ShlNext(a, 2);
    ShlNext(a, 3);
    ShlNext(a, 4);
    ShlNext(a, 5);
    ShlNext(a, 6);
    assert Shl(a, 0) == a;
    hide Shl;
  }

  lemma ShlNext(a: nat, n: nat)
    ensures Shl(a, n + 1) == 2 * Shl(a, n)
  {
  }

  /** Or-ing in a word shifted past every set bit adds it. */
  lemma {:induction false} OrShifted(a: nat, c: nat, n: nat)
    requires a < Pow2(n)
    ensures BitOr(a, Shl(c, n)) == a + Shl(c, n)
    decreases n
  {
    if a != 0 && n > 0 {
      OrShifted(a / 2, c, n - 1);
    }
  }

  /** Masking with n ones keeps the n low bits. */
  lemma {:induction false} AndMask(a: nat, n: nat)
    ensures BitAnd(a, Pow2(n) - 1) == Low(a, n)
    decreases n
  {
    if n > 0 {
      AndMask(a / 2, n - 1);
      LowZero(n);
      var m := Pow2(n - 1);
      assert (Pow2(n) - 1) / 2 == m - 1 && (Pow2(n) - 1) % 2 == 1;
    }
  }

  lemma {:induction false} LowZero(n: nat)
    ensures Low(0, n) == 0
  {
    if n > 0 { LowZero(n - 1); }
  }

  // ---- bit strings ----

  /** The low n bits of v, least significant first. */
  function Lsb(v: nat, n: nat): (s: seq<bit>)
    ensures |s| == n
    decreases n, v
  {
    if n == 0 then [] else [v % 2] + Lsb(v / 2, n - 1)
  }

  /** The number a bit string spells, first bit least significant. */
  function LsbVal(s: seq<bit>): nat {
    if |s| == 0 then 0 else s[0] + 2 * LsbVal(s[1..])
  }

  /** The number a bit string spells, first bit most significant. */
  function MsbVal(s: seq<bit>): nat {
    if |s| == 0 then 0 else 2 * MsbVal(s[..|s| - 1]) + s[|s| - 1]
  }

  /** The n low bits of v in reverse order, as a number. */
  function BitReverse(v: nat, n: nat): nat {
    MsbVal(Lsb(v, n))
  }

  lemma {:induction false} LsbValBound(s: seq<bit>)
    ensures LsbVal(s) < Pow2(|s|)
  {
    if |s| > 0 { LsbValBound(s[1..]); }
  }

  lemma {:induction false} MsbValBound(s: seq<bit>)
    ensures MsbVal(s) < Pow2(|s|)
  {
    if |s| > 0 { MsbValBound(s[..|s| - 1]); }
  }

  lemma {:induction false} LsbOfLsbVal(s: seq<bit>)
    ensures Lsb(LsbVal(s), |s|) == s
  {
    if |s| > 0 {
      LsbOfLsbVal(s[1..]);
      assert LsbVal(s) % 2 == s[0] && LsbVal(s) / 2 == LsbVal(s[1..]);
    }
  }

  lemma {:induction false} LsbValOfLsb(v: nat, n: nat)
    ensures LsbVal(Lsb(v, n)) == Low(v, n)
    decreases n
  {
    if n > 0 {
      LsbValOfLsb(v / 2, n - 1);
      assert Lsb(v, n)[1..] == Lsb(v / 2, n - 1);
    }
  }

  lemma {:induction false} LsbValConcat(a: seq<bit>, b: seq<bit>)
    ensures LsbVal(a + b) == LsbVal(a) + Shl(LsbVal(b), |a|)
  {
    if |a| == 0 {
      assert a + b == b;
    } else {
      assert (a + b)[1..] == a[1..] + b;
      LsbValConcat(a[1..], b);
    }
  }

  lemma {:induction false} MsbValConcat(a: seq<bit>, b: seq<bit>)
    ensures MsbVal(a + b) == Shl(MsbVal(a), |b|) + MsbVal(b)
  {
    if |b| == 0 {
      assert a + b == a;
    } else {
      assert (a + b)[..|a + b| - 1] == a + b[..|b| - 1];
      MsbValConcat(a, b[..|b| - 1]);
    }
  }

  /** Splitting a string splits the number it spells, first bit least significant. */
  lemma {:induction false} LsbValSplit(s: seq<bit>, n: nat)
    requires n <= |s|
    ensures Low(LsbVal(s), n) == LsbVal(s[..n]) && Shr(LsbVal(s), n) == LsbVal(s[n..])
    decreases n
  {
    if n == 0 {
      assert s[0..] == s;
    } else {
      LsbValSplit(s[1..], n - 1);
      assert LsbVal(s) % 2 == s[0] && LsbVal(s) / 2 == LsbVal(s[1..]);
      assert s[..n][1..] == s[1..][..n - 1] && s[1..][n - 1..] == s[n..];
    }
  }

  /** The same, first bit most significant. */
  lemma {:induction false} MsbValSplit(s: seq<bit>, n: nat)
    requires n <= |s|
    ensures Shr(MsbVal(s), |s| - n) == MsbVal(s[..n])
    decreases |s| - n
  {
    if n == |s| {
      assert s[..n] == s;
    } else {
      var t := s[..|s| - 1];
      MsbValSplit(t, n);
      assert t[..n] == s[..n] && MsbVal(s) / 2 == MsbVal(t);
    }
  }

  lemma {:induction false} LsbAppend(v: nat, m: nat, n: nat)
    ensures Lsb(v, m + n) == Lsb(v, m) + Lsb(Shr(v, m), n)
    decreases m
  {
    if m > 0 {
      LsbAppend(v / 2, m - 1, n);
    }
  }

  /** A word extended above its m bits by c: the written string grows by the bits of c. */
  lemma {:induction false} LsbExtend(a: nat, m: nat, c: nat, n: nat)
    requires a < Pow2(m)
    ensures Lsb(a + Shl(c, m), m + n) == Lsb(a, m) + Lsb(c, n)
    decreases m
  {
    if m > 0 {
      LsbExtend(a / 2, m - 1, c, n);
      assert (a + Shl(c, m)) / 2 == a / 2 + Shl(c, m - 1);
      assert Lsb(a + Shl(c, m), m + n) == [a % 2] + Lsb(a / 2 + Shl(c, m - 1), m - 1 + n);
    }
  }

  /** Reading a string from its far end swaps the two ways of spelling. */
  lemma {:induction false} MsbLsbReverse(s: seq<bit>, t: seq<bit>)
    requires |s| == |t| && forall k :: 0 <= k < |s| ==> t[k] == s[|s| - 1 - k]
    ensures MsbVal(s) == LsbVal(t)
  {
    if |s| > 0 {
      MsbLsbReverse(s[..|s| - 1], t[1..]);
    }
  }

  lemma {:induction false} MsbValInjective(s: seq<bit>, t: seq<bit>)
    requires |s| == |t| && MsbVal(s) == MsbVal(t)
    ensures s == t
  {
    if |s| > 0 {
      var m := |s| - 1;
      MsbValInjective(s[..m], t[..m]);
      assert s == s[..m] + [s[m]] && t == t[..m] + [t[m]];
    }
  }

  /** Writing the reversed code low bit first sends the code high bit first. */
  lemma ReversedCode(c: nat, n: nat)
    requires c < Pow2(n)
    ensures BitReverse(c, n) < Pow2(n)
    ensures MsbVal(Lsb(BitReverse(c, n), n)) == c
  {
    var s := Lsb(c, n);
    var t := seq(n, k requires 0 <= k < n => s[n - 1 - k]);
    MsbLsbReverse(s, t);
    MsbLsbReverse(t, s);
    MsbValBound(s);
    LsbOfLsbVal(t);
    LsbValOfLsb(c, n);
    LowBound(c, n);
  }

  /** A string spells c high bit first exactly when it spells the reversal of c low bit first. */
  lemma ReverseSpells(s: seq<bit>, c: nat)
    requires c < Pow2(|s|)
    ensures MsbVal(s) == c <==> LsbVal(s) == BitReverse(c, |s|)
  {
    ReversedCode(c, |s|);
    LsbOfLsbVal(s);
    if MsbVal(s) == c {
      MsbValInjective(s, Lsb(BitReverse(c, |s|), |s|));
      LsbValOfLsb(BitReverse(c, |s|), |s|);
      LowBound(BitReverse(c, |s|), |s|);
    }
  }
}
