/** The decoder's 32-bit window onto the scan: the next bits stand at its top. */
module JpegBits {
  import opened Bits
  import opened Contexts
  import opened Inflate
  import opened JpegScan

  const WORD := 0x1_0000_0000

  lemma Pow32()
    ensures Pow2(32) == WORD
  {
    Pow2Values();
    ShlOfPow2(16, 16);
    ShlPow2(16);
    assert Pow2(20) == 0x10_0000;
    assert Pow2(24) == 0x100_0000;
    assert Pow2(28) == 0x1000_0000;
  }

  /** The window for n bits: they fill its top and zeros follow. */
  function Window(bits: seq<bit>): nat
    requires |bits| <= 32
  {
    Shl(MsbVal(bits), 32 - |bits|)
  }

  lemma WindowFits(bits: seq<bit>)
    requires |bits| <= 32
    ensures Window(bits) < WORD
  {
    MsbValBound(bits);
    ShlFits(MsbVal(bits), |bits|, 32 - |bits|);
    Pow32();
  }

  /** Or-ing into the zeros below adds. */
  lemma {:induction false} OrBelow(a: nat, c: nat, n: nat)
    requires a < Pow2(n)
    ensures BitOr(Shl(c, n), a) == Shl(c, n) + a
    decreases n
  {
    if a != 0 && n > 0 { OrBelow(a / 2, c, n - 1); }
  }

  /** A byte or-ed in below the bits of the window joins them. */
  lemma WindowGrows(bits: seq<bit>, more: seq<bit>)
    requires |bits| <= 24 && |more| == 8
    ensures BitOr(Window(bits), Shl(MsbVal(more), 24 - |bits|)) == Window(bits + more)
  {
    hide Shl, BitOr, MsbVal, Pow2;
    var k, v, m := 24 - |bits|, MsbVal(bits), MsbVal(more);
    MsbValConcat(bits, more);
    assert Window(bits + more) == Shl(Shl(v, 8) + m, k);
    ShlShl(v, 8, k);
    ShlAdd(Shl(v, 8), m, k);
    MsbValBound(more);
    ShlFits(m, 8, k);
    hide Window;
    OrBelow(Shl(m, k), v, 8 + k);
  }

  /** Shifting the window up drops its first bits. */
  lemma WindowShifts(bits: seq<bit>, n: nat)
    requires n <= |bits| <= 32
    ensures Shl32(Window(bits), n) == Window(bits[n..])
  {
    hide Shl, MsbVal, Pow2;
    var hi, lo := bits[..n], bits[n..];
    assert bits == hi + lo;
    MsbValConcat(hi, lo);
    ShlShl(MsbVal(bits), 32 - |bits|, n);
    ShlAdd(Shl(MsbVal(hi), |lo|), MsbVal(lo), 32 - |lo|);
    ShlShl(MsbVal(hi), |lo|, 32 - |lo|);
    WindowFits(lo);
    Pow32();
    ShlIsTimes(MsbVal(hi), 32);
  }

  lemma {:induction false} ShlIsTimes(a: nat, n: nat)
    ensures Shl(a, n) == a * Pow2(n)
  {
    if n > 0 { ShlIsTimes(a, n - 1); }
  }

  /** A window shifted by at least all its bits is empty. */
  lemma WindowEmptied(bits: seq<bit>, n: nat)
    requires |bits| <= 32 && |bits| <= n
    ensures Shl32(Window(bits), n) == 0
  {
    hide Shl, MsbVal, Pow2;
    var e := n - |bits|;
    ShlShl(MsbVal(bits), 32 - |bits|, n);
    ShlShl(MsbVal(bits), e, 32);
    ShlIsTimes(Shl(MsbVal(bits), e), 32);
    Pow32();
  }

  /** The top n bits of the window are the first n bits. */
  lemma WindowPeek(bits: seq<bit>, n: nat)
    requires n <= |bits| <= 32
    ensures Shr(Window(bits), 32 - n) == MsbVal(bits[..n])
  {
    hide Shl, MsbVal, Pow2, Shr;
    MsbValSplit(bits, n);
    var zeros := 32 - |bits|;
    ShrOfShl(MsbVal(bits), zeros);
    ShrShr(Window(bits), zeros, |bits| - n);
  }

  /** EXTEND of figure F.12: values with a leading zero bit are negative. */
  function Extend(v: nat, n: nat): int
    requires 1 <= n
  {
    if v < Pow2(n - 1) then v - (Pow2(n) - 1) else v
  }

  // ---- the window and the rest of the file together hold the rest of the scan ----

  function Held(bits: int): nat {
    if bits < 0 then 0 else bits
  }

  /** `pulled` bytes were taken from the feed and all but `bits` of their bits were consumed; a
      negative count means bits were consumed from the zeros that follow the end. */
  ghost predicate Holds(file: seq<byte>, from: Feed, pulled: nat, g: Feed, bits: int, buffer: nat) {
    && bits <= 32 && bits <= 8 * pulled && (bits < 0 ==> g.nomore)
    && buffer == Window(ScanBits(file, from, 8 * pulled - bits, Held(bits)))
    && Delivers(file, from, pulled, g)
  }

  /** The next n bits can be read off the window. */
  lemma PeekIsScan(file: seq<byte>, from: Feed, pulled: nat, g: Feed, bits: int, buffer: nat, n: nat)
    requires Holds(file, from, pulled, g, bits, buffer) && n <= 32 && (n <= bits || g.nomore)
    ensures Shr(buffer, 32 - n) == MsbVal(ScanBits(file, from, 8 * pulled - bits, n))
  {
    hide Window, Delivers, Shl, Shr, MsbVal;
    var p, k := 8 * pulled - bits, Held(bits);
    var have := ScanBits(file, from, p, k);
    if n <= k {
      WindowPeek(have, n);
      assert have[..n] == ScanBits(file, from, p, n);
    } else {
      ScanSplit(file, from, p, k, n - k);
      DeliversZeros(file, from, pulled, g, p + k, n - k);
      MsbValConcat(have, ScanBits(file, from, p + k, n - k));
      WindowIs(have);
      ShlShl(MsbVal(have), n - k, 32 - n);
      ShrOfShl(Shl(MsbVal(have), n - k), 32 - n);
    }
  }

  lemma WindowIs(bits: seq<bit>)
    requires |bits| <= 32
    ensures Window(bits) == Shl(MsbVal(bits), 32 - |bits|)
  {
  }

  lemma WindowOfNone()
    ensures Window([]) == 0
  {
    ShlIsTimes(0, 32);
  }

  /** Shifting n bits out moves n bits on. */
  lemma ConsumeMoves(file: seq<byte>, from: Feed, pulled: nat, g: Feed, bits: int, buffer: nat, n: nat)
    requires Holds(file, from, pulled, g, bits, buffer) && (n <= bits || g.nomore)
    ensures Holds(file, from, pulled, g, bits - n, Shl32(buffer, n))
  {
    hide Window, Delivers, Shl32, ScanBits;
    var p, k := 8 * pulled - bits, Held(bits);
    var have := ScanBits(file, from, p, k);
    if n <= k {
      WindowShifts(have, n);
      ScanDrop(file, from, p, k, n);
    } else {
      WindowEmptied(have, n);
      WindowOfNone();
    }
  }

  lemma ScanDrop(file: seq<byte>, from: Feed, p: nat, k: nat, n: nat)
    requires n <= k
    ensures ScanBits(file, from, p, k)[n..] == ScanBits(file, from, p + n, k - n)
  {
    hide ScanBit;
  }

  /** Pulling a byte lengthens what is held. */
  lemma PullGrows(file: seq<byte>, from: Feed, pulled: nat, g: Feed, bits: int, buffer: nat)
    requires Holds(file, from, pulled, g, bits, buffer) && bits <= 24
    ensures Holds(file, from, pulled + 1, FeedNext(file, g), bits + 8,
                  BitOr(buffer, Shl(FeedByte(file, g), 24 - bits)))
  {
    hide Window, Delivers, Shl, BitOr, MsbVal, FeedAt, FeedNext, FeedByte;
    var p, b := 8 * pulled - bits, FeedByte(file, g);
    DeliversNext(file, from, pulled, g);
    if bits >= 0 {
      ScanSplit(file, from, p, bits, 8);
      ScanByte(file, from, pulled);
      Msb8Value(b);
      WindowGrows(ScanBits(file, from, p, bits), Msb8(b));
      Stays(file, g);
    } else {
      Stays(file, g);
      ShlIsTimes(0, 24 - bits);
      WindowOfNone();
      assert ScanBits(file, from, p, 0) == [];
      OrNothing();
      DeliversZeros(file, from, pulled, g, p, Held(bits + 8));
      WindowIs(ScanBits(file, from, p, Held(bits + 8)));
      ShlIsTimes(0, 32 - Held(bits + 8));
    }
  }

  lemma OrNothing()
    ensures BitOr(0, 0) == 0
  {
  }

  lemma Stays(file: seq<byte>, g: Feed)
    ensures g.nomore ==> FeedNext(file, g) == g && FeedByte(file, g) == 0
  {
  }

  // ---- reading a magnitude by rotating the window ----

  lemma {:induction false} LowAndHigh(a: nat, m: nat)
    ensures a == Low(a, m) + Shl(Shr(a, m), m)
    decreases m
  {
    if m > 0 { LowAndHigh(a / 2, m - 1); }
  }

  /** Masking with everything but n ones clears the n low bits. */
  lemma {:induction false} AndHigh(a: nat, n: nat, w: nat)
    requires n <= w && a < Pow2(w)
    ensures Pow2(n) <= Pow2(w) && BitAnd(a, Pow2(w) - Pow2(n)) == a - Low(a, n)
    decreases n
  {
    if n == 0 {
      AndMask(a, w);
      LowBound(a, w);
    } else {
      AndHigh(a / 2, n - 1, w - 1);
      var m := Pow2(w - 1) - Pow2(n - 1);
      assert Pow2(w) - Pow2(n) == 2 * m;
      if a != 0 && m != 0 {
        assert (2 * m) / 2 == m && (2 * m) % 2 == 0;
      } else {
        LowAtMost(a, n);
        LowBound(a, n);
        LowZero(n);
        if m == 0 { Pow2Strict(n - 1, w - 1); }
      }
    }
  }

  lemma LowAtMost(a: nat, n: nat)
    ensures Low(a, n) <= a
  {
    LowAndHigh(a, n);
  }

  lemma {:induction false} Pow2Strict(a: nat, b: nat)
    requires a <= b && Pow2(a) == Pow2(b)
    ensures a == b
    decreases b
  {
    if a > 0 {
      Pow2Strict(a - 1, b - 1);
    }
  }

  /** n ones */
  function Mask(n: nat): (m: nat)
    requires n <= 16
    ensures m < 0x1_0000
  {
    Pow2Monotone(n, 16);
    Pow2Values();
    Pow2(n) - 1
  }

  /** Rotating left by n puts the top n bits below the rest: one mask cuts them out and the other
      leaves the window shifted by n. */
  lemma Rotated(buffer: nat, n: nat)
    requires buffer < WORD && 1 <= n <= 15
    ensures var k := BitOr(Shl32(buffer, n), Shr(buffer, 32 - n));
      BitAnd(k, Mask(n)) == Shr(buffer, 32 - n) && BitAnd(k, WORD - 1 - Mask(n)) == Shl32(buffer, n)
  {
    hide Shl, Shr, Low, BitOr, BitAnd, Pow2;
    var hi, lo := Shr(buffer, 32 - n), Low(buffer, 32 - n);
    Pow32();
    LowAndHigh(buffer, 32 - n);
    ShlAdd(lo, Shl(hi, 32 - n), n);
    ShlShl(hi, 32 - n, n);
    ShlIsTimes(hi, 32);
    LowBound(buffer, 32 - n);
    ShlFits(lo, 32 - n, n);
    assert Shl32(buffer, n) == Shl(lo, n);
    ShrBelow(buffer, 32 - n, Pow2(n));
    ShlOfPow2(n, 32 - n);
    OrBelow(hi, lo, n);
    LowOfShifted(hi, lo, n);
    AndMask(hi + Shl(lo, n), n);
    ShlMonotone(lo, Pow2(32 - n) - 1, n);
    ShlAdd(Pow2(32 - n) - 1, 1, n);
    ShlOfPow2(32 - n, n);
    ShlPow2(n);
    AndHigh(hi + Shl(lo, n), n, 32);
  }

  /** The sign bit of the window is the first magnitude bit. */
  lemma TopBit(buffer: nat, n: nat)
    requires 1 <= n <= 15
    ensures Shr(buffer, 32 - n) < Pow2(n - 1) <==> buffer < 0x8000_0000
  {
    hide Shl, Shr, Pow2;
    ShrBelow(buffer, 32 - n, Pow2(n - 1));
    ShlOfPow2(n - 1, 32 - n);
    ShlOfPow2(31, 1);
    Pow32();
    assert Shl(Pow2(31), 1) == 2 * Pow2(31) by { ShlOnce(Pow2(31)); }
  }

  lemma ShlOnce(a: nat)
    ensures Shl(a, 1) == 2 * a
  {
    assert Shl(a, 0) == a;
  }
}
