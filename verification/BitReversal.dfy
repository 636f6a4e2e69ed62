/** Reversing the bits of a 16-bit word by swapping neighbours, pairs, nibbles and bytes under masks. */
module BitReversal {
  import opened Bits

  // ---- masks on bit strings, least significant bit first ----

  function And(s: seq<bit>, t: seq<bit>): (r: seq<bit>)
    requires |s| == |t|
    ensures |r| == |s|
  {
    seq<bit>(|s|, i requires 0 <= i < |s| => if s[i] == 1 && t[i] == 1 then 1 else 0)
  }

  function Or(s: seq<bit>, t: seq<bit>): (r: seq<bit>)
    requires |s| == |t|
    ensures |r| == |s|
  {
    seq<bit>(|s|, i requires 0 <= i < |s| => if s[i] == 1 || t[i] == 1 then 1 else 0)
  }

  lemma {:induction false} AndValue(s: seq<bit>, t: seq<bit>)
    requires |s| == |t|
    ensures LsbVal(And(s, t)) == BitAnd(LsbVal(s), LsbVal(t))
  {
    if |s| > 0 {
      AndValue(s[1..], t[1..]);
      assert And(s, t)[1..] == And(s[1..], t[1..]);
      assert LsbVal(s) / 2 == LsbVal(s[1..]) && LsbVal(t) / 2 == LsbVal(t[1..]);
    }
  }

  lemma {:induction false} OrValue(s: seq<bit>, t: seq<bit>)
    requires |s| == |t|
    ensures LsbVal(Or(s, t)) == BitOr(LsbVal(s), LsbVal(t))
  {
    if |s| > 0 {
      OrValue(s[1..], t[1..]);
      assert Or(s, t)[1..] == Or(s[1..], t[1..]);
      assert LsbVal(s) / 2 == LsbVal(s[1..]) && LsbVal(t) / 2 == LsbVal(t[1..]);
    }
  }

  function Zeros(n: nat): (s: seq<bit>)
    ensures |s| == n
  {
    seq<bit>(n, i => 0)
  }

  lemma {:induction false} ZerosValue(n: nat)
    ensures LsbVal(Zeros(n)) == 0
  {
    if n > 0 {
      ZerosValue(n - 1);
      assert Zeros(n)[1..] == Zeros(n - 1);
    }
  }

  /** A mask under which bits survive in every second group of g, starting with the first or the second. */
  function Groups(g: nat, second: bool): (s: seq<bit>)
    requires g > 0
    ensures |s| == 16
  {
    seq<bit>(16, i requires 0 <= i < 16 => if ((i / g) % 2 == 1) == second then 1 else 0)
  }

  /** The value of four hexadecimal digits, the lowest first. */
  lemma DigitsValue(d0: seq<bit>, d1: seq<bit>, d2: seq<bit>, d3: seq<bit>)
    requires |d0| == |d1| == |d2| == |d3| == 4
    ensures LsbVal(d0 + d1 + d2 + d3) == LsbVal(d0) + 16 * LsbVal(d1) + 256 * LsbVal(d2) + 4096 * LsbVal(d3)
  {
    hide LsbVal, Shl;
    LsbValConcat(d0 + d1 + d2, d3);
    LsbValConcat(d0 + d1, d2);
    LsbValConcat(d0, d1);
    ShlValues(LsbVal(d1));
    ShlBy(LsbVal(d2), 4, 4);
    ShlBy(LsbVal(d3), 8, 4);
    ShlBy(LsbVal(d3), 4, 4);
  }

  lemma ShlBy(a: nat, m: nat, n: nat)
    requires n == 4
    ensures Shl(a, m + n) == 16 * Shl(a, m) && Shl(a, n) == 16 * a
  {
    ShlShl(a, m, n);
    ShlValues(Shl(a, m));
    ShlValues(a);
  }

  lemma Nibble(s: seq<bit>)
    requires |s| == 4
    ensures LsbVal(s) == s[0] as int + 2 * s[1] as int + 4 * s[2] as int + 8 * s[3] as int
  {
    assert LsbVal(s[1..]) == s[1] + 2 * LsbVal(s[1..][1..]);
    assert s[1..][1..] == s[2..] && LsbVal(s[2..]) == s[2] + 2 * LsbVal(s[2..][1..]);
    assert s[2..][1..] == s[3..] && LsbVal(s[3..]) == s[3] + 2 * LsbVal(s[3..][1..]);
  }

  /** A hexadecimal digit of a mask. */
  function Digit(a: bit, b: bit, c: bit, d: bit): (s: seq<bit>)
    ensures |s| == 4
  {
    [a, b, c, d]
  }

  lemma Groups1(on: bit, off: bit)
    requires on + off == 1
    ensures var d := Digit(off, on, off, on); Groups(1, on == 1) == d + d + d + d
  {
  }

  lemma Groups2(on: bit, off: bit)
    requires on + off == 1
    ensures var d := Digit(off, off, on, on); Groups(2, on == 1) == d + d + d + d
  {
  }

  lemma Groups4(on: bit, off: bit)
    requires on + off == 1
    ensures var d, e := Digit(off, off, off, off), Digit(on, on, on, on); Groups(4, on == 1) == d + e + d + e
  {
  }

  lemma Groups8(on: bit, off: bit)
    requires on + off == 1
    ensures var d, e := Digit(off, off, off, off), Digit(on, on, on, on); Groups(8, on == 1) == d + d + e + e
  {
  }

  lemma DigitValue(a: bit, b: bit, c: bit, d: bit)
    ensures LsbVal(Digit(a, b, c, d)) == a + 2 * b + 4 * c + 8 * d
  {
    Nibble(Digit(a, b, c, d));
  }

  lemma GroupMask(g: nat, second: bool)
    requires g == 1 || g == 2 || g == 4 || g == 8
    ensures LsbVal(Groups(g, second)) ==
      if g == 1 then (if second then 0xAAAA else 0x5555)
      else if g == 2 then (if second then 0xCCCC else 0x3333)
      else if g == 4 then (if second then 0xF0F0 else 0x0F0F)
      else if second then 0xFF00 else 0x00FF
  {
    hide LsbVal, Groups, Digit;
    var on: bit, off: bit := if second then 1 else 0, if second then 0 else 1;
    if g == 1 {
      var d := Digit(off, on, off, on);
      Groups1(on, off);
      DigitValue(off, on, off, on);
      DigitsValue(d, d, d, d);
    } else if g == 2 {
      var d := Digit(off, off, on, on);
      Groups2(on, off);
      DigitValue(off, off, on, on);
      DigitsValue(d, d, d, d);
    } else {
      var d, e := Digit(off, off, off, off), Digit(on, on, on, on);
      DigitValue(off, off, off, off);
      DigitValue(on, on, on, on);
      if g == 4 {
        Groups4(on, off);
        DigitsValue(d, e, d, e);
      } else {
        Groups8(on, off);
        DigitsValue(d, d, e, e);
      }
    }
  }

  // ---- one round of swapping ----

  /** Neighbouring groups of g bits change places. */
  function Swapped(s: seq<bit>, g: nat): (r: seq<bit>)
    requires |s| == 16 && (g == 1 || g == 2 || g == 4 || g == 8)
    ensures |r| == 16
  {
    seq<bit>(16, i requires 0 <= i < 16 => if (i / g) % 2 == 0 then s[i + g] else s[i - g])
  }

  function SwapGroups(n: nat, second: nat, first: nat, g: nat): nat {
    BitOr(Shr(BitAnd(n, second), g), Shl(BitAnd(n, first), g))
  }

  lemma SwapValue(s: seq<bit>, g: nat)
    requires |s| == 16 && (g == 1 || g == 2 || g == 4 || g == 8)
    ensures SwapGroups(LsbVal(s), LsbVal(Groups(g, true)), LsbVal(Groups(g, false)), g) == LsbVal(Swapped(s, g))
  {
    hide BitAnd, BitOr, Shl, Shr, LsbVal, And, Or, Groups, Swapped;
    var high, low := And(s, Groups(g, true)), And(s, Groups(g, false));
    AndValue(s, Groups(g, true));
    AndValue(s, Groups(g, false));
    LsbValSplit(high, g);
    var down := high[g..] + Zeros(g);
    AppendZeros(high[g..], g);
    var up := Zeros(g) + low[..16 - g];
    SwapBits(s, g);
    AppendZeros(low[..16 - g], g);
    ZerosValue(g);
    LsbValConcat(Zeros(g), low[..16 - g]);
    OrValue(down, up);
  }

  /** On bit strings: the masked and shifted halves, joined, are the string with its groups swapped. */
  lemma SwapBits(s: seq<bit>, g: nat)
    requires |s| == 16 && (g == 1 || g == 2 || g == 4 || g == 8)
    ensures var high, low := And(s, Groups(g, true)), And(s, Groups(g, false));
      && low == low[..16 - g] + Zeros(g)
      && Or(high[g..] + Zeros(g), Zeros(g) + low[..16 - g]) == Swapped(s, g)
  {
    var high, low := And(s, Groups(g, true)), And(s, Groups(g, false));
    var joined := Or(high[g..] + Zeros(g), Zeros(g) + low[..16 - g]);
    forall i | 0 <= i < 16
      ensures joined[i] == Swapped(s, g)[i] && low[i] == (low[..16 - g] + Zeros(g))[i]
    {
      GroupOf(i, g);
    }
  }

  lemma GroupOf(i: nat, g: nat)
    requires i < 16 && (g == 1 || g == 2 || g == 4 || g == 8)
    ensures (i / g) % 2 == 0 ==> i + g < 16 && ((i + g) / g) % 2 == 1
    ensures (i / g) % 2 == 1 ==> i >= g && ((i - g) / g) % 2 == 0
    ensures i >= 16 - g ==> (i / g) % 2 == 1
    ensures i < g ==> (i / g) % 2 == 0
    ensures i + g < 16 ==> ((i + g) / g) % 2 != (i / g) % 2
    ensures i >= g ==> ((i - g) / g) % 2 != (i / g) % 2
  {
    GroupAfter(i, g);
    if i >= g { GroupAfter(i - g, g); }
    if i >= 16 - g { LastGroup(i, g); }
  }

  lemma GroupAfter(i: nat, g: nat)
    requires g == 1 || g == 2 || g == 4 || g == 8
    ensures (i + g) / g == i / g + 1
    ensures i < g ==> i / g == 0
  {
  }

  lemma LastGroup(i: nat, g: nat)
    requires (g == 1 || g == 2 || g == 4 || g == 8) && 16 - g <= i < 16
    ensures (i / g) % 2 == 1
  {
  }

  lemma AppendZeros(s: seq<bit>, n: nat)
    ensures LsbVal(s + Zeros(n)) == LsbVal(s)
  {
    LsbValConcat(s, Zeros(n));
    ZerosValue(n);
    ShlOfZero(|s|);
  }

  lemma {:induction false} ShlOfZero(n: nat)
    ensures Shl(0, n) == 0
  {
    if n > 0 { ShlOfZero(n - 1); }
  }

  // ---- the four rounds ----

  /** The low 16 bits of n, reversed. */
  function BitReverse16(n: nat): nat {
    var n1 := SwapGroups(n, 0xAAAA, 0x5555, 1);
    var n2 := SwapGroups(n1, 0xCCCC, 0x3333, 2);
    var n3 := SwapGroups(n2, 0xF0F0, 0x0F0F, 4);
    SwapGroups(n3, 0xFF00, 0x00FF, 8)
  }

  /** The low n bits, reversed: reverse 16 and shift the rest out. */
  function ReversedLow(v: nat, n: nat): nat
    requires n <= 16
  {
    Shr(BitReverse16(v), 16 - n)
  }

  /** Masks below 2^n see only the n low bits. */
  lemma {:induction false} MaskSeesLow(v: nat, m: nat, n: nat)
    requires m < Pow2(n)
    ensures BitAnd(v, m) == BitAnd(Low(v, n), m)
    decreases n
  {
    if n > 0 {
      MaskSeesLow(v / 2, m / 2, n - 1);
      assert Low(v, n) % 2 == v % 2 && Low(v, n) / 2 == Low(v / 2, n - 1);
      AndSymmetric(v, m, n);
    }
  }

  lemma AndSymmetric(v: nat, m: nat, n: nat)
    requires n > 0
    ensures Low(v, n) == v % 2 + 2 * Low(v / 2, n - 1)
  {
  }

  /** All rounds together reverse the 16 bits. */
  lemma RoundsReverse(s: seq<bit>, i: nat)
    requires |s| == 16 && i < 16
    ensures Swapped(Swapped(Swapped(Swapped(s, 1), 2), 4), 8)[i] == s[15 - i]
  {
    var s2 := Swapped(Swapped(s, 1), 2);
    QuadReversed(s);
    NibblesReversed(s2, i);
  }

  lemma QuadReversed(s: seq<bit>)
    requires |s| == 16
    ensures forall k :: 0 <= k < 4 ==>
      Swapped(Swapped(s, 1), 2)[4 * k] == s[4 * k + 3] && Swapped(Swapped(s, 1), 2)[4 * k + 1] == s[4 * k + 2]
      && Swapped(Swapped(s, 1), 2)[4 * k + 2] == s[4 * k + 1] && Swapped(Swapped(s, 1), 2)[4 * k + 3] == s[4 * k]
  {
  }

  lemma NibblesReversed(s: seq<bit>, i: nat)
    requires |s| == 16 && i < 16
    ensures Swapped(Swapped(s, 4), 8)[i] == s[4 * (3 - i / 4) + i % 4]
  {
  }

  /** The masked swaps reverse the low 16 bits of a word. */
  lemma BitReverse16IsReverse(n: nat)
    ensures BitReverse16(n) == BitReverse(n, 16)
  {
    hide BitAnd, BitOr, Shl, Shr, Low, LsbVal, MsbVal, Groups, Swapped;
    var s := Lsb(n, 16);
    LsbValOfLsb(n, 16);
    Pow2Values();
    MaskSeesLow(n, 0xAAAA, 16);
    MaskSeesLow(n, 0x5555, 16);
    GroupMask(1, true); GroupMask(1, false);
    GroupMask(2, true); GroupMask(2, false);
    GroupMask(4, true); GroupMask(4, false);
    GroupMask(8, true); GroupMask(8, false);
    var s1 := Swapped(s, 1);
    var s2 := Swapped(s1, 2);
    var s3 := Swapped(s2, 4);
    var s4 := Swapped(s3, 8);
    SwapValue(s, 1);
    SwapValue(s1, 2);
    SwapValue(s2, 4);
    SwapValue(s3, 8);
    forall i | 0 <= i < 16
      ensures s4[i] == s[15 - i]
    {
      RoundsReverse(s, i);
    }
    MsbLsbReverse(s, s4);
  }

  /** Reversing fewer bits is reversing 16 and shifting the zeros out. */
  lemma BitReverseByShift(v: nat, n: nat)
    requires n <= 16 && v < Pow2(n)
    ensures ReversedLow(v, n) == BitReverse(v, n)
  {
    BitReverse16IsReverse(v);
    hide Lsb, Shr, Shl, MsbVal, BitReverse16;
    LsbAppend(v, n, 16 - n);
    ShrBelow(v, n, 1);
    ShlPow2(n);
    var zeros := Lsb(0, 16 - n);
    MsbValConcat(Lsb(v, n), zeros);
    LsbOfZero(16 - n);
    ShrOfShl(MsbVal(Lsb(v, n)), 16 - n);
  }

  lemma {:induction false} LsbOfZero(n: nat)
    ensures MsbVal(Lsb(0, n)) == 0
  {
    if n > 0 {
      LsbOfZero(n - 1);
      LsbAppend(0, n - 1, 1);
      ShrOfZero(n - 1);
      assert Lsb(0, n)[..n - 1] == Lsb(0, n - 1);
    }
  }

  lemma {:induction false} ShrOfZero(n: nat)
    ensures Shr(0, n) == 0
  {
    if n > 0 { ShrOfZero(n - 1); }
  }
}
