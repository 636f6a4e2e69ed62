/** The compressor's output side: bytes already pushed, and a word of pending bits. */
module BitWriters {
  import opened Bits
  import opened FixedCodes
  import opened Lz77
  import opened Inflate

  /** The bits of a byte string, each byte least significant bit first. */
  function BytesBits(bs: seq<byte>): (s: seq<bit>)
    ensures |s| == 8 * |bs|
  {
    if |bs| == 0 then [] else BytesBits(bs[..|bs| - 1]) + Lsb(bs[|bs| - 1], 8)
  }

  /** The decoder's stream over some bytes shows exactly their bits. */
  lemma {:induction false} BytesShow(bs: seq<byte>, rest: seq<byte>)
    ensures Shows(bs + rest, 0, BytesBits(bs))
  {
    hide Shows, Lsb;
    if |bs| == 0 {
      NothingShows(bs + rest);
    } else {
      var n := |bs| - 1;
      assert bs + rest == bs[..n] + ([bs[n]] + rest);
      BytesShow(bs[..n], [bs[n]] + rest);
      ByteShows(bs + rest, n);
      ShowsSplit(bs + rest, 0, BytesBits(bs[..n]), Lsb(bs[n], 8));
    }
  }

  lemma ByteShows(input: seq<byte>, n: nat)
    requires n < |input|
    ensures Shows(input, 8 * n, Lsb(input[n], 8))
  {
    StreamByte(input, n);
  }

  lemma NothingShows(input: seq<byte>)
    ensures Shows(input, 0, [])
  {
  }

  class BitWriter {
    var out: seq<byte>
    var bitbuf: nat
    var bitcount: nat

    constructor ()
      ensures out == [] && bitbuf == 0 && bitcount == 0
    {
      out, bitbuf, bitcount := [], 0, 0;
    }

    /** Fewer than eight bits are pending and the word holds nothing above them. */
    ghost predicate Ok()
      reads this
    {
      bitcount < 8 && bitbuf < Pow2(bitcount)
    }

    /** Everything written so far. */
    ghost function Written(): seq<bit>
      reads this
    {
      BytesBits(out) + Lsb(bitbuf, bitcount)
    }

    /** Pushes whole bytes out of the word. */
    method Flush()
      requires bitbuf < Pow2(bitcount)
      modifies this
      ensures Ok() && Written() == old(Written()) && bitcount == old(bitcount) % 8
    {
      hide Lsb, BytesBits, Pow2;
      while bitcount >= 8
        invariant bitbuf < Pow2(bitcount) && Written() == old(Written())
        invariant bitcount % 8 == old(bitcount) % 8
        decreases bitcount
      {
        FlushByte();
      }
    }

    method FlushByte()
      requires bitbuf < Pow2(bitcount) && bitcount >= 8
      modifies this
      ensures bitbuf < Pow2(bitcount) && Written() == old(Written()) && bitcount == old(bitcount) - 8
    {
      hide Lsb, Pow2, BitAnd, Shr, Low;
      LsbAppend(bitbuf, 8, bitcount - 8);
      ShiftFits(bitbuf, bitcount);
      LowByteIs(bitbuf);
      ghost var before := out;
      out := out + [BitAnd(bitbuf, 0xff)];
      assert out[..|out| - 1] == before;
      assert BytesBits(out) == BytesBits(before) + Lsb(bitbuf, 8);
      assert BytesBits(out) + Lsb(Shr(bitbuf, 8), bitcount - 8)
          == BytesBits(before) + (Lsb(bitbuf, 8) + Lsb(Shr(bitbuf, 8), bitcount - 8));
      bitbuf := Shr(bitbuf, 8);
      bitcount := bitcount - 8;
    }

    static lemma ShiftFits(v: nat, n: nat)
      requires n >= 8 && v < Pow2(n)
      ensures Shr(v, 8) < Pow2(n - 8)
    {
      ShlOfPow2(n - 8, 8);
      ShrBelow(v, 8, Pow2(n - 8));
    }

    static lemma LowByteIs(v: nat)
      ensures BitAnd(v, 0xff) == Low(v, 8) < 256 && Lsb(Low(v, 8), 8) == Lsb(v, 8)
    {
      Pow2Values();
      AndMask(v, 8);
      LowBound(v, 8);
      LsbValOfLsb(v, 8);
      LsbOfLsbVal(Lsb(v, 8));
    }

    /** Appends the n low bits of code, least significant first. */
    method Add(code: nat, n: nat)
      requires Ok() && n <= 24 && code < Pow2(n)
      modifies this
      ensures Ok() && Written() == old(Written()) + Lsb(code, n)
      ensures bitcount == (old(bitcount) + n) % 8
    {
      LsbExtend(bitbuf, bitcount, code, n);
      OrShifted(bitbuf, code, bitcount);
      Shl32Exact(code, n, bitcount);
      SumFits(bitbuf, bitcount, code, n);
      assert BytesBits(out) + (Lsb(bitbuf, bitcount) + Lsb(code, n)) == Written() + Lsb(code, n);
      bitbuf := BitOr(bitbuf, Shl32(code, bitcount));
      bitcount := bitcount + n;
      Flush();
    }

    static lemma SumFits(a: nat, m: nat, c: nat, n: nat)
      requires a < Pow2(m) && c < Pow2(n)
      ensures a + Shl(c, m) < Pow2(m + n)
    {
      ShlMonotone(c + 1, Pow2(n), m);
      ShlAdd(c, 1, m);
      ShlPow2(m);
      ShlOfPow2(n, m);
    }

    /** Reverses the low codebits bits of code. */
    static method ZlibBitrev(code: nat, codebits: nat) returns (res: nat)
      ensures res == BitReverse(code, codebits)
    {
      var c, left := code, codebits;
      res := 0;
      while left > 0
        invariant 0 <= left <= codebits && c == Shr(code, codebits - left)
        invariant res == MsbVal(Lsb(code, codebits - left))
        decreases left
      {
        ghost var done := codebits - left;
        LsbAppend(code, done, 1);
        assert Lsb(c, 1) == [c % 2];
        MsbValConcat(Lsb(code, done), [c % 2]);
        SingleBit(res, c);
        ShrShr(code, done, 1);
        res := BitOr(Shl(res, 1), BitAnd(c, 1));
        c := Shr(c, 1);
        left := left - 1;
      }
      assert codebits - left == codebits;
    }

    static lemma SingleBit(res: nat, c: nat)
      ensures BitOr(Shl(res, 1), BitAnd(c, 1)) == Shl(res, 1) + c % 2
      ensures MsbVal([c % 2]) == c % 2
    {
      assert Shl(res, 1) == 2 * res;
      assert MsbVal([c % 2]) == 2 * MsbVal([]) + c % 2;
      if c == 0 {
      } else {
        assert BitAnd(c / 2, 0) == 0;
        assert BitAnd(c, 1) == c % 2;
      }
      if res > 0 && c % 2 == 1 {
        assert BitOr(res, 0) == res;
      }
    }

    /** Appends a code, most significant bit first. */
    method HuffA(code: nat, n: nat)
      requires Ok() && n <= 24 && code < Pow2(n)
      modifies this
      ensures Ok() && Written() == old(Written()) + Lsb(BitReverse(code, n), n)
    {
      ReversedCode(code, n);
      var r := ZlibBitrev(code, n);
      Add(r, n);
    }

    static lemma CodeIsFixed(n: nat)
      requires n < 288
      ensures FixedCode(n) < Pow2(FixedSize(n)) && CodeBits(n) == Lsb(BitReverse(FixedCode(n), FixedSize(n)), FixedSize(n))
      ensures n <= 143 ==> FixedCode(n) == 0x30 + n && FixedSize(n) == 8
      ensures 144 <= n <= 255 ==> FixedCode(n) == 0x190 + n - 144 && FixedSize(n) == 9
      ensures 256 <= n <= 279 ==> FixedCode(n) == n - 256 && FixedSize(n) == 7
      ensures 280 <= n ==> FixedCode(n) == 0xc0 + n - 280 && FixedSize(n) == 8
    {
      FixedCodeIsCanonical(n);
    }

    /** Appends the fixed code of symbol n. */
    method Huff(n: nat)
      requires Ok() && n < 288
      modifies this
      ensures Ok() && Written() == old(Written()) + CodeBits(n)
    {
      CodeIsFixed(n);
      hide Lsb, BitReverse, Pow2, CodeBits, FixedCode, FixedSize, BytesBits, BitWriter.Written;
      var code: nat, size: nat;
      if n <= 143 {
        code, size := 0x30 + n, 8;
      } else if n <= 255 {
        code, size := 0x190 + n - 144, 9;
      } else if n <= 279 {
        code, size := n - 256, 7;
      } else {
        code, size := 0xc0 + n - 280, 8;
      }
      assert code == FixedCode(n) && size == FixedSize(n);
      HuffA(code, size);
    }

    /** Appends a length and distance, looking up their symbols in the sorted base tables. */
    method Reference(len: nat, dist: nat)
      requires Ok() && 3 <= len <= 258 && 1 <= dist <= 32767
      modifies this
      ensures Ok() && Written() == old(Written()) + ReferenceBits(len, dist)
    {
      var j := 0;
      while j < 28 && len > LengthBase(j + 1) - 1
        invariant j < 29 && LengthBase(j) <= len && LengthSymbol(len, j) == LengthSymbol(len, 0)
        decreases 29 - j
      {
        j := j + 1;
      }
      ghost var start := Written();
      var k := 0;
      while k < 29 && dist > DistBase(k + 1) - 1
        invariant k < 30 && DistBase(k) <= dist && DistSymbol(dist, k) == DistSymbol(dist, 0)
        decreases 30 - k
      {
        k := k + 1;
      }
      WriteSymbols(len, dist, j, k);
    }

    method WriteSymbols(len: nat, dist: nat, j: nat, k: nat)
      requires Ok() && 3 <= len <= 258 && 1 <= dist <= 32767
      requires j == LengthSymbol(len, 0) && k == DistSymbol(dist, 0)
      modifies this
      ensures Ok() && Written() == old(Written()) + ReferenceBits(len, dist)
    {
      hide LengthBase, DistBase, LengthExtra, DistExtra, CodeBits, Lsb, BytesBits, LengthSymbol, DistSymbol, BitReverse;
      ghost var start := Written();
      Huff(j + 257);
      LengthFits(j, len);
      ExtraBits(len - LengthBase(j), LengthExtra(j));
      FiveBits(k);
      HuffA(k, 5);
      DistFits(k, dist);
      ExtraBits(dist - DistBase(k), DistExtra(k));
      ghost var a, b := CodeBits(j + 257), Lsb(len - LengthBase(j), LengthExtra(j));
      ghost var c, d := Lsb(BitReverse(k, 5), 5), Lsb(dist - DistBase(k), DistExtra(k));
      assert start + a + b + c + d == start + (a + b + c + d);
    }

    /** Appends an extra-bits field, if the symbol has one. */
    method ExtraBits(v: nat, n: nat)
      requires Ok() && n <= 24 && v < Pow2(n)
      modifies this
      ensures Ok() && Written() == old(Written()) + Lsb(v, n)
    {
      if n > 0 { Add(v, n); }
    }

    static lemma NoBits(v: nat)
      ensures Lsb(v, 0) == []
    {
    }

    static lemma FiveBits(k: nat)
      requires k < 32
      ensures k < Pow2(5)
    {
      Pow2Values();
    }

    /** Appends one more zero bit to n of them. */
    method PadBit(ghost start: seq<bit>, ghost n: nat)
      requires Ok() && Written() == start + Lsb(0, n)
      modifies this
      ensures Ok() && Written() == start + Lsb(0, n + 1) && bitcount == (old(bitcount) + 1) % 8
    {
      ZerosAppend(n);
      hide Lsb, Pow2, BytesBits;
      Add(0, 1);
    }

    /** Pads with zero bits to a byte boundary. */
    method Pad() returns (ghost n: nat)
      requires Ok()
      modifies this
      ensures Ok() && bitcount == 0 && n < 8 && Written() == old(Written()) + Lsb(0, n)
    {
      ghost var start := Written();
      n := 0;
      NoBits(0);
      hide Lsb, Pow2, BytesBits, Written, Ok;
      while bitcount != 0
        invariant Ok() && Written() == start + Lsb(0, n) && n <= 8
        invariant if bitcount == 0 then n == 0 || old(bitcount) + n == 8 else bitcount == old(bitcount) + n
        invariant n > 0 ==> old(bitcount) > 0
        decreases 8 - n
      {
        PadBit(start, n);
        n := n + 1;
      }
    }

    static lemma ZerosAppend(n: nat)
      ensures Lsb(0, n + 1) == Lsb(0, n) + Lsb(0, 1) && 0 < Pow2(1)
    {
      LsbAppend(0, n, 1);
      ShrBelow(0, n, 1);
      ShlPow2(n);
    }
  }
}
