/** Decoding the AC coefficients of a JPEG block: a combined run and magnitude lookup in front of the
    plain Huffman decoder, against the procedures of section F.2.2 of ITU-T T.81. */
module Jpegs {
  import opened Bits
  import opened Contexts
  import opened Inflate
  import opened JpegBits
  import opened JpegHuffman
  import opened JpegLookup
  import opened JpegScan

  // ---- the reference: one coefficient at a time, plain decoding ----

  /** An AC table: the length histogram, the symbols in code order, and the dequantisation factors. */
  datatype AcTable = AcTable(count: seq<nat>, values: seq<byte>, dequant: seq<nat>)

  ghost predicate UsableTable(t: AcTable) {
    && Histogram(t.count) && Kraft(Sizes(t.count)) && FlagFree(Sizes(t.count))
    && |t.values| == 256 && |t.dequant| == 64
  }

  /** Zigzag position to row-major position; fifteen extra entries catch overlong runs. */
  function ZigzagPlace(k: nat): (z: nat)
    requires k < 79
    ensures z < 64
  {
    if k < 8 then [0, 1, 8, 16, 9, 2, 3, 10][k]
    else if k < 16 then [17, 24, 32, 25, 18, 11, 4, 5][k - 8]
    else if k < 24 then [12, 19, 26, 33, 40, 48, 41, 34][k - 16]
    else if k < 32 then [27, 20, 13, 6, 7, 14, 21, 28][k - 24]
    else if k < 40 then [35, 42, 49, 56, 57, 50, 43, 36][k - 32]
    else if k < 48 then [29, 22, 15, 23, 30, 37, 44, 51][k - 40]
    else if k < 56 then [58, 59, 52, 45, 38, 31, 39, 46][k - 48]
    else if k < 64 then [53, 60, 61, 54, 47, 55, 62, 63][k - 56]
    else 63
  }

  /** Truncation to a 16-bit signed integer. */
  function Short(v: int): int {
    (v + 0x8000) % 0x1_0000 - 0x8000
  }

  datatype AcResult = AcDone(data: seq<int>, end: nat) | BadCode

  /** The coefficients from zigzag position k on, read at bit p of the scan (figure F.13). */
  function AcFrom(t: AcTable, file: seq<byte>, from: Feed, p: nat, k: nat, data: seq<int>): AcResult
    requires |t.count| == 16 && |Sizes(t.count)| <= |t.values| && |t.dequant| == 64 && |data| == 64
    decreases 64 - k, k
  {
    if k >= 64 then AcDone(data, p)
    else
      match Plain(t.count, MsbVal(ScanBits(file, from, p, 16)))
      case Bad => BadCode
      case Decoded(i, length) =>
        PlainIsSymbol(t.count, MsbVal(ScanBits(file, from, p, 16)));
        var rs := t.values[i];
        var run, size := rs / 16, rs % 16;
        if size == 0 then
          if run != 15 then AcDone(data, p + length)
          else AcFrom(t, file, from, p + length, k + 16, data)
        else
          var value := Extend(MsbVal(ScanBits(file, from, p + length, size)), size);
          var zig := ZigzagPlace(k + run);
          AcFrom(t, file, from, p + length + size, k + run + 1, data[zig := Short(value * t.dequant[zig])])
  }

  // ---- the reference, unfolded once ----

  lemma AcBad(t: AcTable, file: seq<byte>, from: Feed, p: nat, k: nat, data: seq<int>)
    requires UsableTable(t) && |data| == 64 && k < 64
    requires Plain(t.count, MsbVal(ScanBits(file, from, p, 16))) == Bad
    ensures AcFrom(t, file, from, p, k, data) == BadCode
  {
  }

  lemma AcZero(t: AcTable, file: seq<byte>, from: Feed, p: nat, k: nat, data: seq<int>)
    requires UsableTable(t) && |data| == 64 && k < 64
    ensures var d := Plain(t.count, MsbVal(ScanBits(file, from, p, 16)));
      d.Decoded? && 0 <= d.index < 256 && t.values[d.index] % 16 == 0 ==>
        AcFrom(t, file, from, p, k, data)
        == if t.values[d.index] != 0xf0 then AcDone(data, p + d.length)
           else AcFrom(t, file, from, p + d.length, k + 16, data)
  {
    hide Plain, MsbVal, ScanBits, ZigzagPlace, Extend, Short, Kraft, FlagFree, Start, SizeList;
    PlainIsSymbol(t.count, MsbVal(ScanBits(file, from, p, 16)));
  }

  lemma AcValue(t: AcTable, file: seq<byte>, from: Feed, p: nat, k: nat, data: seq<int>)
    requires UsableTable(t) && |data| == 64 && k < 64
    ensures var d := Plain(t.count, MsbVal(ScanBits(file, from, p, 16)));
      d.Decoded? && 0 <= d.index < 256 && t.values[d.index] % 16 != 0 ==>
        var run, size := t.values[d.index] / 16, t.values[d.index] % 16;
        var value := Extend(MsbVal(ScanBits(file, from, p + d.length, size)), size);
        var zig := ZigzagPlace(k + run);
        AcFrom(t, file, from, p, k, data)
        == AcFrom(t, file, from, p + d.length + size, k + run + 1, data[zig := Short(value * t.dequant[zig])])
  {
    hide Plain, MsbVal, ScanBits, ZigzagPlace, Extend, Short, Kraft, FlagFree, Start, SizeList;
    PlainIsSymbol(t.count, MsbVal(ScanBits(file, from, p, 16)));
  }

  /** The bias added to a magnitude whose first bit is zero. */
  function Bias(n: nat): (b: int)
    requires n < 16
    ensures b == 1 - Pow2(n)
  {
    Pow2Values();
    [0, -1, -3, -7, -15, -31, -63, -127, -255, -511, -1023, -2047, -4095, -8191, -16383, -32767][n]
  }

  // ---- the combined lookup ----

  /** The entry for index x: value, run and total length packed into 16 bits, or 0. */
  function FastAcEntry(t: AcTable, x: nat): int
    requires |t.count| == 16 && |t.values| == 256
  {
    var sizes := Sizes(t.count);
    var e := FastEntry(sizes, x, |sizes|);
    FastEntryIsSymbol(sizes, x);
    if e >= NOT_FAST then 0
    else Packed(sizes[e], t.values[e], x)
  }

  lemma FastEntryIsSymbol(sizes: seq<nat>, x: nat)
    requires Sorted(sizes)
    ensures FastEntry(sizes, x, |sizes|) < NOT_FAST ==> FastEntry(sizes, x, |sizes|) < |sizes|
  {
    FastEntryFinds(sizes, 128 * x, |sizes|);
  }

  /** The magnitude bits after a code of `length` bits within the 9-bit index x, as a signed value. */
  function IndexValue(x: nat, length: nat, size: nat): int
    requires 1 <= size && length + size <= FAST_BITS
  {
    var k := Shr(BitAnd(Shl(x, length), 511), FAST_BITS - size);
    if k < Pow2(size - 1) then k - Pow2(size) + 1 else k
  }

  function Packed(length: nat, rs: byte, x: nat): int {
    var run, size := rs / 16, rs % 16;
    if size == 0 || length + size > FAST_BITS then 0
    else
      var k := IndexValue(x, length, size);
      if -128 <= k <= 127 then k * 256 + run * 16 + length + size else 0
  }

  /** An entry that is not zero unpacks to its parts. */
  lemma Unpack(length: nat, rs: byte, x: nat)
    requires 1 <= length && Packed(length, rs, x) != 0
    ensures var r, size := Packed(length, rs, x), rs % 16;
      && 1 <= size && length + size <= FAST_BITS
      && r / 256 == IndexValue(x, length, size)
      && (r / 16) % 16 == rs / 16 && r % 16 == length + size
      && -0x8000 <= r < 0x8000
  {
    hide IndexValue;
    var run, size := rs / 16, rs % 16;
    var k := IndexValue(x, length, size);
    var low := run * 16 + length + size;
    assert Packed(length, rs, x) == k * 256 + low && 0 <= low < 256;
    Packing(k, low);
    assert (k * 256 + low) / 16 == k * 16 + run;
    assert (k * 16 + run) % 16 == run;
  }

  lemma Packing(k: int, low: nat)
    requires low < 256
    ensures (k * 256 + low) / 256 == k && (k * 256 + low) % 16 == low % 16
  {
  }

  /** The magnitude bits cut out of the lookup index are those that follow the code. */
  lemma IndexValueIsExtend(bits: seq<bit>, length: nat, size: nat)
    requires |bits| == 16 && 1 <= size && length + size <= FAST_BITS
    ensures IndexValue(MsbVal(bits[..9]), length, size) == Extend(MsbVal(bits[length..length + size]), size)
  {
    hide Shl, Shr, MsbVal, BitAnd, Low, Pow2;
    var x := bits[..9];
    var code, rest := x[..length], x[length..];
    assert x == code + rest;
    var zeros: seq<bit> := seq<bit>(length, _ => 0);
    MsbValConcat(code, rest);
    ShlAdd(Shl(MsbVal(code), |rest|), MsbVal(rest), length);
    ShlShl(MsbVal(code), |rest|, length);
    MsbValConcat(rest, zeros);
    ZeroValue(zeros);
    MsbValBound(rest + zeros);
    Pow2Values();
    AndMask(Shl(MsbVal(x), length), 9);
    LowOfShifted(MsbVal(rest + zeros), MsbVal(code), 9);
    MsbValSplit(rest + zeros, size);
    assert (rest + zeros)[..size] == bits[length..length + size];
  }

  /** The nine top bits of a 16-bit window are the lookup index. */
  lemma IndexIsTop(bits: seq<bit>)
    requires |bits| == 16
    ensures MsbVal(bits) / 128 == MsbVal(bits[..9])
  {
    MsbValSplit(bits, 9);
    var w := MsbVal(bits);
    var v := Shr(w, 7);
    ShrBelow(w, 7, v);
    ShrBelow(w, 7, v + 1);
    ShlValues(v);
    ShlValues(v + 1);
  }

  /** A combined entry stands for the symbol plain decoding finds, with the run and the signed value
      that follow it, and consumes exactly their bits. */
  lemma FastAcRefines(t: AcTable, bits: seq<bit>)
    requires UsableTable(t) && |bits| == 16
    ensures var r := FastAcEntry(t, MsbVal(bits[..9]));
      r != 0 ==>
        && Plain(t.count, MsbVal(bits)).Decoded?
        && var length, i := Plain(t.count, MsbVal(bits)).length, Plain(t.count, MsbVal(bits)).index;
        && 0 <= i < 256 && 1 <= t.values[i] % 16
        && (r / 16) % 16 == t.values[i] / 16
        && r % 16 == length + t.values[i] % 16 <= FAST_BITS
        && r / 256 == Extend(MsbVal(bits[length..length + t.values[i] % 16]), t.values[i] % 16)
  {
    hide FastEntry, Start, MsbVal, Packed, IndexValue, Extend, SymbolAt;
    var sizes, w, x := Sizes(t.count), MsbVal(bits), MsbVal(bits[..9]);
    IndexIsTop(bits);
    var e := FastEntry(sizes, x, |sizes|);
    FastEntryIsSymbol(sizes, x);
    if FastAcEntry(t, x) != 0 {
      FastEntryFinds(sizes, w, |sizes|);
      DecodeFinds(sizes, w, |sizes|, e);
      assert Plain(t.count, w) == Decoded(e, sizes[e]);
      Unpack(sizes[e], t.values[e], x);
      IndexValueIsExtend(bits, sizes[e], t.values[e] % 16);
    }
  }

  /** Fills the combined table from a built Huffman table. */
  method BuildFastAc(fac: array<int>, h: JpegHuffman, ghost t: AcTable)
    requires |t.count| == 16 && |t.values| == 256 && h.Built(t.count) && h.values[..] == t.values
    requires fac.Length == 512 && fac != h.maxcode && fac != h.delta
    modifies fac
    ensures forall x :: 0 <= x < 512 ==> fac[x] == FastAcEntry(t, x)
  {
    hide LengthsBelow, FastEntry, BitAnd, Shl, Shr, Pow2, Kraft;
    ghost var sizes := Sizes(t.count);
    for i := 0 to 512
      invariant forall x :: 0 <= x < i ==> fac[x] == FastAcEntry(t, x)
    {
      var fast: nat := h.fast[i];
      fac[i] := 0;
      if fast < 255 {
        FastEntryIsSymbol(sizes, i);
        assert h.size[fast] == h.size[..|sizes|][fast];
        var rs := h.values[fast];
        var run, magbits, len := rs / 16, rs % 16, h.size[fast];
        if magbits > 0 && len + magbits <= FAST_BITS {
          var k: int := Shr(BitAnd(Shl(i, len), 511), FAST_BITS - magbits);
          if k < Pow2(magbits - 1) {
            // the unsigned sum wraps, and reads as negative again when stored
            k := k - Pow2(magbits) + 1;
          }
          if -128 <= k <= 127 {
            fac[i] := k * 256 + run * 16 + len + magbits;
          }
        }
      }
    }
  }

  /** Where the reader stands after the byte b was read from position p, a 0xff. */
  lemma FillStep(file: seq<byte>, p: nat)
    requires ByteAt(file, p) == 0xff
    ensures p < |file| && AfterFill(file, p) == AfterFill(file, p + 1)
  {
  }

  class Jpeg {
    const s: Context
    var codeBuffer: nat
    var codeBits: int
    var marker: nat
    var nomore: bool
    // where the scan started and how many of its bytes have entered the window
    ghost var from: Feed
    ghost var pulled: nat

    constructor (s: Context)
      ensures this.s == s
    {
      this.s := s;
    }

    ghost predicate Reading()
      reads this, s
    {
      Holds(s.file, from, pulled, Feed(s.pos, nomore), codeBits, codeBuffer)
    }

    /** How many bits of the scan have been consumed. */
    ghost function Position(): nat
      requires codeBits <= 8 * pulled
      reads this
    {
      8 * pulled - codeBits
    }

    /** The next n bits of the scan. */
    ghost function Ahead(n: nat): seq<bit>
      requires codeBits <= 8 * pulled
      reads this
    {
      ScanBits(s.file, from, Position(), n)
    }

    /** At least 16 bits are in the window, or the scan has ended and zeros follow. */
    ghost predicate Ready()
      reads this
    {
      codeBits >= 16 || nomore
    }

    /** Starts a scan, or resumes it after a restart marker. */
    method Reset()
      modifies this
      ensures Reading() && Position() == 0 && from == Feed(s.pos, false)
    {
      codeBits, codeBuffer, nomore, marker := 0, 0, false, 0xff;
      from, pulled := Feed(s.pos, false), 0;
      DeliversStart(s.file, from);
      WindowOfNone();
      assert ScanBits(s.file, from, 0, 0) == [];
    }

    /** Fills the window byte by byte until more than 24 bits are held or a marker comes. */
    method GrowBuffer()
      requires Reading() && codeBits <= 24
      modifies this, s
      ensures Reading() && from == old(from) && Position() == old(Position())
      ensures codeBits > 24 || nomore
      ensures old(nomore) ==> nomore && codeBits > 24
    {
      hide Holds;
      BitsBounded();
      var more := true;
      while more
        invariant Reading() && codeBits <= 8 * pulled && from == old(from) && Position() == old(Position())
        invariant if more then codeBits <= 24 else codeBits > 24 || nomore
        invariant old(nomore) ==> nomore && (more || codeBits > 24)
        decreases if more then 33 - codeBits else 0
      {
        more := GrowByte();
      }
    }

    lemma BitsBounded()
      requires Reading()
      ensures codeBits <= 8 * pulled && codeBits <= 32 && (codeBits < 0 ==> nomore)
    {
    }

    /** One pass: a byte joins the window, unless a marker is met. */
    method GrowByte() returns (more: bool)
      requires Reading() && codeBits <= 24
      modifies this, s
      ensures Reading() && codeBits <= 8 * pulled && from == old(from)
      ensures 8 * pulled - codeBits == 8 * old(pulled) - old(codeBits)
      ensures more ==> codeBits == old(codeBits) + 8 <= 24 && nomore == old(nomore)
      ensures !more ==> codeBits > 24 || nomore
      ensures old(nomore) ==> nomore && (more || codeBits > 24)
    {
      hide Delivers, FeedAt, Window, Shl, BitOr, AfterFill;
      ghost var file, g, buffer, bits := s.file, Feed(s.pos, nomore), codeBuffer, codeBits;
      var b: byte := 0;
      if !nomore {
        b := s.Get8();
      }
      if b == 0xff {
        FillStep(file, g.pos);
        var c := SkipFill(g.pos);
        if c != 0 {
          marker := c;
          nomore := true;
          DeliversMarker(file, from, pulled, g, Feed(s.pos, true));
          return false;
        }
      }
      assert FeedByte(file, g) == b && FeedNext(file, g) == Feed(s.pos, nomore);
      PullGrows(file, from, pulled, g, bits, buffer);
      codeBuffer := BitOr(codeBuffer, Shl(b, 24 - codeBits));
      codeBits := codeBits + 8;
      pulled := pulled + 1;
      more := codeBits <= 24;
    }

    /** Reads past fill bytes to the byte that ends them. */
    method SkipFill(ghost p: nat) returns (c: byte)
      requires ByteAt(s.file, p) == 0xff && s.pos == Next(s.file, p)
      modifies s
      ensures c == ByteAt(s.file, AfterFill(s.file, p)) && s.pos == Next(s.file, AfterFill(s.file, p))
    {
      FillStep(s.file, p);
      ghost var q := p + 1;
      c := s.Get8();
      while c == 0xff
        invariant c == ByteAt(s.file, q) && s.pos == Next(s.file, q)
        invariant AfterFill(s.file, q) == AfterFill(s.file, p)
        decreases |s.file| - q
      {
        FillStep(s.file, q);
        q := q + 1;
        c := s.Get8();
      }
    }

    /** The top n bits of the window. */
    method Peek(n: nat) returns (v: nat)
      requires Reading() && 1 <= n <= 32 && (n <= codeBits || nomore)
      ensures codeBits <= 8 * pulled && v == MsbVal(Ahead(n)) < Pow2(n)
    {
      hide Holds, Shr, BitAnd, Low, MsbVal, Pow2;
      BitsBounded();
      PeekIsScan(s.file, from, pulled, Feed(s.pos, nomore), codeBits, codeBuffer, n);
      MsbValBound(Ahead(n));
      AndMask(Shr(codeBuffer, 32 - n), n);
      LowBound(Shr(codeBuffer, 32 - n), n);
      v := BitAnd(Shr(codeBuffer, 32 - n), Pow2(n) - 1);
    }

    /** Shifts n bits out of the window. */
    method Consume(n: nat)
      requires Reading() && codeBits <= 8 * pulled && (n <= codeBits || nomore)
      modifies this`codeBuffer, this`codeBits
      ensures Reading() && codeBits == old(codeBits) - n && Position() == old(Position()) + n
    {
      hide Holds;
      ConsumeMoves(s.file, from, pulled, Feed(s.pos, nomore), codeBits, codeBuffer, n);
      codeBuffer := Shl32(codeBuffer, n);
      codeBits := codeBits - n;
    }

    /** Decodes one symbol; negative when no code starts the bits or too few are left. */
    method HuffDecode(h: JpegHuffman, ghost count: seq<nat>) returns (v: int)
      requires Reading() && h.Built(count)
      modifies this, s
      ensures from == old(from) && codeBits <= 8 * pulled
      ensures v >= 0 ==> Reading() && Found(h, count, old(Ahead(16)), v, Position() - old(Position()))
      ensures old(Ready()) ==> (v < 0 <==> Lookup(count, MsbVal(old(Ahead(16)))) == Bad)
    {
      hide Holds, Start, FastEntry, Search, MsbVal, ScanBits, SizeList, Pow2;
      BitsBounded();
      if codeBits < 16 {
        GrowBuffer();
        BitsBounded();
      }
      Pow2Values();
      ghost var ahead, sizes := Ahead(16), Sizes(count);
      assert ahead == old(Ahead(16));
      var c := Peek(9);
      AheadPrefix(9);
      IndexIsTop(ahead);
      MsbValBound(ahead);
      LookupInRange(count, MsbVal(ahead));
      var k: nat := h.fast[c];
      assert k == FastEntry(sizes, MsbVal(ahead) / 128, |sizes|);
      if k < 255 {
        FastEntryIsSymbol(sizes, c);
        assert h.size[k] == h.size[..|sizes|][k];
        var length := h.size[k];
        if length > codeBits {
          return -1;
        }
        Consume(length);
        return h.values[k];
      }
      v := HuffSearch(h, count);
    }

    /** Finds the length of a long code by its bound, then its symbol by the offset. */
    method HuffSearch(h: JpegHuffman, ghost count: seq<nat>) returns (v: int)
      requires Reading() && h.Built(count) && Ready() && codeBits <= 8 * pulled
      requires Lookup(count, MsbVal(Ahead(16))) == Search(count, MsbVal(Ahead(16)), FAST_BITS + 1)
      modifies this`codeBuffer, this`codeBits
      ensures codeBits <= 8 * pulled
      ensures v >= 0 ==> Reading() && Found(h, count, old(Ahead(16)), v, Position() - old(Position()))
      ensures old(codeBits) >= 16 ==> (v < 0 <==> Lookup(count, MsbVal(old(Ahead(16)))) == Bad)
    {
      hide Holds, Start, FastEntry, Search, Lookup, MsbVal, ScanBits, SizeList, Pow2, LengthEntry;
      ghost var ahead := Ahead(16);
      MsbValBound(ahead);
      Pow2Values();
      LookupInRange(count, MsbVal(ahead));
      var temp := Peek(16);
      var k := FAST_BITS + 1;
      while temp >= h.maxcode[k]
        invariant 10 <= k <= 17
        invariant Search(count, temp, k) == Lookup(count, temp)
        decreases 17 - k
        modifies {}
      {
        assert h.maxcode[..][k] == h.maxcode[k];
        if k < 17 {
          assert LengthEntry(count, k, h.maxcode[..][k], h.delta[..][k]);
          SearchStep(count, temp, k, h.maxcode[k], h.delta[k]);
        }
        k := k + 1;
      }
      if k == 17 {
        SearchEnd(count, temp);
        codeBits := codeBits - 16;
        return -1;
      }
      assert LengthEntry(count, k, h.maxcode[..][k], h.delta[..][k]);
      SearchStep(count, temp, k, h.maxcode[k], h.delta[k]);
      if k > codeBits {
        return -1;
      }
      AheadPrefix(k);
      MsbValSplit(ahead, k);
      var top := Peek(k);
      var c := top + h.delta[k];
      Consume(k);
      return h.values[c];
    }

    lemma SearchStep(count: seq<nat>, w: nat, k: nat, bound: int, offset: int)
      requires |count| == 16 && 1 <= k <= 16 && LengthEntry(count, k, bound, offset)
      ensures Search(count, w, k) == if w < bound then Decoded(Shr(w, 16 - k) + offset, k) else Search(count, w, k + 1)
    {
      hide Start;
      LengthRange(count, k);
    }

    lemma SearchEnd(count: seq<nat>, w: nat)
      requires |count| == 16
      ensures Search(count, w, 17) == Bad
    {
    }

    /** The symbol the tables give for the bits has value v and a code of n bits. */
    ghost predicate Found(h: JpegHuffman, count: seq<nat>, bits: seq<bit>, v: int, n: int)
      requires |count| == 16 && h.values.Length == 256
      reads h.values
    {
      var d := Lookup(count, MsbVal(bits));
      d.Decoded? && 0 <= d.index < 256 && v == h.values[d.index] && n == d.length
    }

    lemma AheadPrefix(n: nat)
      requires codeBits <= 8 * pulled && n <= 16
      ensures Ahead(16)[..n] == Ahead(n)
    {
      hide ScanBit;
    }

    lemma AheadMiddle(a: nat, b: nat)
      requires codeBits <= 8 * pulled && a <= b <= 16
      ensures Ahead(16)[a..b] == ScanBits(s.file, from, Position() + a, b - a)
    {
      hide ScanBit;
    }

    /** Reads n magnitude bits and extends their sign. */
    method ExtendReceive(n: nat) returns (v: int)
      requires Reading() && codeBits <= 8 * pulled && 1 <= n <= 15
      modifies this, s
      ensures Reading() && codeBits <= 8 * pulled && from == old(from) && Position() == old(Position()) + n
      ensures v == Extend(MsbVal(old(Ahead(n))), n)
    {
      hide Holds, Shl, Shr, BitOr, BitAnd, Pow2, MsbVal, ScanBits;
      if codeBits < n {
        BitsBounded();
        GrowBuffer();
      }
      BitsBounded();
      assert Ahead(n) == old(Ahead(n));
      WindowBelow();
      Rotated(codeBuffer, n);
      TopBit(codeBuffer, n);
      PeekIsScan(s.file, from, pulled, Feed(s.pos, nomore), codeBits, codeBuffer, n);
      ConsumeMoves(s.file, from, pulled, Feed(s.pos, nomore), codeBits, codeBuffer, n);
      var negative := codeBuffer < 0x8000_0000;
      var k := BitOr(Shl32(codeBuffer, n), Shr(codeBuffer, 32 - n));
      codeBuffer := BitAnd(k, WORD - 1 - Mask(n));
      k := BitAnd(k, Mask(n));
      codeBits := codeBits - n;
      v := k + if negative then Bias(n) else 0;
    }

    lemma WindowBelow()
      requires Reading()
      ensures codeBuffer < WORD
    {
      WindowFits(ScanBits(s.file, from, 8 * pulled - codeBits, Held(codeBits)));
    }

    /** Takes a combined entry: its run, its value and all its bits at once. */
    method FastStep(r: int, ghost t: AcTable, dequant: array<nat>, data: array<int>, k: nat) returns (next: nat)
      requires Reading() && Ready() && codeBits <= 8 * pulled && UsableTable(t) && 1 <= k < 64
      requires dequant.Length == data.Length == 64 && dequant[..] == t.dequant
      requires r != 0 && r == FastAcEntry(t, MsbVal(Ahead(9)))
      modifies this`codeBuffer, this`codeBits, data
      ensures Reading() && codeBits <= 8 * pulled && next > k
      ensures AcFrom(t, s.file, from, Position(), next, data[..])
           == AcFrom(t, s.file, from, old(Position()), k, old(data[..]))
    {
      hide Holds, FastAcEntry, AcFrom, Plain, MsbVal, ScanBits, Extend, SizeList, Kraft, FlagFree;
      ghost var p, ahead, was := Position(), Ahead(16), data[..];
      BitsBounded();
      AheadPrefix(9);
      FastAcRefines(t, ahead);
      AcValue(t, s.file, from, p, k, was);
      AheadMiddle(Plain(t.count, MsbVal(ahead)).length, r % 16);
      next := k + (r / 16) % 16;
      var length := r % 16;
      Consume(length);
      var zig := ZigzagPlace(next);
      next := next + 1;
      data[zig] := Short((r / 256) * dequant[zig]);
      assert data[..] == was[zig := data[zig]];
    }

    /** Decodes a symbol and, if it has one, the magnitude after it. */
    method PlainStep(hac: JpegHuffman, ghost t: AcTable, dequant: array<nat>, data: array<int>, k: nat)
      returns (ok: bool, more: bool, next: nat)
      requires Reading() && Ready() && codeBits <= 8 * pulled && UsableTable(t) && 1 <= k < 64
      requires hac.Built(t.count) && hac.values[..] == t.values
      requires dequant.Length == data.Length == 64 && dequant[..] == t.dequant
      modifies this, s, data
      ensures codeBits <= 8 * pulled && from == old(from)
      ensures ok ==> Reading() && next >= k && (more ==> next > k)
      ensures !ok ==> AcFrom(t, s.file, from, old(Position()), k, old(data[..])) == BadCode
      ensures ok && more ==>
        AcFrom(t, s.file, from, Position(), next, data[..])
        == AcFrom(t, s.file, from, old(Position()), k, old(data[..]))
      ensures ok && !more ==>
        AcFrom(t, s.file, from, old(Position()), k, old(data[..])) == AcDone(data[..], Position())
    {
      hide Holds, AcFrom, Plain, Lookup, MsbVal, ScanBits, Extend, SizeList, Kraft, FlagFree;
      ghost var p, was, w := Position(), data[..], MsbVal(Ahead(16));
      ghost var goal := AcFrom(t, s.file, from, p, k, was);
      LookupIsPlainAt(t.count, w);
      next := k;
      var rs := HuffDecode(hac, t.count);
      if rs < 0 {
        AcBad(t, s.file, from, p, k, was);
        return false, false, next;
      }
      var size, run := rs % 16, rs / 16;
      if size == 0 {
        AcZero(t, s.file, from, p, k, was);
        assert data[..] == was;
        if rs != 0xf0 {
          return true, false, next;
        }
        next := next + 16;
      } else {
        AcValue(t, s.file, from, p, k, was);
        next := next + run;
        var zig := ZigzagPlace(next);
        next := next + 1;
        var value := ExtendReceive(size);
        data[zig] := Short(value * dequant[zig]);
        assert data[..] == was[zig := data[zig]];
        assert AcFrom(t, s.file, from, Position(), next, data[..]) == goal;
      }
      return true, true, next;
    }

    /** Refills the window and decodes with the combined entry, if there is one, or else in two steps. */
    method AcStep(hac: JpegHuffman, fac: array<int>, ghost t: AcTable, dequant: array<nat>, data: array<int>, k: nat)
      returns (ok: bool, more: bool, next: nat)
      requires Reading() && codeBits <= 8 * pulled && UsableTable(t) && 1 <= k < 64
      requires hac.Built(t.count) && hac.values[..] == t.values
      requires fac.Length == 512 && forall x :: 0 <= x < 512 ==> fac[x] == FastAcEntry(t, x)
      requires dequant.Length == data.Length == 64 && dequant[..] == t.dequant
      requires data != fac && data != hac.maxcode && data != hac.delta
      modifies this, s, data
      ensures codeBits <= 8 * pulled && from == old(from)
      ensures ok ==> Reading() && next >= k && (more ==> next > k)
      ensures !ok ==> AcFrom(t, s.file, from, old(Position()), k, old(data[..])) == BadCode
      ensures ok && more ==>
        AcFrom(t, s.file, from, Position(), next, data[..])
        == AcFrom(t, s.file, from, old(Position()), k, old(data[..]))
      ensures ok && !more ==>
        AcFrom(t, s.file, from, old(Position()), k, old(data[..])) == AcDone(data[..], Position())
    {
      hide Holds, FastAcEntry, AcFrom, MsbVal, ScanBits, UsableTable, LengthsBelow, FastEntry;
      BitsBounded();
      if codeBits < 16 {
        GrowBuffer();
        BitsBounded();
      }
      var c := Peek(9);
      Pow2Values();
      var r := fac[c];
      if r != 0 {
        ok, more := true, true;
        next := FastStep(r, t, dequant, data, k);
      } else {
        ok, more, next := PlainStep(hac, t, dequant, data, k);
      }
    }

    /** Decodes coefficients 1 to 63 of a block, taking the combined lookup wherever it applies: the
        same coefficients, and the same place in the scan, as plain decoding. */
    method DecodeAc(hac: JpegHuffman, fac: array<int>, ghost t: AcTable, dequant: array<nat>, data: array<int>)
      returns (ok: bool)
      requires Reading() && codeBits <= 8 * pulled && UsableTable(t)
      requires hac.Built(t.count) && hac.values[..] == t.values
      requires fac.Length == 512 && forall x :: 0 <= x < 512 ==> fac[x] == FastAcEntry(t, x)
      requires dequant.Length == data.Length == 64 && dequant[..] == t.dequant
      requires data != fac && data != hac.maxcode && data != hac.delta
      modifies this, s, data
      ensures codeBits <= 8 * pulled && from == old(from)
      ensures var r := AcFrom(t, s.file, from, old(Position()), 1, old(data[..]));
        (ok <==> r.AcDone?) && (ok ==> Reading() && r == AcDone(data[..], Position()))
    {
      hide FastAcEntry, AcFrom, UsableTable, LengthsBelow, FastEntry, Holds;
      BitsBounded();
      var k, more := 1, true;
      while more && k < 64
        invariant Reading() && codeBits <= 8 * pulled && from == old(from) && k >= 1
        invariant hac.Built(t.count)
        invariant AcFrom(t, s.file, from, old(Position()), 1, old(data[..]))
               == if more then AcFrom(t, s.file, from, Position(), k, data[..]) else AcDone(data[..], Position())
        decreases more, if k < 64 then 64 - k else 0
      {
        ok, more, k := AcStep(hac, fac, t, dequant, data, k);
        if !ok { return; }
      }
      if more { AcEnd(t, s.file, from, Position(), k, data[..]); }
      ok := true;
    }

    lemma AcEnd(t: AcTable, file: seq<byte>, from: Feed, p: nat, k: nat, data: seq<int>)
      requires UsableTable(t) && |data| == 64 && k >= 64
      ensures AcFrom(t, file, from, p, k, data) == AcDone(data, p)
    {
    }
  }
}
