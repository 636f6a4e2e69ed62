/** The zlib decoder: a bit buffer over the input bytes, two code tables and a growable
    output buffer, updated in place. */
module ZBufs {
  import opened Bits
  import opened BitReversal
  import opened Huffman
  import opened ZHuffman
  import opened Inflate
  import opened FixedCodes

  datatype Status = Success | Failure | ReservedSymbol

  /** A run's status and final state are what the stream means. */
  ghost predicate Agrees(status: Status, pos: nat, out: seq<byte>, r: Outcome) {
    match status
    case Success => r == Done(pos, out)
    case Failure => r == Corrupt
    case ReservedSymbol => r == Reserved
  }

  class ZBuf {
    const input: seq<byte>
    const room: Room
    const zLength: ZHuffman
    const zDistance: ZHuffman
    var zbuffer: nat
    ghost var fetched: nat
    var numBits: nat
    var codeBuffer: nat
    var zout: array<byte>
    var zpos: nat

    constructor (input: seq<byte>, initial: nat, expandable: bool, maxAlloc: nat)
      ensures this.input == input && room == Room(initial, expandable, maxAlloc)
      ensures fresh(zLength.Repr()) && fresh(zDistance.Repr()) && fresh(zout)
      ensures TablesOk() && ReaderOk() && fetched == 0 && numBits == 0 && zpos == 0 && zout.Length == initial
    {
      this.input := input;
      room := Room(initial, expandable, maxAlloc);
      zLength := new ZHuffman();
      zDistance := new ZHuffman();
      zbuffer, fetched, numBits, codeBuffer := 0, 0, 0, 0;
      zout := new byte[initial];
      zpos := 0;
    }

    /** The two tables are laid out and share nothing with each other or the output. */
    ghost predicate TablesOk()
      reads this
    {
      && zLength.Shape() && zDistance.Shape()
      && zLength.Repr() !! zDistance.Repr() && zout !in zLength.Repr() && zout !in zDistance.Repr()
      && this !in zLength.Repr() && this !in zDistance.Repr()
    }

    /** How many bits of the stream have been consumed. */
    ghost function Pos(): int
      reads this
    {
      8 * fetched - numBits
    }

    /** The bit buffer holds the next numBits bits of the stream. */
    ghost predicate ReaderOk()
      reads this
    {
      && zbuffer == (if fetched <= |input| then fetched else |input|)
      && numBits <= 32 && numBits <= 8 * fetched
      && codeBuffer == ReadBits(input, Pos(), numBits)
    }

    method ZGet8() returns (b: byte)
      requires zbuffer == (if fetched <= |input| then fetched else |input|)
      modifies this`zbuffer, this`fetched
      ensures b == ByteAt(input, old(fetched)) && fetched == old(fetched) + 1
      ensures zbuffer == (if fetched <= |input| then fetched else |input|)
    {
      fetched := fetched + 1;
      if zbuffer >= |input| { return 0; }
      b := input[zbuffer];
      zbuffer := zbuffer + 1;
    }

    /** Fetches one byte above the bits already buffered. */
    method FetchByte()
      requires ReaderOk() && numBits <= 24
      modifies this`zbuffer, this`fetched, this`numBits, this`codeBuffer
      ensures ReaderOk() && Pos() == old(Pos()) && numBits == old(numBits) + 8
    {
      ghost var p, q := Pos(), fetched;
      var c := ZGet8();
      FetchAdds(input, p, q, numBits, codeBuffer);
      codeBuffer := BitOr(codeBuffer, Shl32(c, numBits));
      numBits := numBits + 8;
    }

    /** Refills the bit buffer to more than 24 bits; the position in the stream stays. */
    method FillBits()
      requires ReaderOk() && numBits <= 24
      modifies this`zbuffer, this`fetched, this`numBits, this`codeBuffer
      ensures ReaderOk() && Pos() == old(Pos()) && 24 < numBits <= 32
    {
      FetchByte();
      while numBits <= 24
        invariant ReaderOk() && Pos() == old(Pos())
        decreases 32 - numBits
      {
        FetchByte();
      }
    }

    /** Drops n buffered bits. */
    method Drop(n: nat)
      requires ReaderOk() && n <= numBits
      modifies this`numBits, this`codeBuffer
      ensures ReaderOk() && Pos() == old(Pos()) + n && numBits == old(numBits) - n
    {
      ReadSplit(input, Pos(), n, numBits - n);
      codeBuffer := Shr(codeBuffer, n);
      numBits := numBits - n;
    }

    /** The next n bits of the stream, zeros following the input. */
    method ZReceive(n: nat) returns (k: nat)
      requires ReaderOk() && n <= 16
      modifies this`zbuffer, this`fetched, this`numBits, this`codeBuffer
      ensures ReaderOk() && k == ReadBits(input, old(Pos()), n) && Pos() == old(Pos()) + n
      ensures old(numBits) >= n ==> numBits == old(numBits) - n
      ensures old(numBits) < n ==> numBits + n <= 32
    {
      if numBits < n { FillBits(); }
      AndMask(codeBuffer, n);
      ReadSplit(input, Pos(), n, numBits - n);
      k := BitAnd(codeBuffer, Pow2(n) - 1);
      Drop(n);
    }

    /** The symbol whose canonical code the stream shows, consumed; or -1 and nothing consumed. */
    method ZHuffmanDecode(z: ZHuffman, ghost sizes: seq<nat>) returns (r: int)
      requires ReaderOk() && z.Built(sizes)
      modifies this`zbuffer, this`fetched, this`numBits, this`codeBuffer
      ensures ReaderOk() && z.Built(sizes)
      ensures r == Decode(sizes, input, old(Pos()))
      ensures Pos() == old(Pos()) + (if r >= 0 then sizes[r] else 0)
    {
      if numBits < 16 { FillBits(); }
      ghost var bits := StreamBits(input, Pos(), 16);
      IndexIsPrefix(input, Pos(), numBits, codeBuffer);
      var b := z.fast[BitAnd(codeBuffer, 511)];
      FastLookup(sizes, z.fast[..], bits);
      if b != 0 {
        FastEntryFound(sizes, input, Pos(), b);
        var s := Shr(b, 9);
        Drop(s);
        return BitAnd(b, 511);
      }
      r := ZHuffmanDecodeSlowPath(z, sizes);
    }

    /** The 9 low and the 16 low bits of the buffer are the next bits of the stream. */
    static lemma IndexIsPrefix(input: seq<byte>, p: nat, n: nat, buffer: nat)
      requires n >= 16 && buffer == ReadBits(input, p, n)
      ensures BitAnd(buffer, 511) == LsbVal(StreamBits(input, p, 16)[..9]) < 512
      ensures BitReverse(buffer, 16) == MsbVal(StreamBits(input, p, 16))
    {
      Pow2Values();
      AndMask(buffer, 9);
      ReadSplit(input, p, 9, n - 9);
      StreamSplit(input, p, 9, 7);
      FieldBound(input, p, 9);
      StreamSplit(input, p, 16, n - 16);
      LsbOfLsbVal(StreamBits(input, p, n));
      LsbAppend(buffer, 16, n - 16);
      assert Lsb(buffer, 16) == Lsb(buffer, n)[..16];
    }

    /** A nonzero entry names the symbol that starts the bits; a zero entry means no short code does. */
    static lemma FastLookup(sizes: seq<nat>, fast: seq<nat>, bits: seq<bit>)
      requires |fast| == 512 && |bits| == 16 && FastBelow(sizes, |sizes|, fast)
      ensures LsbVal(bits[..9]) < 512
      ensures var b := fast[LsbVal(bits[..9])];
        && (b == 0 ==> forall i: nat :: Matches(sizes, bits, i) ==> sizes[i] > FAST_BITS)
        && (b != 0 ==> exists i: nat :: Matches(sizes, bits, i) && sizes[i] <= FAST_BITS && b == FastEntry(sizes[i], i))
    {
      LsbValBound(bits[..9]);
      Pow2Values();
      var j := LsbVal(bits[..9]);
      LsbOfLsbVal(bits[..9]);
      assert Lsb(j, FAST_BITS) == bits[..9];
      forall i: nat | Matches(sizes, bits, i) && sizes[i] <= FAST_BITS
        ensures fast[j] == FastEntry(sizes[i], i) != 0
      {
        MatchesPrefix(sizes, bits, 9, i);
      }
      if fast[j] != 0 {
        var i :| 0 <= i < |sizes| && Matches(sizes, Lsb(j, FAST_BITS), i);
        MatchesPrefix(sizes, bits, 9, i);
      }
    }

    /** Any match within 16 bits is the symbol the stream shows. */
    static lemma MatchDecodes(sizes: seq<nat>, input: seq<byte>, p: nat)
      requires ValidSizes(sizes) && Kraft(sizes)
      ensures forall i: nat :: Matches(sizes, StreamBits(input, p, 16), i) ==> Decode(sizes, input, p) == i
      ensures (forall i: nat :: !Matches(sizes, StreamBits(input, p, 16), i)) ==> Decode(sizes, input, p) == -1
    {
      var bits, bits' := StreamBits(input, p, 16), StreamBits(input, p, MAX_SIZE);
      StreamSplit(input, p, 15, 1);
      forall i: nat | Matches(sizes, bits, i)
        ensures Decode(sizes, input, p) == i
      {
        MatchesPrefix(sizes, bits, 15, i);
        MatchUnique(sizes, bits', i, Decode(sizes, input, p));
      }
      if Decode(sizes, input, p) >= 0 {
        MatchesPrefix(sizes, bits, 15, Decode(sizes, input, p));
      }
    }

    static lemma FastEntryFound(sizes: seq<nat>, input: seq<byte>, p: nat, b: nat)
      requires ValidSizes(sizes) && Kraft(sizes) && |sizes| <= 288
      requires exists i: nat :: Matches(sizes, StreamBits(input, p, 16), i) && b == FastEntry(sizes[i], i)
      ensures Decode(sizes, input, p) == BitAnd(b, 511) && sizes[BitAnd(b, 511)] == Shr(b, 9) <= MAX_SIZE
    {
      var i: nat :| Matches(sizes, StreamBits(input, p, 16), i) && b == FastEntry(sizes[i], i);
      FastEntryParts(sizes[i], i);
      MatchDecodes(sizes, input, p);
    }

    /** Codes longer than the lookup: the search compares 16 bits, high bit first. */
    method ZHuffmanDecodeSlowPath(z: ZHuffman, ghost sizes: seq<nat>) returns (r: int)
      requires ReaderOk() && z.Built(sizes) && numBits >= 16
      requires forall i: nat :: Matches(sizes, StreamBits(input, Pos(), 16), i) ==> sizes[i] > FAST_BITS
      modifies this`numBits, this`codeBuffer
      ensures ReaderOk() && z.Built(sizes)
      ensures r == Decode(sizes, input, old(Pos()))
      ensures Pos() == old(Pos()) + (if r >= 0 then sizes[r] else 0)
    {
      assert ValidSizes(sizes) && Kraft(sizes);
      hide ZHuffman.Built, BitReverse16;
      ghost var bits := StreamBits(input, Pos(), 16);
      IndexIsPrefix(input, Pos(), numBits, codeBuffer);
      MatchDecodes(sizes, input, Pos());
      BitReverse16IsReverse(codeBuffer);
      var s, v := SearchLength(z, ReversedLow(codeBuffer, 16), sizes, bits);
      if s == 16 { return -1; }
      r := v;
      Drop(s);
    }

    /** Finds the first length whose pre-shifted end exceeds the 16 bits k and the symbol there. */
    static method SearchLength(z: ZHuffman, k: nat, ghost sizes: seq<nat>, ghost bits: seq<bit>)
        returns (s: nat, v: nat)
      requires z.Built(sizes) && |bits| == 16 && k == MsbVal(bits)
      requires forall i: nat :: Matches(sizes, bits, i) ==> sizes[i] > FAST_BITS
      ensures s <= 16
      ensures s == 16 ==> forall i: nat :: !Matches(sizes, bits, i)
      ensures s < 16 ==> Matches(sizes, bits, v) && sizes[v] == s
    {
      hide End, FirstCode, MsbVal, Shl, Shr, Kraft, KraftSum, FastBelow, Count, FirstSymbol;
      MsbValBound(bits);
      Pow2Values();
      ShortMiss(sizes, bits, FAST_BITS);
      s, v := FAST_BITS + 1, 0;
      while k >= z.maxcode[s]
        invariant FAST_BITS + 1 <= s <= 16
        invariant forall i: nat :: Matches(sizes, bits, i) ==> i < |sizes| && sizes[i] >= s
        invariant MsbVal(bits[..s - 1]) >= End(sizes, s - 1)
        decreases 16 - s
      {
        EndCompare(sizes, bits, s);
        LongerMiss(sizes, bits, s);
        s := s + 1;
      }
      if s == 16 {
        SizesBelow16(sizes, bits);
        return;
      }
      EndCompare(sizes, bits, s);
      ghost var i := FoundAt(sizes, bits, s);
      v := z.value[Shr(k, 16 - s) - z.firstcode[s] + z.firstsymbol[s]];
    }

    static lemma SizesBelow16(sizes: seq<nat>, bits: seq<bit>)
      requires ValidSizes(sizes) && forall i: nat :: Matches(sizes, bits, i) ==> sizes[i] >= 16
      ensures forall i: nat :: !Matches(sizes, bits, i)
    {
    }

    /** Comparing against the pre-shifted end compares the first s bits with the end. */
    static lemma EndCompare(sizes: seq<nat>, bits: seq<bit>, s: nat)
      requires |bits| == 16 && s <= 16
      ensures MsbVal(bits) < Shl(End(sizes, s), 16 - s) <==> MsbVal(bits[..s]) < End(sizes, s)
    {
      MsbValSplit(bits, s);
      ShrBelow(MsbVal(bits), 16 - s, End(sizes, s));
    }

    static lemma ShortMiss(sizes: seq<nat>, bits: seq<bit>, s: nat)
      requires ValidSizes(sizes) && 1 <= s <= |bits|
      requires forall i: nat :: Matches(sizes, bits, i) ==> sizes[i] > s
      ensures MsbVal(bits[..s]) >= End(sizes, s)
    {
      if MsbVal(bits[..s]) < End(sizes, s) {
        var i := ShortMatch(sizes, bits, s);
      }
    }

    static lemma LongerMiss(sizes: seq<nat>, bits: seq<bit>, s: nat)
      requires ValidSizes(sizes) && Kraft(sizes) && |bits| == 16 && s <= 16
      requires MsbVal(bits[..s]) >= End(sizes, s)
      ensures forall i: nat :: Matches(sizes, bits, i) ==> sizes[i] > s
    {
      forall i: nat | Matches(sizes, bits, i)
        ensures sizes[i] > s
      {
        if sizes[i] <= s { MatchBelowEnd(sizes, bits, i, s); }
      }
    }

    static lemma FoundAt(sizes: seq<nat>, bits: seq<bit>, s: nat) returns (i: nat)
      requires ValidSizes(sizes) && |bits| == 16 && 2 <= s <= 15
      requires MsbVal(bits[..s - 1]) >= End(sizes, s - 1) && MsbVal(bits[..s]) < End(sizes, s)
      ensures Matches(sizes, bits, i) && sizes[i] == s
      ensures Slot(sizes, i) == Shr(MsbVal(bits), 16 - s) - FirstCode(sizes, s) + FirstSymbol(sizes, s)
    {
      MsbValSplit(bits, s);
      assert bits[..s][..s - 1] == bits[..s - 1];
      i := IntervalMatches(sizes, bits, s);
    }

    // ---- the output buffer ----

    /** The buffer's size is one the growth rule reaches; zpos bytes of it are output. */
    ghost predicate OutOk()
      reads this
    {
      zpos <= zout.Length && Reached(room, zout.Length) && (room.expandable ==> room.initial > 0)
    }

    ghost function Out(): seq<byte>
      requires zpos <= zout.Length
      reads this, zout
    {
      zout[..zpos]
    }

    /** Makes room for n more bytes by doubling, or fails if the rules of the room forbid it. */
    method ZExpand(n: nat) returns (ok: bool)
      requires OutOk() && TablesOk() && zpos + n > zout.Length
      modifies this`zout
      ensures ok <==> room.Fits(zpos + n)
      ensures OutOk() && TablesOk() && Out() == old(Out())
      ensures zout == old(zout) || fresh(zout)
      ensures ok ==> zpos + n <= zout.Length
    {
      FitsWhenReached(room, zout.Length, zpos + n);
      if !room.expandable { return false; }
      var limit := zout.Length;
      ReachedPositive(room, limit);
      while zpos + n > limit
        invariant limit >= zout.Length > 0
        invariant Doubled(limit, zpos + n) == Doubled(zout.Length, zpos + n)
        decreases zpos + n - limit
      {
        limit := 2 * limit;
      }
      if limit > room.maxAlloc { return false; }
      var q := new byte[limit];
      for i := 0 to zpos
        invariant q[..i] == zout[..i]
        modifies q
      {
        q[i] := zout[i];
      }
      zout := q;
      ok := true;
    }

    /** Appends one literal. */
    method PutByte(v: byte) returns (ok: bool)
      requires OutOk() && TablesOk()
      modifies this`zout, this`zpos, zout
      ensures ok <==> room.Fits(|old(Out())| + 1)
      ensures OutOk() && TablesOk() && (zout == old(zout) || fresh(zout))
      ensures ok ==> Out() == old(Out()) + [v]
    {
      FitsWhenReached(room, zout.Length, zpos + 1);
      if zpos >= zout.Length {
        ok := ZExpand(1);
        if !ok { return; }
      }
      ghost var before := Out();
      zout[zpos] := v;
      zpos := zpos + 1;
      assert Out() == before + [v];
      ok := true;
    }

    /** Repeats len bytes from dist back; the copy may overlap what it writes. */
    method CopyMatch(len: nat, dist: nat) returns (ok: bool)
      requires OutOk() && TablesOk() && len > 0 && dist > 0
      modifies this`zout, this`zpos, zout
      ensures ok <==> dist <= |old(Out())| && room.Fits(|old(Out())| + len)
      ensures OutOk() && TablesOk() && (zout == old(zout) || fresh(zout))
      ensures ok ==> Out() == CopyBack(old(Out()), dist, len)
    {
      FitsWhenReached(room, zout.Length, zpos + len);
      if zpos < dist { return false; }
      if zpos + len > zout.Length {
        ok := ZExpand(len);
        if !ok { return; }
      }
      if dist == 1 {
        CopyRun(len);
      } else {
        CopyForward(len, dist);
      }
      ok := true;
    }

    /** A run of the last byte. */
    method CopyRun(len: nat)
      requires OutOk() && TablesOk() && 1 <= zpos && zpos + len <= zout.Length
      modifies this`zpos, zout
      ensures OutOk() && TablesOk() && Out() == CopyBack(old(Out()), 1, len)
    {
      var v := zout[zpos - 1];
      var left := len;
      while left > 0
        invariant 1 <= zpos && zpos + left <= zout.Length && 0 <= left <= len
        invariant OutOk() && zout[zpos - 1] == v
        invariant CopyBack(Out(), 1, left) == CopyBack(old(Out()), 1, len)
        decreases left
      {
        ghost var before := Out();
        zout[zpos] := v;
        zpos := zpos + 1;
        left := left - 1;
        assert Out() == before + [before[|before| - 1]];
      }
      assert CopyBack(Out(), 1, 0) == Out();
    }

    static lemma NothingCopied(dist: nat)
      ensures forall out: seq<byte> :: 1 <= dist <= |out| ==> CopyBack(out, dist, 0) == out
    {
    }

    static lemma CopyBackStep(out: seq<byte>, dist: nat, n: nat)
      requires 1 <= dist <= |out| && n > 0
      ensures CopyBack(out, dist, n) == CopyBack(out + [out[|out| - dist]], dist, n - 1)
    {
    }

    method CopyForward(len: nat, dist: nat)
      requires OutOk() && TablesOk() && 1 <= dist <= zpos && zpos + len <= zout.Length
      modifies this`zpos, zout
      ensures OutOk() && TablesOk() && Out() == CopyBack(old(Out()), dist, len)
    {
      var p := zpos - dist;
      var left := len;
      NothingCopied(dist);
      hide CopyBack;
      while left > 0
        invariant dist <= zpos && zpos + left <= zout.Length && 0 <= left <= len && p == zpos - dist
        invariant OutOk()
        invariant CopyBack(Out(), dist, left) == CopyBack(old(Out()), dist, len)
        decreases left
      {
        ghost var before := Out();
        CopyBackStep(before, dist, left);
        zout[zpos] := zout[p];
        zpos := zpos + 1;
        p := p + 1;
        left := left - 1;
        assert Out() == before + [before[|before| - dist]];
      }
    }

    // ---- blocks ----

    ghost predicate Valid()
      reads this
    {
      ReaderOk() && TablesOk() && OutOk()
    }

    /** The length and distance that follow length symbol z. */
    method ReadLengthDistance(z: nat, ghost distances: seq<nat>) returns (status: Status, len: nat, dist: nat)
      requires ReaderOk() && TablesOk() && zDistance.Built(distances) && 257 <= z
      modifies this`zbuffer, this`fetched, this`numBits, this`codeBuffer
      ensures ReaderOk()
      ensures match ReadMatch(distances, input, old(Pos()), z)
        case Match(l, d, p) => status == Success && len == l && dist == d && Pos() == p
        case BadMatch => status == Failure
        case ReservedMatch => status == ReservedSymbol
    {
      hide ZHuffman.Built, LengthBase, LengthExtra, DistBase, DistExtra, ReadBits, Decode;
      len, dist := 0, 0;
      if z >= 286 { return ReservedSymbol, 0, 0; }
      var extra := ReceiveExtra(LengthExtra(z - 257));
      len := LengthBase(z - 257) + extra;
      var d := ZHuffmanDecode(zDistance, distances);
      if d < 0 { return Failure, 0, 0; }
      if d >= 30 { return ReservedSymbol, 0, 0; }
      extra := ReceiveExtra(DistExtra(d));
      dist := DistBase(d) + extra;
      status := Success;
    }

    /** Reads an extra-bits field, if there is one. */
    method ReceiveExtra(n: nat) returns (k: nat)
      requires ReaderOk() && n <= 16
      modifies this`zbuffer, this`fetched, this`numBits, this`codeBuffer
      ensures ReaderOk() && k == ReadBits(input, old(Pos()), n) && Pos() == old(Pos()) + n
    {
      k := 0;
      if n > 0 { k := ZReceive(n); }
    }

    /** One literal or match; or the end of the block, or an error. */
    method BlockStep(ghost lengths: seq<nat>, ghost distances: seq<nat>) returns (more: bool, status: Status)
      requires Valid() && zLength.Built(lengths) && zDistance.Built(distances)
      modifies this`zbuffer, this`fetched, this`numBits, this`codeBuffer, this`zout, this`zpos, zout
      ensures Valid() && (zout == old(zout) || fresh(zout))
      ensures var goal := HuffmanBlock(lengths, distances, input, old(Pos()), old(Out()), room);
        if more then HuffmanBlock(lengths, distances, input, Pos(), Out(), room) == goal && zpos > old(zpos)
        else Agrees(status, Pos(), Out(), goal)
    {
      hide ZHuffman.Built, Decode, ReadBits, Room.Fits, Room.Max, ReadMatch, Reached, CopyBack;
      var z := ZHuffmanDecode(zLength, lengths);
      if z < 256 {
        if z < 0 { return false, Failure; }
        more := PutByte(z);
        status := Failure;
      } else {
        if z == 256 { return false, Success; }
        var len, dist;
        status, len, dist := ReadLengthDistance(z, distances);
        if status != Success { return false, status; }
        more := CopyMatch(len, dist);
        status := Failure;
      }
    }

    /** Decodes literals and matches until the end-of-block symbol. */
    method ParseHuffmanBlock(ghost lengths: seq<nat>, ghost distances: seq<nat>) returns (status: Status)
      requires Valid() && zLength.Built(lengths) && zDistance.Built(distances)
      modifies this`zbuffer, this`fetched, this`numBits, this`codeBuffer, this`zout, this`zpos, zout
      ensures Valid() && (zout == old(zout) || fresh(zout))
      ensures Agrees(status, Pos(), Out(), HuffmanBlock(lengths, distances, input, old(Pos()), old(Out()), room))
    {
      hide ZHuffman.Built, HuffmanBlock, ReadBits, Reached;
      var more := true;
      status := Success;
      ReachedBelowMax(room, zout.Length);
      while more
        invariant Valid() && zLength.Built(lengths) && zDistance.Built(distances)
        invariant zpos <= room.Max()
        invariant zout == old(zout) || fresh(zout)
        invariant var goal := HuffmanBlock(lengths, distances, input, old(Pos()), old(Out()), room);
          if more then HuffmanBlock(lengths, distances, input, Pos(), Out(), room) == goal
          else Agrees(status, Pos(), Out(), goal)
        decreases more, room.Max() - zpos
      {
        more, status := BlockStep(lengths, distances);
        ReachedBelowMax(room, zout.Length);
      }
    }

    /** Collects the four header bytes of a stored block: first the buffered ones, at most
        three, then directly from the input. */
    method ReadStoredHeader() returns (header: array<byte>)
      requires ReaderOk() && numBits < 32
      modifies this`zbuffer, this`fetched, this`numBits, this`codeBuffer
      ensures ReaderOk() && numBits == 0 && fresh(header) && header.Length == 4
      ensures var q := (old(Pos()) + 7) / 8;
        Pos() == 8 * (q + 4) && forall j :: 0 <= j < 4 ==> header[j] == ByteAt(input, q + j)
    {
      ghost var q := (Pos() + 7) / 8;
      header := new byte[4](_ => 0);
      DiscardToByte(q);
      var k := DrainBuffer(header, q);
      hide ReadBits;
      while k < 4
        invariant numBits == 0 && ReaderOk() && Pos() == 8 * (q + k)
        invariant k <= 4 && forall j :: 0 <= j < k ==> header[j] == ByteAt(input, q + j)
      {
        header[k] := ZGet8();
        k := k + 1;
      }
    }

    /** Drops the bits left in the current byte. */
    method DiscardToByte(ghost q: nat)
      requires ReaderOk() && numBits < 32 && q == (Pos() + 7) / 8
      modifies this`zbuffer, this`fetched, this`numBits, this`codeBuffer
      ensures ReaderOk() && Pos() == 8 * q && numBits % 8 == 0 && numBits < 32
    {
      hide ReadBits;
      ghost var whole := numBits / 8;
      assert numBits == 8 * whole + numBits % 8 && q == fetched - whole;
      if numBits % 8 != 0 {
        var discarded := ZReceive(numBits % 8);
        assert numBits == 8 * whole;
      }
    }

    /** Moves the buffered whole bytes, at most three, to the header. */
    method DrainBuffer(header: array<byte>, ghost q: nat) returns (k: nat)
      requires ReaderOk() && Pos() == 8 * q && numBits % 8 == 0 && numBits < 32 && header.Length == 4
      modifies this`numBits, this`codeBuffer, header
      ensures ReaderOk() && numBits == 0 && k <= 3 && Pos() == 8 * (q + k)
      ensures forall j :: 0 <= j < k ==> header[j] == ByteAt(input, q + j)
    {
      hide ReadBits;
      k := 0;
      while numBits > 0
        invariant ReaderOk() && Pos() == 8 * (q + k) && numBits + 8 * k <= 24 && numBits % 8 == 0
        invariant k < 4 && forall j :: 0 <= j < k ==> header[j] == ByteAt(input, q + j)
        decreases numBits
      {
        LowByte(input, q + k, numBits, codeBuffer);
        header[k] := BitAnd(codeBuffer, 255);
        Drop(8);
        k := k + 1;
      }
    }

    static lemma LowByte(input: seq<byte>, q: nat, n: nat, buffer: nat)
      requires n >= 8 && buffer == ReadBits(input, 8 * q, n)
      ensures BitAnd(buffer, 255) == ByteAt(input, q)
    {
      Pow2Values();
      AndMask(buffer, 8);
      ReadSplit(input, 8 * q, 8, n - 8);
      ReadByte(input, q);
    }

    /** The length field of a stored block, if its complement agrees and the bytes are there. */
    method ReadStoredLength() returns (ok: bool, len: nat)
      requires ReaderOk() && numBits < 32
      modifies this`zbuffer, this`fetched, this`numBits, this`codeBuffer
      ensures ReaderOk() && numBits == 0
      ensures var q := (old(Pos()) + 7) / 8;
        && Pos() == 8 * (q + 4) && len == ByteAt(input, q) + 256 * ByteAt(input, q + 1)
        && (ok <==> ByteAt(input, q + 2) + 256 * ByteAt(input, q + 3) == 0xffff - len && q + 4 + len <= |input|)
    {
      ghost var q := (Pos() + 7) / 8;
      var header := ReadStoredHeader();
      assert header[0] == ByteAt(input, q) && header[1] == ByteAt(input, q + 1);
      assert header[2] == ByteAt(input, q + 2) && header[3] == ByteAt(input, q + 3);
      len := (header[1] as int) * 256 + header[0];
      var nlen: nat := (header[3] as int) * 256 + header[2];
      if nlen != 0xffff - len { return false, len; }  // len ^ 0xffff on 16 bits
      if zbuffer + len > |input| { return false, len; }
      ok := true;
    }

    /** A stored block: discards to the byte boundary, checks the length, copies the bytes. */
    method ParseUncompressedBlock() returns (status: Status)
      requires Valid() && numBits < 32
      modifies this`zbuffer, this`fetched, this`numBits, this`codeBuffer, this`zout, this`zpos, zout
      ensures Valid() && (zout == old(zout) || fresh(zout))
      ensures Agrees(status, Pos(), Out(), StoredBlock(input, old(Pos()), old(Out()), room))
    {
      hide ReadBits, Reached, Room.Fits;
      var ok, len := ReadStoredLength();
      if !ok { return Failure; }
      FitsWhenReached(room, zout.Length, zpos + len);
      if zpos + len > zout.Length {
        ok := ZExpand(len);
        if !ok { return Failure; }
      }
      CopyStored(len);
      status := Success;
    }

    /** Copies len input bytes to the output. */
    method CopyStored(len: nat)
      requires Valid() && numBits == 0 && fetched + len <= |input| && zpos + len <= zout.Length
      modifies this`zbuffer, this`fetched, this`zpos, zout
      ensures Valid() && Pos() == old(Pos()) + 8 * len
      ensures Out() == old(Out()) + input[old(fetched)..old(fetched) + len]
    {
      for i := 0 to len
        invariant zout[..zpos] == old(Out())
        invariant zout[zpos..zpos + i] == input[zbuffer..zbuffer + i]
        modifies zout
      {
        zout[zpos + i] := input[zbuffer + i];
      }
      zbuffer, fetched, zpos := zbuffer + len, fetched + len, zpos + len;
      assert zout[..zpos] == zout[..zpos - len] + zout[zpos - len..zpos];
    }

    /** The repeat counts of section 3.2.7. */
    method ReadRepeat(c: nat) returns (n: nat)
      requires ReaderOk() && 16 <= c < 19
      modifies this`zbuffer, this`fetched, this`numBits, this`codeBuffer
      ensures ReaderOk() && (n, Pos()) == Repeat(input, old(Pos()), c)
    {
      if c == 16 {
        n := ZReceive(2);
        n := n + 3;
      } else if c == 17 {
        n := ZReceive(3);
        n := n + 3;
      } else {
        n := ZReceive(7);
        n := n + 11;
      }
    }

    /** Expands the run-length coded list of code lengths into lencodes. */
    method ReadCodeLengths(zCodelength: ZHuffman, ghost code: seq<nat>, lencodes: array<nat>, ntot: nat) returns (ok: bool)
      requires ReaderOk() && zCodelength.Built(code) && |code| == 19
      requires lencodes.Length == 455 && ntot <= 455 && lencodes !in zCodelength.Repr()
      modifies this`zbuffer, this`fetched, this`numBits, this`codeBuffer, lencodes
      ensures ReaderOk()
      ensures match CodeLengths(code, input, old(Pos()), ntot, [])
        case BadLengths => !ok
        case Lengths(sizes, p) => ok && lencodes[..ntot] == sizes && Pos() == p
    {
      hide ZHuffman.Built, ReadBits, Decode, Repeat, CodeLengths, ValidSizes;
      NoSizes();
      ghost var goal := CodeLengths(code, input, Pos(), ntot, []);
      var n := 0;
      assert lencodes[..0] == [];
      while n < ntot
        invariant ReaderOk() && zCodelength.Built(code) && n <= ntot
        invariant ValidSizes(lencodes[..n])
        invariant CodeLengths(code, input, Pos(), ntot, lencodes[..n]) == goal
        decreases ntot - n
      {
        ghost var acc, p := lencodes[..n], Pos();
        CodeLengthsEnd(code, input, p, ntot, acc);
        var c := ZHuffmanDecode(zCodelength, code);
        if c < 0 || c >= 19 { return false; }
        if c < 16 {
          lencodes[n] := c;
          assert lencodes[..n + 1] == acc + [c];
          OneMoreSize(acc, c);
          CodeLengthsOne(code, input, p, ntot, acc, c);
          n := n + 1;
        } else {
          ghost var run := Repeat(input, p + code[c], c);
          CodeLengthsRun(code, input, p, ntot, acc, c, run.0, run.1);
          if c == 16 && n == 0 { return false; }
          var fill := if c == 16 then lencodes[n - 1] else 0;
          var count := ReadRepeat(c);
          MoreSizes(acc, fill, count);
          if ntot - n < count { return false; }
          FillCodes(lencodes, n, fill, count);
          n := n + count;
        }
      }
      CodeLengthsEnd(code, input, Pos(), ntot, lencodes[..n]);
      ok := true;
    }

    static lemma NoSizes()
      ensures ValidSizes([])
    {
    }

    static lemma OneMoreSize(acc: seq<nat>, c: nat)
      requires ValidSizes(acc) && c < 16
      ensures ValidSizes(acc + [c])
    {
    }

    static lemma MoreSizes(acc: seq<nat>, fill: nat, n: nat)
      requires ValidSizes(acc) && (fill == 0 || fill in acc)
      ensures ValidSizes(acc + Fill(fill, n))
    {
    }

    static method FillCodes(lencodes: array<nat>, n: nat, fill: nat, count: nat)
      requires n + count <= lencodes.Length
      modifies lencodes
      ensures lencodes[..n + count] == old(lencodes[..n]) + Fill(fill, count)
    {
      for i := 0 to count
        invariant lencodes[..n] == old(lencodes[..n])
        invariant forall j :: n <= j < n + i ==> lencodes[j] == fill
      {
        lencodes[n + i] := fill;
      }
      assert lencodes[..n + count] == lencodes[..n] + lencodes[n..n + count];
      assert lencodes[n..n + count] == Fill(fill, count);
    }

    /** The lengths of the code length code, in zigzag order. */
    method ReadCodeLengthSizes(hclen: nat) returns (sizes: array<nat>)
      requires ReaderOk() && hclen <= 19
      modifies this`zbuffer, this`fetched, this`numBits, this`codeBuffer
      ensures ReaderOk() && Pos() == old(Pos()) + 3 * hclen
      ensures fresh(sizes) && sizes.Length == 19 && sizes[..] == CodeLengthSizes(input, old(Pos()), hclen)
    {
      hide ReadBits, Dezigzag;
      sizes := new nat[19](_ => 0);
      ghost var p := Pos();
      assert sizes[..] == Fill(0, 19);
      for i := 0 to hclen
        invariant ReaderOk() && Pos() == p + 3 * i && p == old(Pos())
        invariant sizes[..] == CodeLengthSizes(input, p, i)
      {
        var s := ZReceive(3);
        sizes[Dezigzag(i)] := s;
      }
    }

    static lemma DynamicLengthsIs(input: seq<byte>, p: nat)
      ensures ReadBits(input, p + 10, 4) + 4 <= 19
      ensures var hlit, hdist, hclen := ReadBits(input, p, 5) + 257, ReadBits(input, p + 5, 5) + 1, ReadBits(input, p + 10, 4) + 4;
        var code := CodeLengthSizes(input, p + 14, hclen);
        DynamicLengths(input, p) ==
          if !Kraft(code) then BadTables
          else
            match CodeLengths(code, input, p + 14 + 3 * hclen, hlit + hdist, [])
            case BadLengths => BadTables
            case Lengths(sizes, p1) => Tables(sizes[..hlit], sizes[hlit..], p1)
    {
      hide ReadBits, CodeLengths, CodeLengthSizes, Kraft;
      FieldBound(input, p + 10, 4);
    }

    /** Reads the two lists of code lengths of a dynamic block. */
    method ReadDynamicLengths() returns (ok: bool, lencodes: array<nat>, hlit: nat, hdist: nat)
      requires ReaderOk()
      modifies this`zbuffer, this`fetched, this`numBits, this`codeBuffer
      ensures ReaderOk() && fresh(lencodes) && lencodes.Length == 455 && hlit <= 288 && hdist <= 32
      ensures match DynamicLengths(input, old(Pos()))
        case BadTables => !ok
        case Tables(lengths, distances, p) =>
          ok && Pos() == p && lencodes[..hlit] == lengths && lencodes[hlit..hlit + hdist] == distances
    {
      hide ReadBits, Decode, CodeLengths, CodeLengthSizes, Kraft, ZHuffman.Built, DynamicLengths;
      DynamicLengthsIs(input, Pos());
      FieldBound(input, Pos(), 5);
      FieldBound(input, Pos() + 5, 5);
      FieldBound(input, Pos() + 10, 4);
      hlit := ZReceive(5);
      hlit := hlit + 257;
      hdist := ZReceive(5);
      hdist := hdist + 1;
      var hclen := ZReceive(4);
      hclen := hclen + 4;
      ok, lencodes := ReadCodedLengths(hclen, hlit + hdist);
      if !ok { return; }
      ghost var sizes := lencodes[..hlit + hdist];
      assert lencodes[..hlit] == sizes[..hlit] && lencodes[hlit..hlit + hdist] == sizes[hlit..];
    }

    /** Reads the code of the code lengths, then the lengths themselves. */
    method ReadCodedLengths(hclen: nat, ntot: nat) returns (ok: bool, lencodes: array<nat>)
      requires ReaderOk() && hclen <= 19 && ntot <= 455
      modifies this`zbuffer, this`fetched, this`numBits, this`codeBuffer
      ensures ReaderOk() && fresh(lencodes) && lencodes.Length == 455
      ensures var code := CodeLengthSizes(input, old(Pos()), hclen);
        if !Kraft(code) then !ok
        else
          match CodeLengths(code, input, old(Pos()) + 3 * hclen, ntot, [])
          case BadLengths => !ok
          case Lengths(sizes, p) => ok && Pos() == p && lencodes[..ntot] == sizes
    {
      hide ReadBits, Decode, CodeLengths, CodeLengthSizes, Kraft, ZHuffman.Built;
      lencodes := new nat[455];
      var codelengthSizes := ReadCodeLengthSizes(hclen);
      var zCodelength := new ZHuffman();
      ghost var code := codelengthSizes[..];
      ok := zCodelength.Build(codelengthSizes[..]);
      if !ok { return; }
      ok := ReadCodeLengths(zCodelength, code, lencodes, ntot);
    }

    /** Reads the two code tables of a dynamic block. */
    method ComputeHuffmanCodes() returns (ok: bool)
      requires Valid()
      modifies this`zbuffer, this`fetched, this`numBits, this`codeBuffer, zLength.Repr(), zDistance.Repr()
      ensures Valid()
      ensures match DynamicTables(input, old(Pos()))
        case BadTables => !ok
        case Tables(lengths, distances, p) =>
          ok && Pos() == p && zLength.Built(lengths) && zDistance.Built(distances)
    {
      hide DynamicLengths, Kraft, ZHuffman.Built;
      var lencodes, hlit, hdist;
      ok, lencodes, hlit, hdist := ReadDynamicLengths();
      if !ok { return; }
      ghost var lengths, distances := lencodes[..hlit], lencodes[hlit..hlit + hdist];
      ok := zLength.Build(lencodes[..hlit]);
      if !ok { return; }
      ok := zDistance.Build(lencodes[hlit..hlit + hdist]);
    }

    /** Sets up both fixed code tables. */
    method BuildFixed() returns (ok: bool)
      requires Valid()
      modifies zLength.Repr(), zDistance.Repr()
      ensures Valid() && ok && zLength.Built(FixedLengths()) && zDistance.Built(FixedDistances())
    {
      FixedKraft();
      hide ZHuffman.Built, Kraft, FixedLengths, FixedDistances;
      ok := zLength.Build(FixedLengths());
      if !ok { return; }
      ok := zDistance.Build(FixedDistances());
    }

    /** One block of the given type. */
    method ParseBlock(kind: nat) returns (status: Status)
      requires Valid() && numBits < 32
      modifies this`zbuffer, this`fetched, this`numBits, this`codeBuffer, this`zout, this`zpos, zout,
               zLength.Repr(), zDistance.Repr()
      ensures Valid() && (zout == old(zout) || fresh(zout))
      ensures Agrees(status, Pos(), Out(), Block(kind, input, old(Pos()), old(Out()), room))
    {
      hide ZHuffman.Built, HuffmanBlock, StoredBlock, DynamicTables, FixedLengths, FixedDistances;
      if kind == 0 {
        status := ParseUncompressedBlock();
      } else if kind == 1 {
        var ok := BuildFixed();
        if !ok { return Failure; }
        status := ParseHuffmanBlock(FixedLengths(), FixedDistances());
      } else if kind == 2 {
        ghost var tables := DynamicTables(input, Pos());
        var ok := ComputeHuffmanCodes();
        if !ok { return Failure; }
        status := ParseHuffmanBlock(tables.lengths, tables.distances);
      } else {
        status := Failure;
      }
    }

    /** Checks the two header bytes. */
    method ParseZlibHeader() returns (ok: bool)
      requires ReaderOk() && numBits == 0 && fetched == 0
      modifies this`zbuffer, this`fetched
      ensures ReaderOk() && numBits == 0 && fetched == 2 && (ok <==> HeaderOk(input))
    {
      var cmf: int := ZGet8();
      var cm := BitAnd(cmf, 15);
      var flg: int := ZGet8();
      if (cmf * 256 + flg) % 31 != 0 { return false; }
      if BitAnd(flg, 32) != 0 { return false; }
      if cm != 8 { return false; }
      ok := true;
    }

    /** Decodes a whole stream, block after block, until one is marked final. */
    method ParseZlib(parseHeader: bool) returns (status: Status)
      requires Valid() && fetched == 0 && numBits == 0 && zpos == 0
      modifies this`zbuffer, this`fetched, this`numBits, this`codeBuffer, this`zout, this`zpos, zout,
               zLength.Repr(), zDistance.Repr()
      ensures Valid() && (zout == old(zout) || fresh(zout))
      ensures Agrees(status, Pos(), Out(), Zlib(input, parseHeader, room))
    {
      hide Block, Blocks, ReadBits, HeaderOk, Reached, ZHuffman.Shape;
      if parseHeader {
        var ok := ParseZlibHeader();
        if !ok { return Failure; }
      }
      assert Out() == [];
      status := ParseBlocks();
    }

    method ParseBlocks() returns (status: Status)
      requires Valid()
      modifies this`zbuffer, this`fetched, this`numBits, this`codeBuffer, this`zout, this`zpos, zout,
               zLength.Repr(), zDistance.Repr()
      ensures Valid() && (zout == old(zout) || fresh(zout))
      ensures Agrees(status, Pos(), Out(), Blocks(input, old(Pos()), old(Out()), room))
    {
      hide Block, Blocks, ReadBits, HeaderOk, Reached, ZHuffman.Shape;
      var final := 0;
      status := Success;
      while final != 1
        invariant Valid() && (zout == old(zout) || fresh(zout)) && status == Success
        invariant var goal := Blocks(input, old(Pos()), old(Out()), room);
          if final == 1 then goal == Done(Pos(), Out()) else Blocks(input, Pos(), Out(), room) == goal
        decreases final != 1, 8 * |input| - Pos()
      {
        ghost var p, out := Pos(), Out();
        var kind;
        final := ZReceive(1);
        kind := ZReceive(2);
        status := ParseBlock(kind);
        BlocksStep(input, p, out, room);
        if status != Success { return; }
      }
    }
  }

  lemma ReachedBelowMax(room: Room, c: nat)
    requires Reached(room, c)
    ensures c <= room.Max()
  {
  }

  lemma ReachedPositive(room: Room, c: nat)
    requires Reached(room, c) && room.expandable && room.initial > 0
    ensures c > 0
  {
  }
}
