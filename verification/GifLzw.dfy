/** GIF's LZW: a dictionary of whole strings (Appendix F of the GIF89a specification) and the
    decoder's linked table of prefixes, with the code-size rule and the sub-block layer. */
module GifLzw {
  import opened Bits
  import opened Inflate
  import opened GifRaster

  const TABLE := 8192

  // ---- the specification: a list of strings ----

  /** The decoder's view after some codes: the strings known, the last code, the code size. */
  datatype State = State(dict: seq<seq<byte>>, last: int, size: nat, started: bool)

  datatype Step = Next(st: State, out: seq<byte>) | Stop | Fail

  /** The strings for the colours themselves, and two unused places for the control codes. */
  function Initial(cs: nat): (d: seq<seq<byte>>)
    ensures |d| == Pow2(cs) + 2
    ensures forall c :: 0 <= c < Pow2(cs) ==> d[c] == [c % 256]
  {
    seq(Pow2(cs), c => [c % 256]) + [[], []]
  }

  /** What one code does. */
  function OneCode(cs: nat, st: State, code: nat): Step {
    var clear := Pow2(cs);
    if code == clear then Next(State(Initial(cs), -1, cs + 1, true), [])
    else if code == clear + 1 then Stop
    else if code > |st.dict| || !st.started then Fail
    else if st.last < 0 then
      if code == |st.dict| then Fail else Next(st.(last := code, size := Grown(|st.dict|, st.size)), st.dict[code])
    else if |st.dict| >= TABLE || st.last >= |st.dict| || |st.dict[st.last]| == 0 then Fail
    else
      var prefix := st.dict[st.last];
      var s := if code == |st.dict| then prefix + [prefix[0]] else st.dict[code];
      if |s| == 0 then Fail
      else
        var dict := st.dict + [prefix + [s[0]]];
        Next(State(dict, code, Grown(|dict|, st.size), true), s)
  }

  /** The code size grows when the table fills it, up to twelve bits. */
  function Grown(avail: nat, size: nat): nat {
    if Low(avail, size) == 0 && avail <= 0xfff then size + 1 else size
  }

  /** The data of consecutive sub-blocks up to the empty one. */
  function Unblocked(input: seq<byte>, q: nat): seq<byte>
    decreases |input| - q
  {
    var len := ByteAt(input, q);
    if len == 0 then [] else Bytes(input, q + 1, len) + Unblocked(input, q + 1 + len)
  }

  function Bytes(input: seq<byte>, q: nat, n: nat): (s: seq<byte>)
    ensures |s| == n
  {
    seq<byte>(n, i requires 0 <= i < n => ByteAt(input, q + i))
  }

  datatype Result = Finished(out: seq<byte>) | Corrupt

  /** Decodes the codes from bit p on; running out of data ends the image like the stop code. */
  function Decode(cs: nat, data: seq<byte>, p: nat, st: State, out: seq<byte>): Result
    decreases 8 * |data| - p
  {
    if st.size == 0 || p + st.size > 8 * |data| then Finished(out)
    else
      match OneCode(cs, st, ReadBits(data, p, st.size))
      case Stop => Finished(out)
      case Fail => Result.Corrupt
      case Next(st', s) => Decode(cs, data, p + st.size, st', out + s)
  }

  function Start(cs: nat): State {
    State(Initial(cs), -1, cs + 1, false)
  }

  // ---- the linked table ----

  datatype Entry = Entry(prefix: int, first: byte, suffix: byte)

  /** Entry i is in use: below avail and not one of the two control codes. */
  predicate Live(i: int, avail: nat, clear: nat) {
    0 <= i < avail && i != clear && i != clear + 1
  }

  /** Links point down: the prefix of a live entry is an earlier live entry. */
  ghost predicate Linked(codes: seq<Entry>, avail: nat, clear: nat) {
    avail <= |codes| && forall i :: 0 <= i < |codes| && Live(i, avail, clear) ==> LinkOk(codes[i], i, avail, clear)
  }

  predicate LinkOk(e: Entry, i: int, avail: nat, clear: nat) {
    e.prefix < i && (e.prefix >= 0 ==> Live(e.prefix, avail, clear))
  }

  /** The string an entry spells, following its links. */
  ghost function Spelled(codes: seq<Entry>, avail: nat, clear: nat, i: nat): seq<byte>
    requires Linked(codes, avail, clear) && Live(i, avail, clear)
    decreases i
  {
    assert LinkOk(codes[i], i, avail, clear);
    if codes[i].prefix < 0 then [codes[i].suffix]
    else Spelled(codes, avail, clear, codes[i].prefix) + [codes[i].suffix]
  }

  /** The live part of the table spells the dictionary, with the first byte of each string at hand. */
  ghost predicate Represents(codes: seq<Entry>, dict: seq<seq<byte>>, clear: nat) {
    && Linked(codes, |dict|, clear)
    && forall i :: 0 <= i < |dict| && Live(i, |dict|, clear) ==> EntryOk(codes, dict, clear, i)
  }

  ghost predicate EntryOk(codes: seq<Entry>, dict: seq<seq<byte>>, clear: nat, i: nat)
    requires Linked(codes, |dict|, clear) && Live(i, |dict|, clear)
  {
    |dict[i]| > 0 && Spelled(codes, |dict|, clear, i) == dict[i] && codes[i].first == dict[i][0]
  }

  lemma LinkedExtends(codes: seq<Entry>, avail: nat, clear: nat, e: Entry)
    requires avail < |codes| && Linked(codes, avail, clear) && LinkOk(e, avail, avail, clear)
    ensures Linked(codes[avail := e], avail + 1, clear)
  {
    var codes' := codes[avail := e];
    forall i | 0 <= i < |codes'| && Live(i, avail + 1, clear)
      ensures LinkOk(codes'[i], i, avail + 1, clear)
    {
      if i < avail { assert LinkOk(codes[i], i, avail, clear); }
    }
  }

  lemma {:induction false} SpelledExtends(codes: seq<Entry>, avail: nat, clear: nat, e: Entry, i: nat)
    requires avail < |codes| && Linked(codes, avail, clear) && LinkOk(e, avail, avail, clear) && Live(i, avail, clear)
    ensures Linked(codes[avail := e], avail + 1, clear)
    ensures Spelled(codes[avail := e], avail + 1, clear, i) == Spelled(codes, avail, clear, i)
    decreases i
  {
    LinkedExtends(codes, avail, clear, e);
    assert LinkOk(codes[i], i, avail, clear);
    if codes[i].prefix >= 0 { SpelledExtends(codes, avail, clear, e, codes[i].prefix); }
  }

  /** A new entry keeps the representation. */
  lemma Extended(codes: seq<Entry>, dict: seq<seq<byte>>, clear: nat, last: nat, b: byte)
    requires Represents(codes, dict, clear) && |dict| < |codes| && Live(last, |dict|, clear) && clear + 2 <= |dict|
    ensures var e := Entry(last, codes[last].first, b);
      Represents(codes[|dict| := e], dict + [dict[last] + [b]], clear)
  {
    var n := |dict|;
    var e := Entry(last, codes[last].first, b);
    var codes', dict' := codes[n := e], dict + [dict[last] + [b]];
    LinkedExtends(codes, n, clear, e);
    assert EntryOk(codes, dict, clear, last);
    SpelledExtends(codes, n, clear, e, last);
    forall i | 0 <= i < n + 1 && Live(i, n + 1, clear)
      ensures EntryOk(codes', dict', clear, i)
    {
      if i < n {
        assert EntryOk(codes, dict, clear, i);
        SpelledExtends(codes, n, clear, e, i);
      }
    }
  }

  /** The entries for the colours. */
  ghost predicate ColorsOk(codes: seq<Entry>, clear: nat) {
    clear <= |codes| && forall i :: 0 <= i < clear ==> codes[i] == Entry(-1, i % 256, i % 256)
  }

  lemma InitialRepresented(codes: seq<Entry>, cs: nat)
    requires ColorsOk(codes, Pow2(cs)) && Pow2(cs) + 2 <= |codes|
    ensures Represents(codes, Initial(cs), Pow2(cs))
  {
    var clear, dict := Pow2(cs), Initial(cs);
    forall i | 0 <= i < |codes| && Live(i, |dict|, clear)
      ensures LinkOk(codes[i], i, |dict|, clear)
    {
    }
    forall i | 0 <= i < |dict| && Live(i, |dict|, clear)
      ensures EntryOk(codes, dict, clear, i)
    {
    }
  }

  lemma SpelledIs(codes: seq<Entry>, dict: seq<seq<byte>>, clear: nat, i: nat)
    requires Represents(codes, dict, clear) && Live(i, |dict|, clear)
    ensures Linked(codes, |dict|, clear) && Spelled(codes, |dict|, clear, i) == dict[i] && |dict[i]| > 0
  {
    assert EntryOk(codes, dict, clear, i);
  }

  /** The code size never passes thirteen. */
  lemma GrownBound(avail: nat, size: nat)
    requires 1 <= size <= 13 && avail > 0
    ensures 1 <= Grown(avail, size) <= 13
  {
    if size >= 12 {
      LowBound(avail, size);
      Pow2Monotone(12, size);
      Pow2Values();
    }
  }

  /** The state after a code that completes a new string. */
  function AfterEntry(st: State, code: nat): State
    requires 0 <= st.last < |st.dict| && |st.dict[st.last]| > 0 && code <= |st.dict|
    requires code < |st.dict| ==> |st.dict[code]| > 0
  {
    var prefix := st.dict[st.last];
    var b := if code == |st.dict| then prefix[0] else st.dict[code][0];
    State(st.dict + [prefix + [b]], code, Grown(|st.dict| + 1, st.size), true)
  }

  /** The table and the counters stand for a state of the specification. */
  ghost predicate Tracks(codes: seq<Entry>, cs: nat, st: State, avail: nat, oldcode: int, codesize: nat, first: bool) {
    && |codes| == TABLE && ColorsOk(codes, Pow2(cs)) && Represents(codes, st.dict, Pow2(cs))
    && avail == |st.dict| && Pow2(cs) + 2 <= avail && oldcode == st.last && codesize == st.size && first == !st.started
    && (oldcode >= 0 ==> Live(oldcode, avail, Pow2(cs)))
    && 1 <= codesize <= 13
  }

  class Gif {
    const codes: array<Entry>
    const raster: Raster
    /** All colour indices decoded so far, also those past the end of the frame. */
    ghost var drawn: seq<byte>

    constructor (w: nat, h: nat, interlaced: bool)
      ensures codes.Length == TABLE && drawn == [] && Synced()
      ensures fresh(codes) && fresh(raster) && fresh(raster.image)
      ensures raster.w == w && raster.h == h && raster.interlaced == interlaced
    {
      codes := new Entry[TABLE](_ => Entry(0, 0, 0));
      raster := new Raster(w, h, interlaced);
      drawn := [];
    }

    /** The frame shows the decoded pixels, as many as it has room for. */
    ghost predicate Synced()
      reads this, raster, raster.image
    {
      raster.Valid() && raster.pixels == if |drawn| <= raster.Capacity() then drawn else drawn[..raster.Capacity()]
    }

    /** Draws one pixel. */
    method DrawPixel(v: byte)
      requires Synced()
      modifies this`drawn, raster, raster.image
      ensures Synced() && drawn == old(drawn) + [v]
    {
      hide Raster.Valid, Raster.Capacity;
      raster.FullAtCapacity();
      raster.Draw(v);
      drawn := drawn + [v];
    }

    /** Draws the string of a code, prefix first: the links lead backwards through it. */
    method OutGifCode(code: nat, ghost avail: nat, ghost clear: nat)
      requires Linked(codes[..], avail, clear) && Live(code, avail, clear) && Synced()
      modifies this`drawn, raster, raster.image
      ensures drawn == old(drawn) + Spelled(codes[..], avail, clear, code) && Synced()
      decreases code
    {
      hide Raster.Valid, Raster.Capacity;
      assert LinkOk(codes[..][code], code, avail, clear);
      if codes[code].prefix >= 0 {
        OutGifCode(codes[code].prefix, avail, clear);
      }
      DrawPixel(codes[code].suffix);
    }

    /** Fills in the entries for the colours. */
    method InitTable(cs: nat)
      requires cs <= 12 && codes.Length == TABLE
      modifies codes
      ensures ColorsOk(codes[..], Pow2(cs))
    {
      ControlFits(cs);
      for c := 0 to Pow2(cs)
        invariant forall i :: 0 <= i < c ==> codes[i] == Entry(-1, i % 256, i % 256)
      {
        codes[c] := Entry(-1, c % 256, c % 256);
      }
    }

    /** Enters the string of the last code extended by the first byte of this one. */
    method AddEntry(cs: nat, ghost dict: seq<seq<byte>>, avail: nat, oldcode: nat, code: nat)
      requires codes.Length == TABLE && ColorsOk(codes[..], Pow2(cs)) && Represents(codes[..], dict, Pow2(cs))
      requires avail == |dict| < TABLE && Pow2(cs) + 2 <= avail
      requires Live(oldcode, avail, Pow2(cs)) && (code == avail || Live(code, avail, Pow2(cs)))
      modifies codes
      ensures |dict[oldcode]| > 0 && (code < avail ==> |dict[code]| > 0)
      ensures var s := if code == avail then dict[oldcode] + [dict[oldcode][0]] else dict[code];
        Represents(codes[..], dict + [dict[oldcode] + [s[0]]], Pow2(cs))
      ensures ColorsOk(codes[..], Pow2(cs))
    {
      hide Pow2, Spelled;
      ghost var before := codes[..];
      assert EntryOk(before, dict, Pow2(cs), oldcode);
      if code < avail { assert EntryOk(before, dict, Pow2(cs), code); }
      var first := codes[oldcode].first;
      // when code is the entry being made, its first byte is the one just stored
      var suffix := if code == avail then first else codes[code].first;
      Extended(before, dict, Pow2(cs), oldcode, suffix);
      codes[avail] := Entry(oldcode, first, suffix);
      assert codes[..] == before[avail := Entry(oldcode, first, suffix)];
    }

    /** One code that is neither the clear nor the stop code. */
    method DataCode(cs: nat, ghost st: State, avail: nat, oldcode: int, codesize: nat, first: bool, code: nat)
        returns (ok: bool, avail': nat, codesize': nat, ghost st': State)
      requires codes.Length == TABLE && cs <= 12
      requires Tracks(codes[..], cs, st, avail, oldcode, codesize, first)
      requires code != Pow2(cs) && code != Pow2(cs) + 1 && Synced()
      modifies codes, this`drawn, raster, raster.image
      ensures ok ==> Synced()
      ensures !ok ==> OneCode(cs, st, code) == Fail
      ensures ok ==> exists s :: OneCode(cs, st, code) == Next(st', s) && drawn == old(drawn) + s
      ensures ok ==> Tracks(codes[..], cs, st', avail', code, codesize', first)
    {
      hide Pow2, Spelled, Low, Represents, Raster.Valid, Raster.Capacity;
      avail', codesize', st' := avail, codesize, st;
      if code > avail { return false, avail, codesize, st; }
      if first { return false, avail, codesize, st; }
      if oldcode >= 0 {
        avail' := avail + 1;
        if avail' > TABLE { return false, avail', codesize, st; }
        AddEntry(cs, st.dict, avail, oldcode, code);
        st' := AfterEntry(st, code);
      } else if code == avail {
        return false, avail, codesize, st;
      } else {
        st' := st.(last := code, size := Grown(avail, codesize));
      }
      SpelledIs(codes[..], st'.dict, Pow2(cs), code);
      GrownBound(avail', codesize);
      OutGifCode(code, avail', Pow2(cs));
      if Low(avail', codesize) == 0 && avail' <= 0xfff {
        codesize' := codesize + 1;
      }
      ok := true;
    }
  }

  // ---- the raster loop ----

  lemma {:induction false} Delivered(input: seq<byte>, q: nat, len: nat)
    requires len == ByteAt(input, q) && len > 0
    ensures Unblocked(input, q) == Bytes(input, q + 1, len) + Unblocked(input, q + 1 + len)
  {
  }

  lemma BytesSplit(input: seq<byte>, q: nat, n: nat)
    requires n > 0
    ensures Bytes(input, q, n) == [ByteAt(input, q)] + Bytes(input, q + 1, n - 1)
  {
  }

  /** The part of the data still to come, inside a block with len bytes left at pos. */
  function Rest(input: seq<byte>, pos: nat, len: nat): seq<byte> {
    Bytes(input, pos, len) + Unblocked(input, pos + len)
  }

  /** What reading goes on from: k bytes of the data have been delivered to the bit buffer. */
  ghost predicate Feeding(input: seq<byte>, data: seq<byte>, k: nat, pos: nat, len: nat, p: nat, bits: nat, valid: nat) {
    && k <= |data| && data[k..] == Rest(input, pos, len)
    && p + valid == 8 * k && valid <= 20 && bits == ReadBits(data, p, valid)
  }

  /** Delivers one byte, starting a new block if need be; fails at the empty block. */
  method FeedByte(input: seq<byte>, ghost data: seq<byte>, ghost k: nat, pos: nat, len: nat, ghost p: nat,
                  bits: nat, valid: nat) returns (more: bool, pos': nat, len': nat, bits': nat)
    requires Feeding(input, data, k, pos, len, p, bits, valid) && valid <= 12
    ensures !more ==> k == |data|
    ensures more ==> Feeding(input, data, k + 1, pos', len', p, bits', valid + 8)
  {
    hide ReadBits;
    pos', len', bits' := pos, len, bits;
    if len' == 0 {
      EmptyBytes(input, pos);
      len' := ByteAt(input, pos);
      if len' == 0 { return false, pos', len', bits'; }
      Delivered(input, pos, len');
      pos' := pos + 1;
    }
    BytesSplit(input, pos', len');
    FeedStep(input, data, k, pos', len');
    FetchAdds(data, p, k, valid, bits);
    bits' := BitOr(bits, Shl32(ByteAt(input, pos'), valid));
    pos' := pos' + 1;
    len' := len' - 1;
    more := true;
  }

  lemma EmptyBytes(input: seq<byte>, q: nat)
    ensures Rest(input, q, 0) == Unblocked(input, q)
    ensures ByteAt(input, q) == 0 ==> Unblocked(input, q) == []
  {
    assert Bytes(input, q, 0) == [];
  }

  lemma FeedStep(input: seq<byte>, data: seq<byte>, k: nat, pos: nat, len: nat)
    requires k <= |data| && len > 0 && data[k..] == Rest(input, pos, len)
    ensures k < |data| && data[k] == ByteAt(input, pos) && data[k + 1..] == Rest(input, pos + 1, len - 1)
  {
    BytesSplit(input, pos, len);
    var rest := Rest(input, pos, len);
    assert rest == [ByteAt(input, pos)] + Rest(input, pos + 1, len - 1);
    assert data[k] == data[k..][0] && data[k + 1..] == data[k..][1..];
  }

  /** Decodes a frame's raster: the code size byte, then codes from the sub-blocks. */
  method ProcessGifRaster(g: Gif, input: seq<byte>) returns (ok: bool)
    requires g.codes.Length == TABLE && g.drawn == [] && g.Synced()
    modifies g, g.codes, g.raster, g.raster.image
    ensures ok ==> g.Synced()
    ensures var cs := ByteAt(input, 0);
      if cs > 12 then !ok
      else match Decode(cs, Unblocked(input, 1), 0, Start(cs), [])
        case Finished(out) => ok && g.drawn == out
        case Corrupt => !ok
  {
    hide Tracks, Feeding, Decode, OneCode, Unblocked, ReadBits, Pow2, Initial, Raster.Valid, Raster.Capacity;
    var cs := ByteAt(input, 0);
    if cs > 12 { return false; }
    g.InitTable(cs);
    var oldcode: int := -1;
    var avail: nat, codesize: nat, first := Pow2(cs) + 2, cs + 1, true;
    var pos: nat, len: nat, bits: nat, valid: nat := 1, 0, 0, 0;
    ghost var data, p, k, st := Unblocked(input, 1), 0, 0, Start(cs);
    ghost var goal := Decode(cs, data, 0, st, []);
    StartTracks(g.codes[..], cs);
    StartFeeding(input);
    while true
      invariant Tracks(g.codes[..], cs, st, avail, oldcode, codesize, first) && g.Synced()
      invariant Feeding(input, data, k, pos, len, p, bits, valid)
      invariant Decode(cs, data, p, st, g.drawn) == goal
      decreases 8 * |data| - p, 8 * |data| - 8 * k
    {
      TracksFacts(g.codes[..], cs, st, avail, oldcode, codesize, first);
      FeedingFacts(input, data, k, pos, len, p, bits, valid);
      if valid < codesize {
        var more;
        more, pos, len, bits := FeedByte(input, data, k, pos, len, p, bits, valid);
        if !more {
          OutOfData(cs, data, p, st, g.drawn);
          return true;
        }
        k, valid := k + 1, valid + 8;
      } else {
        TakeCode(input, data, k, pos, len, p, bits, valid, codesize);
        var code := BitAnd(bits, Pow2(codesize) - 1);
        DecodeStep(cs, data, p, st, g.drawn);
        bits, valid, p := Shr(bits, codesize), valid - codesize, p + codesize;
        if code == Pow2(cs) {
          Restart(g.codes[..], cs, st, avail, oldcode, codesize, first, g.drawn);
          codesize, avail, oldcode, first := cs + 1, Pow2(cs) + 2, -1, false;
          st := State(Initial(cs), -1, cs + 1, true);
        } else if code == Pow2(cs) + 1 {
          StopCode(cs, st);
          return true;
        } else {
          ok, avail, codesize, st := g.DataCode(cs, st, avail, oldcode, codesize, first, code);
          if !ok { return; }
          oldcode := code;
        }
      }
    }
  }

  lemma StartTracks(codes: seq<Entry>, cs: nat)
    requires |codes| == TABLE && cs <= 12 && ColorsOk(codes, Pow2(cs))
    ensures Tracks(codes, cs, Start(cs), Pow2(cs) + 2, -1, cs + 1, true)
  {
    ControlFits(cs);
    InitialRepresented(codes, cs);
  }

  lemma StartFeeding(input: seq<byte>)
    ensures Feeding(input, Unblocked(input, 1), 0, 1, 0, 0, 0, 0)
  {
    EmptyBytes(input, 1);
    ReadNothing(Unblocked(input, 1), 0);
    assert Unblocked(input, 1)[0..] == Unblocked(input, 1);
  }

  lemma TracksFacts(codes: seq<Entry>, cs: nat, st: State, avail: nat, oldcode: int, codesize: nat, first: bool)
    requires Tracks(codes, cs, st, avail, oldcode, codesize, first)
    ensures st.size == codesize && 1 <= codesize <= 13 && first == !st.started
  {
  }

  lemma FeedingFacts(input: seq<byte>, data: seq<byte>, k: nat, pos: nat, len: nat, p: nat, bits: nat, valid: nat)
    requires Feeding(input, data, k, pos, len, p, bits, valid)
    ensures k <= |data| && p + valid == 8 * k
  {
  }

  lemma OutOfData(cs: nat, data: seq<byte>, p: nat, st: State, out: seq<byte>)
    requires p + st.size > 8 * |data|
    ensures Decode(cs, data, p, st, out) == Finished(out)
  {
  }

  lemma DecodeStep(cs: nat, data: seq<byte>, p: nat, st: State, out: seq<byte>)
    requires 1 <= st.size && p + st.size <= 8 * |data|
    ensures Decode(cs, data, p, st, out) ==
      (match OneCode(cs, st, ReadBits(data, p, st.size))
       case Stop => Finished(out)
       case Fail => Result.Corrupt
       case Next(st', s) => Decode(cs, data, p + st.size, st', out + s))
  {
  }

  lemma TakeCode(input: seq<byte>, data: seq<byte>, k: nat, pos: nat, len: nat, p: nat, bits: nat, valid: nat, n: nat)
    requires Feeding(input, data, k, pos, len, p, bits, valid) && n <= valid
    ensures BitAnd(bits, Pow2(n) - 1) == ReadBits(data, p, n)
    ensures Feeding(input, data, k, pos, len, p + n, Shr(bits, n), valid - n)
  {
    AndMask(bits, n);
    ReadSplit(data, p, n, valid - n);
  }

  lemma Restart(codes: seq<Entry>, cs: nat, st: State, avail: nat, oldcode: int, codesize: nat, first: bool, out: seq<byte>)
    requires Tracks(codes, cs, st, avail, oldcode, codesize, first) && cs <= 12
    ensures OneCode(cs, st, Pow2(cs)) == Next(State(Initial(cs), -1, cs + 1, true), [])
    ensures Tracks(codes, cs, State(Initial(cs), -1, cs + 1, true), Pow2(cs) + 2, -1, cs + 1, false)
    ensures out + [] == out
  {
    ControlFits(cs);
    InitialRepresented(codes, cs);
  }

  lemma StopCode(cs: nat, st: State)
    ensures OneCode(cs, st, Pow2(cs) + 1) == Stop
  {
  }

  lemma ControlFits(cs: nat)
    requires cs <= 12
    ensures Pow2(cs) + 2 <= TABLE
  {
    Pow2Monotone(cs, 12);
    Pow2Values();
  }
}
