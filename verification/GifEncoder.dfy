/** GIF's LZW from the encoder's side (appendix F of GIF89a): how wide codes are, which codes may stand for a
    string, and that any such codes decode to the strings. */
module GifEncodings {
  import opened Bits
  import opened GifLzw
  import Inflate
  import opened Lz77

  // ---- code widths ----

  /** The least width from s on, at most twelve bits, in which all numbers below n can be written and n as well. */
  function FirstFit(s: nat, n: nat): (r: nat)
    requires s <= 12
    ensures s <= r <= 12
    decreases 12 - s
  {
    if s == 12 || n < Pow2(s) then s else FirstFit(s + 1, n)
  }

  /** Codes are as wide as the number of entries demands: one bit more than the colours at first, and at most
      twelve bits. */
  lemma {:induction false} FirstFitIsLeast(s: nat, n: nat)
    requires s <= 12
    ensures var r := FirstFit(s, n);
      (n < Pow2(r) || r == 12) && forall t :: s <= t < r ==> n >= Pow2(t)
    decreases 12 - s
  {
    if s < 12 && n >= Pow2(s) { FirstFitIsLeast(s + 1, n); }
  }

  lemma {:induction false} FitStays(s: nat, n: nat)
    requires s <= 12
    ensures var r := FirstFit(s, n); FirstFit(s, n + 1) == if n + 1 < Pow2(r) || r == 12 then r else FirstFit(r + 1, n + 1)
    decreases 12 - s
  {
    if s < 12 && n >= Pow2(s) { FitStays(s + 1, n); }
  }

  /** The decoder's rule gives the width that the new number of entries demands. */
  lemma GrownFits(s: nat, n: nat)
    requires s <= 12
    ensures var r := FirstFit(s, n); n > 0 ==> (n < Pow2(r) || r == 12) ==> Grown(n, r) == r
    ensures var r := FirstFit(s, n); Grown(n + 1, r) == FirstFit(s, n + 1)
  {
    hide FirstFit, Pow2, Low;
    var r := FirstFit(s, n);
    FirstFitIsLeast(s, n);
    FitStays(s, n);
    AtPower(n, r);
    AtPower(n + 1, r);
    Pow2Values();
    if n + 1 >= Pow2(r) && r < 12 {
      NextWidth(r);
    }
  }

  lemma NextWidth(r: nat)
    requires r < 12
    ensures FirstFit(r + 1, Pow2(r)) == r + 1 && Pow2(r) <= 0xfff
  {
    Pow2Monotone(r, 11);
    Pow2Values();
    assert Pow2(r) < Pow2(r + 1);
  }

  /** The low bits of a number that is not above a power of two vanish only at the power. */
  lemma AtPower(n: nat, r: nat)
    ensures 0 < n < Pow2(r) ==> Low(n, r) != 0
    ensures n == Pow2(r) ==> Low(n, r) == 0
    ensures r == 12 && n >= Pow2(12) ==> n > 0xfff
  {
    LowBound(n, r);
    if n == Pow2(r) { LowOfPower(r); }
    Pow2Values();
  }

  lemma {:induction false} LowOfPower(r: nat)
    ensures Low(Pow2(r), r) == 0
  {
    if r > 0 {
      LowOfPower(r - 1);
      assert Pow2(r) / 2 == Pow2(r - 1);
    }
  }

  /** In every state reached from a clear code the code size is the least that fits the entries. */
  lemma SizeFollows(cs: nat, st: State, code: nat)
    requires 2 <= cs <= 11 && |st.dict| > 0 && (st.started ==> st.size == FirstFit(cs + 1, |st.dict|))
    ensures var r := OneCode(cs, st, code); r.Next? ==> |r.st.dict| > 0 && r.st.started && r.st.size == FirstFit(cs + 1, |r.st.dict|)
  {
    hide FirstFit, Grown, Pow2;
    GrownFits(cs + 1, |st.dict|);
    FirstFitIsLeast(cs + 1, |st.dict|);
    FirstWidth(cs);
  }

  lemma FirstWidth(cs: nat)
    requires 2 <= cs <= 11
    ensures FirstFit(cs + 1, Pow2(cs) + 2) == cs + 1
  {
    Pow2Monotone(2, cs);
    Pow2Values();
  }

  // ---- which codes stand for which strings ----

  /** How many entries a decoder has after n strings: the colours, the two control codes, and one for every
      string but the first. */
  function Entries(cs: nat, n: nat): nat {
    Pow2(cs) + 2 + if n == 0 then 0 else n - 1
  }

  /** Code c may stand for string i: a colour by itself, or an earlier string with the first byte of the one
      behind it, which may be string i itself. */
  predicate IsCode(cs: nat, strings: seq<seq<byte>>, i: nat, c: nat)
    requires i < |strings|
  {
    || (c < Pow2(cs) && strings[i] == [c % 256])
    || (Pow2(cs) + 2 <= c < Pow2(cs) + 2 + i
        && var j := c - Pow2(cs) - 2; strings[j + 1] != [] && strings[i] == strings[j] + [strings[j + 1][0]])
  }

  /** The codes stand for the strings, within twelve bits and the decoder's table. */
  ghost predicate Encoded(cs: nat, strings: seq<seq<byte>>, codes: seq<nat>) {
    && 2 <= cs <= 11 && |codes| == |strings| && Entries(cs, |codes|) <= TABLE
    && (forall i :: 0 <= i < |strings| ==> strings[i] != [])
    && (forall i :: 0 <= i < |codes| ==> codes[i] < 0x1000 && IsCode(cs, strings, i, codes[i]))
  }

  /** From bit p on the data holds the codes from the i-th on, each in the width that the entries known before
      it demand, and the stop code. */
  ghost predicate CodesAt(cs: nat, data: seq<byte>, p: nat, codes: seq<nat>, i: nat)
    requires i <= |codes| && cs <= 11
    decreases |codes| - i
  {
    var width := FirstFit(cs + 1, Entries(cs, i));
    && p + width <= 8 * |data|
    && Shows(data, p, Lsb(if i == |codes| then Pow2(cs) + 1 else codes[i], width))
    && (i < |codes| ==> CodesAt(cs, data, p + width, codes, i + 1))
  }

  function Joined(strings: seq<seq<byte>>): seq<byte> {
    if strings == [] then [] else strings[0] + Joined(strings[1..])
  }

  // ---- decoding them ----

  /** Entry j of the strings made so far. */
  function Made(strings: seq<seq<byte>>, n: nat): (d: seq<seq<byte>>)
    requires n <= |strings| && forall i :: 0 <= i < |strings| ==> strings[i] != []
    ensures |d| == if n == 0 then 0 else n - 1
  {
    seq(if n == 0 then 0 else n - 1, j requires 0 <= j < (if n == 0 then 0 else n - 1) => strings[j] + [strings[j + 1][0]])
  }

  /** The decoder's state after n strings. */
  ghost function After(cs: nat, strings: seq<seq<byte>>, codes: seq<nat>, n: nat): State
    requires Encoded(cs, strings, codes) && n <= |codes|
  {
    State(Initial(cs) + Made(strings, n), if n == 0 then -1 else codes[n - 1], FirstFit(cs + 1, Entries(cs, n)), true)
  }

  lemma MadeNext(strings: seq<seq<byte>>, n: nat)
    requires 0 < n < |strings| && forall i :: 0 <= i < |strings| ==> strings[i] != []
    ensures Made(strings, n + 1) == Made(strings, n) + [strings[n - 1] + [strings[n][0]]]
  {
  }

  /** The codes taken so far stand in the dictionary. */
  lemma CodeSpells(cs: nat, strings: seq<seq<byte>>, codes: seq<nat>, n: nat, i: nat)
    requires Encoded(cs, strings, codes) && i < n <= |codes|
    ensures var dict := Initial(cs) + Made(strings, n); codes[i] < |dict| && dict[codes[i]] == strings[i]
  {
    hide Pow2;
    assert IsCode(cs, strings, i, codes[i]);
  }

  /** The next code stands in the dictionary, or is the entry about to be made. */
  lemma NextSpells(cs: nat, strings: seq<seq<byte>>, codes: seq<nat>, n: nat)
    requires Encoded(cs, strings, codes) && n < |codes|
    ensures var dict, c := Initial(cs) + Made(strings, n), codes[n];
      && c <= |dict| && c != Pow2(cs) && c != Pow2(cs) + 1
      && if c == |dict| then n > 0 && strings[n] == strings[n - 1] + [strings[n - 1][0]] else dict[c] == strings[n]
  {
    hide Pow2;
    var c := codes[n];
    assert IsCode(cs, strings, n, c);
    if c == |Initial(cs) + Made(strings, n)| {
      assert n > 0 && strings[n] == strings[n - 1] + [strings[n][0]];
      assert strings[n][0] == strings[n - 1][0];
    }
  }

  /** One code turns the state after n strings into the state after one more, and gives the string. */
  lemma CodeStep(cs: nat, strings: seq<seq<byte>>, codes: seq<nat>, n: nat)
    requires Encoded(cs, strings, codes) && n < |codes|
    ensures OneCode(cs, After(cs, strings, codes, n), codes[n]) == Step.Next(After(cs, strings, codes, n + 1), strings[n])
  {
    hide Pow2, Grown, FirstFit, IsCode, Made;
    var st, c := After(cs, strings, codes, n), codes[n];
    NextSpells(cs, strings, codes, n);
    GrownFits(cs + 1, Entries(cs, n));
    FirstFitIsLeast(cs + 1, Entries(cs, n));
    MadeSize(strings, n);
    if n == 0 {
      MadeSize(strings, 1);
      assert Made(strings, 0) == [] && Made(strings, 1) == [];
    } else {
      CodeSpells(cs, strings, codes, n, n - 1);
      MadeNext(strings, n);
      assert st.dict + [strings[n - 1] + [strings[n][0]]] == After(cs, strings, codes, n + 1).dict;
    }
  }

  lemma MadeSize(strings: seq<seq<byte>>, n: nat)
    requires n <= |strings| && forall i :: 0 <= i < |strings| ==> strings[i] != []
    ensures |Made(strings, n)| == if n == 0 then 0 else n - 1
  {
  }

  lemma CodeFits(cs: nat, strings: seq<seq<byte>>, codes: seq<nat>, i: nat)
    requires Encoded(cs, strings, codes) && i <= |codes|
    ensures var width := FirstFit(cs + 1, Entries(cs, i));
      0 < width && (if i == |codes| then Pow2(cs) + 1 else codes[i]) < Pow2(width)
  {
    hide FirstFit;
    var width := FirstFit(cs + 1, Entries(cs, i));
    FirstFitIsLeast(cs + 1, Entries(cs, i));
    FirstFitRange(cs + 1, Entries(cs, i));
    Pow2Monotone(cs + 1, width);
    Pow2Values();
    Pow2Monotone(2, cs);
    if i < |codes| {
      assert IsCode(cs, strings, i, codes[i]);
    }
  }

  lemma FirstFitRange(s: nat, n: nat)
    requires s <= 12
    ensures s <= FirstFit(s, n) <= 12
  {
  }

  /** From the i-th code on, decoding appends the remaining strings and stops. */
  lemma {:induction false} CodesDecode(cs: nat, data: seq<byte>, p: nat, strings: seq<seq<byte>>, codes: seq<nat>, i: nat, out: seq<byte>)
    requires Encoded(cs, strings, codes) && i <= |codes| && CodesAt(cs, data, p, codes, i)
    ensures Decode(cs, data, p, After(cs, strings, codes, i), out) == Finished(out + Joined(strings[i..]))
    decreases |codes| - i
  {
    hide Shows, Lsb, OneCode, Encoded, Pow2, FirstFit, After, Initial, Made, GifLzw.Decode;
    var st, width := After(cs, strings, codes, i), FirstFit(cs + 1, Entries(cs, i));
    AfterSize(cs, strings, codes, i);
    CodeFits(cs, strings, codes, i);
    FieldReads(data, p, if i == |codes| then Pow2(cs) + 1 else codes[i], width);
    DecodeStep(cs, data, p, st, out);
    if i == |codes| {
      StopCode(cs, st);
      assert strings[i..] == [] && out + [] == out;
    } else {
      CodeStep(cs, strings, codes, i);
      CodesDecode(cs, data, p + width, strings, codes, i + 1, out + strings[i]);
      assert strings[i..][1..] == strings[i + 1..];
      assert out + (strings[i] + Joined(strings[i + 1..])) == out + strings[i] + Joined(strings[i + 1..]);
    }
  }

  lemma AfterSize(cs: nat, strings: seq<seq<byte>>, codes: seq<nat>, i: nat)
    requires Encoded(cs, strings, codes) && i <= |codes|
    ensures After(cs, strings, codes, i).size == FirstFit(cs + 1, Entries(cs, i)) && |codes| == |strings|
  {
  }

  /** Whatever strings an encoder cuts the colours into: a clear code, the codes of the strings and the stop code
      decode to the colours. */
  lemma EncodedDecodes(cs: nat, data: seq<byte>, strings: seq<seq<byte>>, codes: seq<nat>)
    requires Encoded(cs, strings, codes)
    requires Shows(data, 0, Lsb(Pow2(cs), cs + 1)) && CodesAt(cs, data, cs + 1, codes, 0)
    ensures GifLzw.Decode(cs, data, 0, Start(cs), []) == Finished(Joined(strings))
  {
    hide Shows, Lsb, Encoded, FirstFit, GifLzw.Decode, Made, Initial, CodesAt;
    EncodedRange(cs, strings, codes);
    CodesInside(cs, data, cs + 1, codes, 0);
    PowerBelow(cs);
    FieldReads(data, 0, Pow2(cs), cs + 1);
    DecodeStep(cs, data, 0, Start(cs), []);
    ClearCode(cs, strings, codes);
    var none: seq<byte> := [];
    assert none + [] == none;
    CodesDecode(cs, data, cs + 1, strings, codes, 0, none);
    assert strings[0..] == strings && [] + Joined(strings) == Joined(strings);
  }

  lemma PowerBelow(cs: nat)
    ensures Pow2(cs) < Pow2(cs + 1)
  {
  }

  lemma EncodedRange(cs: nat, strings: seq<seq<byte>>, codes: seq<nat>)
    requires Encoded(cs, strings, codes)
    ensures 2 <= cs <= 11
  {
  }

  lemma CodesInside(cs: nat, data: seq<byte>, p: nat, codes: seq<nat>, i: nat)
    requires i <= |codes| && cs <= 11 && CodesAt(cs, data, p, codes, i)
    ensures p <= 8 * |data|
  {
  }

  lemma ClearCode(cs: nat, strings: seq<seq<byte>>, codes: seq<nat>)
    requires Encoded(cs, strings, codes)
    ensures OneCode(cs, Start(cs), Pow2(cs)) == Step.Next(After(cs, strings, codes, 0), [])
  {
    hide Pow2, FirstFit;
    FirstWidth(cs);
    assert Made(strings, 0) == [];
  }

  // ---- sub-blocks ----

  /** The data in sub-blocks of at most 255 bytes, each behind its size, and the empty block. */
  function Blocked(pieces: seq<seq<byte>>): seq<byte>
    requires forall i :: 0 <= i < |pieces| ==> 0 < |pieces[i]| < 256
  {
    if pieces == [] then [0] else [|pieces[0]|] + pieces[0] + Blocked(pieces[1..])
  }

  lemma SliceOf(s: seq<byte>, q: nat, all: seq<byte>, a: nat, b: nat)
    requires q + |all| <= |s| && s[q..q + |all|] == all && a <= b <= |all|
    ensures s[q + a..q + b] == all[a..b]
  {
    forall k | a <= k < b
      ensures s[q + k] == all[k]
    {
      assert s[q..q + |all|][k] == s[q + k];
    }
  }

  lemma BytesAreSlice(input: seq<byte>, q: nat, n: nat)
    requires q + n <= |input|
    ensures Bytes(input, q, n) == input[q..q + n]
  {
    forall i | 0 <= i < n
      ensures Bytes(input, q, n)[i] == input[q..q + n][i]
    {
      assert Inflate.ByteAt(input, q + i) == input[q + i];
    }
  }

  /** However the data is cut, reading the sub-blocks joins it. */
  lemma {:induction false} BlockedReads(input: seq<byte>, q: nat, pieces: seq<seq<byte>>)
    requires forall i :: 0 <= i < |pieces| ==> 0 < |pieces[i]| < 256
    requires q + |Blocked(pieces)| <= |input| && input[q..q + |Blocked(pieces)|] == Blocked(pieces)
    ensures Unblocked(input, q) == Joined(pieces)
    decreases |pieces|
  {
    var all := input[q..q + |Blocked(pieces)|];
    assert input[q] == all[0];
    if pieces != [] {
      var piece, rest := pieces[0], Blocked(pieces[1..]);
      var n := |piece|;
      assert all == [n] + piece + rest;
      hide Blocked, Bytes;
      PieceStands(input, q, all, piece, rest);
      BlockedReads(input, q + 1 + n, pieces[1..]);
      hide Unblocked;
      FirstBlock(input, q, n);
    }
  }

  lemma PieceStands(input: seq<byte>, q: nat, all: seq<byte>, piece: seq<byte>, rest: seq<byte>)
    requires 0 < |piece| < 256 && all == [|piece|] + piece + rest
    requires q + |all| <= |input| && input[q..q + |all|] == all
    ensures var n := |piece|;
      input[q] == n && Bytes(input, q + 1, n) == piece && input[q + 1 + n..q + 1 + n + |rest|] == rest
  {
    var n := |piece|;
    SliceOf(input, q, all, 0, 1);
    SliceOf(input, q, all, 1, 1 + n);
    SliceOf(input, q, all, 1 + n, |all|);
    assert all[0..1] == [n] && all[1..1 + n] == piece && all[1 + n..|all|] == rest;
    assert input[q] == input[q + 0..q + 1][0];
    BytesAreSlice(input, q + 1, n);
  }

  lemma FirstBlock(input: seq<byte>, q: nat, n: nat)
    requires 0 < n < 256 && q < |input| && input[q] == n
    ensures Unblocked(input, q) == Bytes(input, q + 1, n) + Unblocked(input, q + 1 + n)
  {
    hide Bytes;
  }
}
