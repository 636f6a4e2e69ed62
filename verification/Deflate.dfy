/** The compressor: a hash table of earlier positions, the longest match among a bucket's
    candidates, one step of lazy matching, and the fixed-code writer. */
module Deflate {
  import opened Bits
  import opened Inflate
  import opened Lz77
  import opened BitWriters
  import Adler

  const HASH_SIZE := 16384

  /** Any function of three bytes will do. */
  type Hash = (byte, byte, byte) -> nat

  function Bucket(hash: Hash, data: seq<byte>, i: nat): (h: nat)
    requires i + 2 < |data|
    ensures h < HASH_SIZE
  {
    hash(data[i], data[i + 1], data[i + 2]) % HASH_SIZE
  }

  /** How far the data at a and b agree, within the data after b and at most 258 bytes. */
  function MatchLength(data: seq<byte>, a: nat, b: nat, n: nat): (r: nat)
    requires a <= b && b + n <= |data| && n <= 258
    ensures n <= r <= 258 || r == n
    ensures b + r <= |data|
    decreases 258 - n
  {
    if n < 258 && b + n < |data| && data[a + n] == data[b + n] then MatchLength(data, a, b, n + 1) else n
  }

  lemma {:induction false} MatchAgrees(data: seq<byte>, a: nat, b: nat, n: nat)
    requires a <= b && b + n <= |data| && n <= 258 && data[a..a + n] == data[b..b + n]
    ensures var r := MatchLength(data, a, b, n); data[a..a + r] == data[b..b + r]
    decreases 258 - n
  {
    if n < 258 && b + n < |data| && data[a + n] == data[b + n] {
      assert data[a..a + n + 1] == data[a..a + n] + [data[a + n]];
      assert data[b..b + n + 1] == data[b..b + n] + [data[b + n]];
      MatchAgrees(data, a, b, n + 1);
    }
  }

  lemma StretchesAgree(data: seq<byte>, a: nat, b: nat)
    requires a <= b <= |data|
    ensures var r := MatchLength(data, a, b, 0);
      r <= 258 && b + r <= |data| && data[b..b + r] == data[a..a + r]
  {
    assert data[a..a + 0] == data[b..b + 0] == [];
    MatchAgrees(data, a, b, 0);
  }

  /** The agreement goes on as far as it can, up to 258 bytes and the end of the data. */
  lemma {:induction false} MatchIsLongest(data: seq<byte>, a: nat, b: nat, n: nat)
    requires a <= b && b + n <= |data| && n <= 258
    ensures var r := MatchLength(data, a, b, n);
      n <= r <= 258 && b + r <= |data| && (r < 258 && b + r < |data| ==> data[a + r] != data[b + r])
    decreases 258 - n
  {
    if n < 258 && b + n < |data| && data[a + n] == data[b + n] { MatchIsLongest(data, a, b, n + 1); }
  }

  /** Counts equal bytes. */
  method CountM(data: seq<byte>, a: nat, b: nat, limit: nat) returns (n: nat)
    requires a <= b && b + limit == |data|
    ensures n == MatchLength(data, a, b, 0)
  {
    n := 0;
    while n < limit && n < 258
      invariant n <= limit && n <= 258 && MatchLength(data, a, b, n) == MatchLength(data, a, b, 0)
      decreases limit - n
    {
      if data[a + n] != data[b + n] { return; }
      n := n + 1;
    }
  }

  /** A bucket holds only positions below n, at most `room` of them. */
  ghost predicate BucketOk(list: seq<nat>, n: nat, room: nat) {
    |list| <= room && forall k :: 0 <= k < |list| ==> list[k] < n
  }

  ghost predicate TableOk(table: seq<seq<nat>>, n: nat, quality: nat) {
    |table| == HASH_SIZE && forall h :: 0 <= h < HASH_SIZE ==> BucketOk(table[h], n, 2 * quality)
  }

  /** Candidate e is usable for a match that starts at i: within the window and long enough. */
  predicate Usable(data: seq<byte>, i: nat, e: nat, window: nat, least: nat) {
    e <= i <= |data| && e + window > i && MatchLength(data, e, i, 0) >= least
  }

  /** The choice among the candidates: a longest usable one, the latest in the list among equals. */
  ghost predicate Chosen(data: seq<byte>, list: seq<nat>, i: nat, loc: nat, best: nat) {
    exists k :: 0 <= k < |list| && ChosenAt(data, list, |list|, i, loc, best, k)
  }

  /** Entry k is the choice among the first n candidates. */
  ghost predicate ChosenAt(data: seq<byte>, list: seq<nat>, n: nat, i: nat, loc: nat, best: nat, k: nat)
    requires k < n <= |list|
  {
    && list[k] == loc && Usable(data, i, loc, 32768, 3) && best == MatchLength(data, loc, i, 0)
    && (forall j :: 0 <= j < k ==> !Usable(data, i, list[j], 32768, best + 1))
    && (forall j :: k < j < n ==> !Usable(data, i, list[j], 32768, best))
  }

  ghost predicate NoneUsable(data: seq<byte>, list: seq<nat>, n: nat, i: nat, least: nat)
    requires n <= |list|
  {
    forall j :: 0 <= j < n ==> !Usable(data, i, list[j], 32768, least)
  }

  /** A candidate at least as long takes over. */
  lemma ChosenReplaced(data: seq<byte>, list: seq<nat>, n: nat, i: nat, loc: int, best: nat, k: nat)
    requires n < |list| && loc >= 0 ==> k < n
    requires n < |list| && Usable(data, i, list[n], 32768, 3) && MatchLength(data, list[n], i, 0) >= best
    requires if loc < 0 then NoneUsable(data, list, n, i, 3) else ChosenAt(data, list, n, i, loc, best, k)
    ensures ChosenAt(data, list, n + 1, i, list[n], MatchLength(data, list[n], i, 0), n)
  {
    hide MatchLength;
    var d := MatchLength(data, list[n], i, 0);
    forall j | 0 <= j < n
      ensures !Usable(data, i, list[j], 32768, d + 1)
    {
      if loc >= 0 {
        assert j == k || !Usable(data, i, list[j], 32768, best + 1);
      }
    }
  }

  /** Searches a bucket for the longest match. */
  method FindMatch(data: seq<byte>, hlist: seq<nat>, i: nat) returns (best: nat, bestloc: int)
    requires i <= |data| && BucketOk(hlist, i, |hlist|)
    ensures bestloc < 0 ==> NoneUsable(data, hlist, |hlist|, i, 3)
    ensures bestloc >= 0 ==> Chosen(data, hlist, i, bestloc, best)
  {
    hide MatchLength;
    best, bestloc := 3, -1;
    ghost var at := 0;
    for j := 0 to |hlist|
      invariant best >= 3 && (bestloc < 0 ==> best == 3) && (bestloc >= 0 ==> at < j)
      invariant if bestloc < 0 then NoneUsable(data, hlist, j, i, 3)
                else ChosenAt(data, hlist, j, i, bestloc, best, at)
    {
      if hlist[j] + 32768 > i {  // within the window
        var d := CountM(data, hlist[j], i, |data| - i);
        if d >= best {
          ChosenReplaced(data, hlist, j, i, bestloc, best, at);
          best, bestloc, at := d, hlist[j], j;
        }
      }
    }
  }

  /** Whether the next position has a strictly longer match, which makes this one a literal. */
  method BetterNext(data: seq<byte>, hlist: seq<nat>, i: nat, best: nat) returns (b: bool)
    requires i < |data| && BucketOk(hlist, i + 1, |hlist|)
    ensures b <==> exists j :: 0 <= j < |hlist| && Usable(data, i + 1, hlist[j], 32768, best + 1)
  {
    for j := 0 to |hlist|
      invariant forall m :: 0 <= m < j ==> !Usable(data, i + 1, hlist[m], 32768, best + 1)
    {
      if hlist[j] + 32767 > i {
        var e := CountM(data, hlist[j], i + 1, |data| - i - 1);
        if e > best { return true; }
      }
    }
    b := false;
  }

  /** The bucket after position i is added: a full one first loses its older half. */
  function Pushed(list: seq<nat>, quality: nat, i: nat): seq<nat> {
    (if |list| == 2 * quality then list[quality..] else list) + [i]
  }

  /** A bucket keeps its newest positions: all of them, or the newest `quality` and the new one. */
  lemma PushedIsNewest(list: seq<nat>, quality: nat, i: nat)
    requires |list| <= 2 * quality
    ensures var r, all := Pushed(list, quality, i), list + [i];
      && |r| == (if |list| == 2 * quality then quality + 1 else |list| + 1) && |r| <= |all|
      && r == all[|all| - |r|..]
  {
  }

  lemma PushedOk(table: seq<seq<nat>>, h: nat, quality: nat, i: nat)
    requires TableOk(table, i, quality) && h < HASH_SIZE && quality > 0
    ensures TableOk(table[h := Pushed(table[h], quality, i)], i + 1, quality)
  {
    var list := Pushed(table[h], quality, i);
    var table' := table[h := list];
    assert BucketOk(table[h], i, 2 * quality);
    forall g | 0 <= g < HASH_SIZE
      ensures BucketOk(table'[g], i + 1, 2 * quality)
    {
      assert BucketOk(table[g], i, 2 * quality);
    }
  }

  /** What the next token must be, from the buckets of this position and of the next. */
  ghost predicate RightToken(data: seq<byte>, i: nat, list: seq<nat>, next: seq<nat>, t: Token) {
    match t
    case Reference(len, dist) =>
      && dist <= i && Chosen(data, list, i, i - dist, len)
      && !(exists j :: 0 <= j < |next| && Usable(data, i + 1, next[j], 32768, len + 1))
    case Literal(v) =>
      && i < |data| && v == data[i]
      && (NoneUsable(data, list, |list|, i, 3)
          || (exists loc: nat, best: nat :: Chosen(data, list, i, loc, best)
                && exists j :: 0 <= j < |next| && Usable(data, i + 1, next[j], 32768, best + 1)))
  }

  /** How many bytes a token stands for. */
  function TokenLength(t: Token): nat {
    match t
    case Literal(v) => 1
    case Reference(len, dist) => len
  }

  /** The token the search settles on is sound and stands for the next bytes of the data. */
  lemma RightTokenExpands(data: seq<byte>, i: nat, list: seq<nat>, next: seq<nat>, t: Token)
    requires i < |data| && BucketOk(list, i, |list|) && RightToken(data, i, list, next, t)
    ensures Sound(t, i) && (t.Reference? ==> t.dist <= 32767) && i + TokenLength(t) <= |data|
    ensures Expand1(data[..i], t) == data[..i + TokenLength(t)]
  {
    hide MatchLength, CopyBack;
    match t {
      case Literal(v) => assert data[..i + 1] == data[..i] + [v];
      case Reference(len, dist) =>
        var k :| 0 <= k < |list| && ChosenAt(data, list, |list|, i, i - dist, len, k);
        ChosenExpands(data, i, i - dist, len);
    }
  }

  lemma ChosenExpands(data: seq<byte>, i: nat, loc: nat, len: nat)
    requires loc < i <= |data| && Usable(data, i, loc, 32768, 3) && len == MatchLength(data, loc, i, 0)
    ensures 3 <= len <= 258 && i + len <= |data| && i - loc <= 32767
    ensures CopyBack(data[..i], i - loc, len) == data[..i + len]
  {
    hide CopyBack, MatchLength;
    StretchesAgree(data, loc, i);
    var dist := i - loc;
    assert i - dist == loc;
    ReferenceExpands(data, i, dist, len);
  }

  /** Decides the token at position i and records the position in the hash table. */
  method NextToken(data: seq<byte>, hash: Hash, table: array<seq<nat>>, i: nat, quality: nat) returns (t: Token)
    requires i + 3 < |data| && quality > 0 && TableOk(table[..], i, quality)
    modifies table
    ensures var h := Bucket(hash, data, i);
      && table[..] == old(table[..])[h := Pushed(old(table[h]), quality, i)]
      && TableOk(table[..], i + 1, quality)
      && RightToken(data, i, old(table[h]), table[Bucket(hash, data, i + 1)], t)
  {
    var h := Bucket(hash, data, i);
    ghost var before := table[..];
    assert BucketOk(before[h], i, 2 * quality);
    var best, bestloc := FindMatch(data, table[h], i);
    PushedOk(before, h, quality, i);
    table[h] := Pushed(table[h], quality, i);
    assert table[..] == before[h := Pushed(before[h], quality, i)];
    t := Literal(data[i]);
    if bestloc >= 0 {
      var g := Bucket(hash, data, i + 1);
      assert BucketOk(table[..][g], i + 1, 2 * quality);
      var better := BetterNext(data, table[g], i, best);
      if !better {
        t := Reference(best, i - bestloc);
      }
    }
  }

  /** The compressed body: the block header, the tokens, end-of-block and padding. */
  ghost function Body(tokens: seq<Token>, pad: nat): seq<bit>
    requires AllSound([], tokens)
  {
    [1] + [1, 0] + TokensBits([], tokens) + CodeBits(256) + Lsb(0, pad)
  }

  /** The bytes are the zlib stream of these tokens, with the checksum of the data. */
  ghost predicate IsStream(out: seq<byte>, tokens: seq<Token>, data: seq<byte>) {
    && AllSound([], tokens) && Expand([], tokens) == data
    && exists body: seq<byte>, pad: nat :: pad < 8
        && BytesBits(body) == BytesBits([0x78, 0x5e]) + Body(tokens, pad)
        && out == body + Adler.Trailer(data)
  }

  lemma TableLater(table: seq<seq<nat>>, m: nat, n: nat, quality: nat)
    requires TableOk(table, m, quality) && m <= n
    ensures TableOk(table, n, quality)
  {
    forall h | 0 <= h < HASH_SIZE
      ensures BucketOk(table[h], n, 2 * quality)
    {
      assert BucketOk(table[h], m, 2 * quality);
    }
  }

  /** The tokens written so far stand for the first i bytes. */
  ghost predicate Progress(tokens: seq<Token>, data: seq<byte>, i: nat) {
    i <= |data| && AllSound([], tokens) && Expand([], tokens) == data[..i]
  }

  lemma ProgressStep(tokens: seq<Token>, data: seq<byte>, i: nat, t: Token)
    requires Progress(tokens, data, i) && Sound(t, i) && i + TokenLength(t) <= |data|
    requires Expand1(data[..i], t) == data[..i + TokenLength(t)]
    ensures Progress(tokens + [t], data, i + TokenLength(t))
    ensures TokensBits([], tokens + [t]) == TokensBits([], tokens) + TokenBits(t)
  {
    ExpandAppend([], tokens, t);
    TokensBitsAppend([], tokens, t);
  }

  /** Writes one token. */
  method Emit(w: BitWriter, t: Token, ghost n: nat)
    requires w.Ok() && Sound(t, n) && (t.Reference? ==> t.dist <= 32767)
    modifies w
    ensures w.Ok() && w.Written() == old(w.Written()) + TokenBits(t)
  {
    match t {
      case Literal(v) => w.Huff(v);
      case Reference(len, dist) => w.Reference(len, dist);
    }
  }

  /** Writes all tokens: the search while at least four bytes remain, then plain literals. */
  method WriteTokens(w: BitWriter, data: seq<byte>, hash: Hash, quality: nat) returns (ghost tokens: seq<Token>)
    requires w.Ok() && quality > 0
    modifies w
    ensures w.Ok() && AllSound([], tokens) && Expand([], tokens) == data
    ensures w.Written() == old(w.Written()) + TokensBits([], tokens)
  {
    hide Expand, AllSound, TokensBits, TokenBits, RightToken, Bucket, Expand1, BytesBits, Lsb, Pushed, TableOk;
    var table := new seq<nat>[HASH_SIZE](_ => []);
    EmptyTable(table[..], quality);
    tokens := [];
    NoProgress(data);
    var i := 0;
    ghost var start := w.Written();
    assert start == start + [];
    while i < |data| - 3
      invariant w.Ok() && Progress(tokens, data, i) && TableOk(table[..], i, quality)
      invariant w.Written() == start + TokensBits([], tokens)
      decreases |data| - i
    {
      ghost var before := table[..];
      var t := NextToken(data, hash, table, i, quality);
      CheckedToken(data, hash, before, table[..], i, quality, t);
      Emit(w, t, i);
      ProgressStep(tokens, data, i, t);
      assert start + TokensBits([], tokens) + TokenBits(t) == start + (TokensBits([], tokens) + TokenBits(t));
      TableLater(table[..], i + 1, i + TokenLength(t), quality);
      tokens := tokens + [t];
      i := i + TokenLength(t);
    }
    tokens := WriteLiterals(w, data, i, tokens, start);
  }

  lemma EmptyTable(table: seq<seq<nat>>, quality: nat)
    requires |table| == HASH_SIZE && forall h :: 0 <= h < HASH_SIZE ==> table[h] == []
    ensures TableOk(table, 0, quality)
  {
  }

  lemma NoProgress(data: seq<byte>)
    ensures Progress([], data, 0) && TokensBits([], []) == []
  {
  }

  lemma CheckedToken(data: seq<byte>, hash: Hash, before: seq<seq<nat>>, after: seq<seq<nat>>, i: nat,
                     quality: nat, t: Token)
    requires i + 3 < |data| && TableOk(before, i, quality) && |after| == HASH_SIZE
    requires RightToken(data, i, before[Bucket(hash, data, i)], after[Bucket(hash, data, i + 1)], t)
    ensures Sound(t, i) && (t.Reference? ==> t.dist <= 32767) && 1 <= TokenLength(t) && i + TokenLength(t) <= |data|
    ensures Expand1(data[..i], t) == data[..i + TokenLength(t)]
  {
    assert BucketOk(before[Bucket(hash, data, i)], i, 2 * quality);
    RightTokenExpands(data, i, before[Bucket(hash, data, i)], after[Bucket(hash, data, i + 1)], t);
  }

  /** Writes the last bytes as literals. */
  method WriteLiterals(w: BitWriter, data: seq<byte>, from: nat, ghost before: seq<Token>, ghost start: seq<bit>)
      returns (ghost tokens: seq<Token>)
    requires w.Ok() && Progress(before, data, from) && w.Written() == start + TokensBits([], before)
    modifies w
    ensures w.Ok() && AllSound([], tokens) && Expand([], tokens) == data
    ensures w.Written() == start + TokensBits([], tokens)
  {
    hide Expand, AllSound, TokensBits, BytesBits, Lsb;
    tokens := before;
    for i := from to |data|
      invariant w.Ok() && Progress(tokens, data, i) && w.Written() == start + TokensBits([], tokens)
    {
      w.Huff(data[i]);
      var t := Literal(data[i]);
      assert data[..i] + [data[i]] == data[..i + 1];
      ProgressStep(tokens, data, i, t);
      assert start + TokensBits([], tokens) + TokenBits(t) == start + (TokensBits([], tokens) + TokenBits(t));
      tokens := tokens + [t];
    }
    assert data[..|data|] == data;
  }

  /** Starts the stream: the two header bytes, then a final block with fixed codes. */
  method WriteHeader() returns (w: BitWriter)
    ensures fresh(w) && w.Ok() && w.Written() == BytesBits([0x78, 0x5e]) + ([1] + [1, 0])
  {
    hide BytesBits;
    w := new BitWriter();
    w.out := [0x78, 0x5e];
    Pow2Values();
    assert Lsb(0, 0) == [];
    assert w.Written() == BytesBits([0x78, 0x5e]);
    w.Add(1, 1);
    w.Add(1, 2);
    assert Lsb(1, 1) == [1] + Lsb(0, 0) && Lsb(1, 2) == [1] + Lsb(0, 1) && Lsb(0, 1) == [0] + Lsb(0, 0);
    assert Lsb(1, 1) + Lsb(1, 2) == [1] + [1, 0];
    assert w.Written() == BytesBits([0x78, 0x5e]) + (Lsb(1, 1) + Lsb(1, 2));
  }

  /** Compresses: some sound tokens that stand for the data, written as a zlib stream. */
  method ZlibCompress(data: seq<byte>, quality: int, hash: Hash) returns (out: seq<byte>, ghost tokens: seq<Token>)
    ensures IsStream(out, tokens, data)
  {
    hide BytesBits, Lsb, TokensBits, CodeBits, AllSound, Expand;
    var q := if quality < 5 then 5 else quality;
    var w := WriteHeader();
    ghost var header := w.Written();
    tokens := WriteTokens(w, data, hash, q);
    w.Huff(256);
    ghost var pad := w.Pad();
    StreamParts(w.out, w.bitbuf, w.Written(), tokens, pad);
    var body := w.out;
    var trailer := Adler.Adler32(data);
    out := body + trailer;
  }

  lemma StreamParts(body: seq<byte>, bitbuf: nat, written: seq<bit>, tokens: seq<Token>, pad: nat)
    requires AllSound([], tokens)
    requires written == BytesBits(body) + Lsb(bitbuf, 0)
    requires written == BytesBits([0x78, 0x5e]) + ([1] + [1, 0]) + TokensBits([], tokens) + CodeBits(256) + Lsb(0, pad)
    ensures BytesBits(body) == BytesBits([0x78, 0x5e]) + Body(tokens, pad)
  {
    hide BytesBits, TokensBits, CodeBits, AllSound;
    var a, b, c, d, e := BytesBits([0x78, 0x5e]), [1] + [1, 0], TokensBits([], tokens), CodeBits(256), Lsb(0, pad);
    assert a + b + c + d + e == a + (b + c + d + e);
  }
}
