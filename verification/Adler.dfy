/** The Adler-32 checksum: section 9 of RFC 1950 reduces after every byte; the writer
    reduces once per block of at most 5552 bytes, in 32-bit arithmetic. */
module Adler {
  import opened Bits

  const BASE := 65521
  const BLOCK := 5552
  const WORD := 0x1_0000_0000

  /** The two sums after every byte, each reduced at once. */
  function Sums(data: seq<byte>): (r: (nat, nat))
    ensures r.0 < BASE && r.1 < BASE
  {
    if |data| == 0 then (1, 0)
    else
      var (s1, s2) := Sums(data[..|data| - 1]);
      var t1 := (s1 + data[|data| - 1]) % BASE;
      (t1, (s2 + t1) % BASE)
  }

  /** The four trailing bytes, most significant first. */
  function Trailer(data: seq<byte>): seq<byte> {
    var (s1, s2) := Sums(data);
    [s2 / 256 % 256, s2 % 256, s1 / 256 % 256, s1 % 256]
  }

  function Triangle(k: nat): nat {
    if k == 0 then 0 else Triangle(k - 1) + k
  }

  lemma {:induction false} TriangleClosed(k: nat)
    ensures 2 * Triangle(k) == k * (k + 1)
  {
    if k > 0 { TriangleClosed(k - 1); }
  }

  /** The second sum after k unreduced bytes stays within a word for a whole block. */
  lemma BlockFits(k: nat)
    requires k <= BLOCK
    ensures (BASE - 1) * (k + 1) + 255 * Triangle(k) < WORD
  {
    hide Triangle;
    TriangleClosed(BLOCK);
    TriangleGrows(k, BLOCK);
  }

  lemma {:induction false} TriangleGrows(k: nat, m: nat)
    requires k <= m
    ensures Triangle(k) <= Triangle(m)
    decreases m
  {
    if k < m { TriangleGrows(k, m - 1); }
  }

  lemma NoTriangle()
    ensures Triangle(0) == 0
  {
  }

  /** Adds one block without reducing; neither 32-bit sum wraps around. */
  method AddBlock(data: seq<byte>, j: nat, n: nat, a: nat, b: nat) returns (s1: nat, s2: nat)
    requires j + n <= |data| && n <= BLOCK && (a, b) == Sums(data[..j])
    ensures s1 < WORD && s2 < WORD
    ensures (s1 % BASE, s2 % BASE) == Sums(data[..j + n])
  {
    hide Sums, Triangle, AddWord;
    NoTriangle();
    s1, s2 := a, b;
    for i := 0 to n
      invariant s1 <= BASE - 1 + 255 * i
      invariant s2 <= (BASE - 1) * (i + 1) + 255 * Triangle(i)
      invariant s1 < WORD && s2 < WORD
      invariant (s1 % BASE, s2 % BASE) == Sums(data[..j + i])
    {
      BlockFits(i + 1);
      SumsStep(data, j + i, s1, s2);
      TriangleStep(i);
      s1 := AddWord(s1, data[j + i]);
      s2 := AddWord(s2, s1);
    }
  }

  /** `a + b` on a 32-bit unsigned word */
  function AddWord(a: nat, b: nat): (r: nat)
    ensures a + b < WORD ==> r == a + b
  {
    (a + b) % WORD
  }

  lemma TriangleStep(i: nat)
    ensures Triangle(i + 1) == Triangle(i) + i + 1
  {
  }

  lemma SumsStep(data: seq<byte>, m: nat, s1: nat, s2: nat)
    requires m < |data| && (s1 % BASE, s2 % BASE) == Sums(data[..m])
    ensures var t1 := s1 + data[m];
      (t1 % BASE, (s2 + t1) % BASE) == Sums(data[..m + 1])
  {
    assert data[..m + 1][..m] == data[..m];
    ReduceLate(s1, data[m]);
    ReduceLate(s2, s1 + data[m]);
  }

  /** Reducing the summands first does not change the reduced sum. */
  lemma ReduceLate(s: nat, v: nat)
    ensures (s + v) % BASE == (s % BASE + v % BASE) % BASE
    ensures (s + v) % BASE == (s % BASE + v) % BASE
  {
  }

  /** The blocked computation gives the trailer of the byte-by-byte definition. */
  method Adler32(data: seq<byte>) returns (trailer: seq<byte>)
    ensures trailer == Trailer(data)
  {
    var s1, s2 := 1, 0;
    var blocklen := |data| % BLOCK;
    var j := 0;
    ghost var blocks := |data| / BLOCK;
    assert data[..0] == [];
    while j < |data|
      invariant 0 <= blocklen <= BLOCK && j <= |data| && (s1, s2) == Sums(data[..j])
      invariant blocks >= 0 && (|data| == j + blocklen + BLOCK * blocks || j == |data|)
      decreases |data| - j, BLOCK - blocklen
    {
      hide Sums;
      s1, s2 := AddBlock(data, j, blocklen, s1, s2);
      s1 := s1 % BASE;
      s2 := s2 % BASE;
      j := j + blocklen;
      blocklen := BLOCK;
      if blocks > 0 { blocks := blocks - 1; }
    }
    assert data[..j] == data;
    trailer := [s2 / 256 % 256, s2 % 256, s1 / 256 % 256, s1 % 256];
  }

  // ---- the sums in closed form ----

  function Added(data: seq<byte>): nat {
    if |data| == 0 then 0 else Added(data[..|data| - 1]) + data[|data| - 1]
  }

  /** Every byte as often as there are bytes from it to the end. */
  function Weighted(data: seq<byte>): nat {
    if |data| == 0 then 0 else |data| * data[0] as int + Weighted(data[1..])
  }

  lemma WeightedFront(data: seq<byte>)
    requires |data| > 0
    ensures Weighted(data) == |data| * data[0] as int + Weighted(data[1..])
  {
  }

  lemma OneTimeMore(n: int, d: int)
    ensures (n + 1) * d == n * d + d
  {
  }

  lemma {:induction false} WeightedAppend(data: seq<byte>, b: byte)
    ensures Weighted(data + [b]) == Weighted(data) + Added(data) + b
  {
    var longer := data + [b];
    if |data| == 0 {
      assert longer[1..] == [];
    } else {
      var rest, n, d: int := data[1..], |data|, data[0];
      WeightedAppend(rest, b);
      AddedFront(data);
      assert longer[1..] == rest + [b] && longer[0] == data[0] && |longer| == n + 1;
      WeightedFront(data);
      WeightedFront(longer);
      hide Weighted, Added;
      OneTimeMore(n, d);
    }
  }

  lemma {:induction false} AddedFront(data: seq<byte>)
    requires |data| > 0
    ensures Added(data) == data[0] as int + Added(data[1..])
  {
    var n := |data| - 1;
    if n > 0 {
      AddedFront(data[..n]);
      assert data[..n][1..] == data[1..][..n - 1];
    }
  }

  lemma SumsLast(data: seq<byte>)
    requires |data| > 0
    ensures var n := |data| - 1;
      var s1, s2 := Sums(data[..n]).0, Sums(data[..n]).1;
      Sums(data) == ((s1 + data[n]) % BASE, (s2 + (s1 + data[n]) % BASE) % BASE)
  {
  }

  lemma ClosedStep(a: nat, w: nat, b: byte, s1: nat, s2: nat)
    requires s1 == a % BASE && s2 == w % BASE
    ensures (s1 + b) % BASE == (a + b) % BASE && (s2 + (s1 + b) % BASE) % BASE == (w + a + b) % BASE
  {
    ReduceLate(a, b);
    ReduceLate(w, a + b);
  }

  /** One more than the sum of all bytes, and their number plus every byte times its distance from the end,
      both modulo the largest prime below 2^16. */
  lemma {:induction false} SumsClosed(data: seq<byte>)
    ensures Sums(data) == ((1 + Added(data)) % 65521, (|data| + Weighted(data)) % 65521)
  {
    if |data| > 0 {
      var n := |data| - 1;
      SumsClosed(data[..n]);
      assert data == data[..n] + [data[n]];
      WeightedAppend(data[..n], data[n]);
      var a, w := Added(data[..n]), Weighted(data[..n]);
      var s1, s2 := Sums(data[..n]).0, Sums(data[..n]).1;
      assert Added(data) == a + data[n];
      SumsLast(data);
      hide Sums, Added, Weighted;
      ClosedStep(1 + a, n + w, data[n], s1, s2);
    }
  }

  /** The checksum is stored most significant byte first, the second sum in its upper half. */
  lemma TrailerIs(data: seq<byte>)
    ensures |Trailer(data)| == 4
    ensures var t := Trailer(data);
      0x100_0000 * t[0] as int + 0x1_0000 * t[1] as int + 256 * t[2] as int + t[3] as int
      == (|data| + Weighted(data)) % 65521 * 0x1_0000 + (1 + Added(data)) % 65521
  {
    SumsClosed(data);
    hide Sums, Weighted, Added;
    var s1, s2 := Sums(data).0, Sums(data).1;
    TwoDigits(s1);
    TwoDigits(s2);
  }

  lemma TwoDigits(v: nat)
    requires v < 0x1_0000
    ensures v == 256 * (v / 256 % 256) + v % 256
  {
  }
}
