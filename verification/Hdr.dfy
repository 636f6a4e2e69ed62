/** Radiance HDR scanlines: the four bytes of every pixel are split into planes, each coded as runs
    and dumps; the reader puts them back together. */
module Hdr {
  import opened Bits
  import opened Inflate
  import opened Contexts
  import opened Tga

  const MAX_DUMP := 128
  const MAX_RUN := 127

  // ---- the writer's packets ----

  /** Three equal bytes start at r. */
  predicate Triple(comp: seq<byte>, r: nat) {
    r + 2 < |comp| && comp[r] == comp[r + 1] && comp[r] == comp[r + 2]
  }

  /** The first run of three from x on, or the end. */
  function RunStart(comp: seq<byte>, x: nat): (r: nat)
    requires x <= |comp|
    ensures x <= r <= |comp| && (r < |comp| ==> Triple(comp, r))
    ensures forall k :: x <= k < r ==> !Triple(comp, k)
    decreases |comp| - x
  {
    if x == |comp| || Triple(comp, x) then x else RunStart(comp, x + 1)
  }

  /** Where the bytes equal to v end, from e on. */
  function RunEnd(comp: seq<byte>, e: nat, v: byte): (end: nat)
    requires e <= |comp|
    ensures e <= end <= |comp| && (forall k :: e <= k < end ==> comp[k] == v)
    ensures end < |comp| ==> comp[end] != v
    decreases |comp| - e
  {
    if e < |comp| && comp[e] == v then RunEnd(comp, e + 1, v) else e
  }

  function Min(a: nat, b: nat): nat {
    if a < b then a else b
  }

  /** Bytes copied out in packets of at most 128. */
  function Dumps(s: seq<byte>): seq<byte> {
    if |s| == 0 then []
    else
      var n := Min(|s|, MAX_DUMP);
      [n] + s[..n] + Dumps(s[n..])
  }

  /** A repeated byte in packets of at most 127. */
  function Runs(n: nat, v: byte): seq<byte> {
    if n == 0 then []
    else
      var k := Min(n, MAX_RUN);
      [k + 128, v] + Runs(n - k, v)
  }

  /** The packets for the plane from x on: up to the next run of three a dump, then the whole run. */
  function PlaneBytes(comp: seq<byte>, x: nat): seq<byte>
    requires x <= |comp|
    decreases |comp| - x
  {
    if x == |comp| then []
    else
      var r := RunStart(comp, x);
      if r == |comp| then Dumps(comp[x..])
      else
        var e := RunEnd(comp, r, comp[r]);
        Dumps(comp[x..r]) + Runs(e - r, comp[r]) + PlaneBytes(comp, e)
  }

  // ---- the reader, as a function ----

  /** The bytes of a plane and the position after them; a packet that overfills the plane; or empty
      packets for ever. */
  datatype Plane = Plane(bytes: seq<byte>, pos: nat) | TooLong | Endless

  function Prefixed(s: seq<byte>, p: Plane): Plane {
    if p.Plane? then p.(bytes := s + p.bytes) else p
  }

  function BytesAt(file: seq<byte>, p: nat, n: nat): (s: seq<byte>)
    ensures |s| == n
  {
    PixelAt(file, p, n)
  }

  function Repeated(v: byte, n: nat): (s: seq<byte>)
    ensures |s| == n && forall k :: 0 <= k < n ==> s[k] == v
  {
    seq<byte>(n, k requires 0 <= k < n => v)
  }

  function ReadPlane(file: seq<byte>, p: nat, left: nat): Plane
    decreases left, if p < |file| then |file| - p else 0
  {
    if left == 0 then Plane([], p)
    else
      var count := ByteAt(file, p);
      if count > 128 then
        if count - 128 > left then TooLong
        else Prefixed(Repeated(ByteAt(file, p + 1), count - 128), ReadPlane(file, p + 2, left - (count - 128)))
      else if count > left then TooLong
      else if count > 0 then Prefixed(BytesAt(file, p + 1, count), ReadPlane(file, p + 1 + count, left - count))
      else if p >= |file| then Endless
      else ReadPlane(file, p + 1, left)
  }

  /** How many bytes the packets from p to the end of the file deliver in all. */
  function Delivered(file: seq<byte>, p: nat): nat
    decreases |file| - p
  {
    if p >= |file| then 0
    else if file[p] > 128 then file[p] - 128 + Delivered(file, p + 2)
    else file[p] + Delivered(file, p + 1 + file[p])
  }

  /** Reading a plane never ends exactly when all packets left in the file deliver too little for it. */
  lemma {:induction false} EndlessExactly(file: seq<byte>, p: nat, left: nat)
    ensures ReadPlane(file, p, left).Endless? <==> Delivered(file, p) < left
    decreases left, if p < |file| then |file| - p else 0
  {
    if left > 0 && p < |file| {
      var count := file[p];
      if count > 128 {
        if count - 128 <= left { EndlessExactly(file, p + 2, left - (count - 128)); }
      } else if count <= left {
        EndlessExactly(file, p + 1 + count, left - count);
      }
    }
  }

  /** One of the next n planes gets too little, all planes before it being read. */
  predicate Starves(file: seq<byte>, p: nat, width: nat, n: nat)
    decreases n
  {
    n > 0 && (Delivered(file, p) < width
              || (ReadPlane(file, p, width).Plane? && Starves(file, ReadPlane(file, p, width).pos, width, n - 1)))
  }

  lemma PrefixedTwice(a: seq<byte>, b: seq<byte>, p: Plane)
    ensures Prefixed(a, Prefixed(b, p)) == Prefixed(a + b, p)
  {
    if p.Plane? {
      assert a + (b + p.bytes) == a + b + p.bytes;
    }
  }

  lemma PrefixedEmpty(p: Plane)
    ensures Prefixed([], p) == p
  {
    if p.Plane? {
      assert [] + p.bytes == p.bytes;
    }
  }

  // ---- round trip ----

  lemma FirstByte(file: seq<byte>, p: nat, b: byte)
    requires HasBytes(file, p, [b])
    ensures ByteAt(file, p) == b
  {
    assert file[p..p + 1][0] == b;
  }

  lemma DumpPacket(file: seq<byte>, p: nat, left: nat, body: seq<byte>)
    requires 0 < |body| <= 128 && |body| <= left && HasBytes(file, p, [|body|] + body)
    ensures ReadPlane(file, p, left) == Prefixed(body, ReadPlane(file, p + 1 + |body|, left - |body|))
  {
    hide HasBytes;
    HasBytesSplit(file, p, [|body|], body);
    FirstByte(file, p, |body|);
    PixelReads(file, p + 1, body);
  }

  /** Dump packets deliver their bytes. */
  lemma {:induction false} DumpsRead(file: seq<byte>, p: nat, s: seq<byte>, left: nat)
    requires |s| <= left && HasBytes(file, p, Dumps(s))
    ensures ReadPlane(file, p, left) == Prefixed(s, ReadPlane(file, p + |Dumps(s)|, left - |s|))
    decreases |s|
  {
    hide HasBytes, ReadPlane;
    if |s| == 0 {
      PrefixedEmpty(ReadPlane(file, p, left));
    } else {
      var n := Min(|s|, MAX_DUMP);
      var body, rest := s[..n], s[n..];
      assert Dumps(s) == [n] + body + Dumps(rest);
      hide Dumps, Prefixed;
      HasBytesSplit(file, p, [n] + body, Dumps(rest));
      DumpPacket(file, p, left, body);
      DumpsRead(file, p + 1 + n, rest, left - n);
      PrefixedTwice(body, rest, ReadPlane(file, p + 1 + n + |Dumps(rest)|, left - |s|));
      assert body + rest == s;
    }
  }

  lemma RunPacket(file: seq<byte>, p: nat, left: nat, k: nat, v: byte)
    requires 0 < k <= 127 && k <= left && HasBytes(file, p, [k + 128, v])
    ensures ReadPlane(file, p, left) == Prefixed(Repeated(v, k), ReadPlane(file, p + 2, left - k))
  {
    hide HasBytes;
    assert [k + 128, v] == [k + 128] + [v];
    HasBytesSplit(file, p, [k + 128], [v]);
    FirstByte(file, p, k + 128);
    FirstByte(file, p + 1, v);
  }

  /** Run packets deliver their byte. */
  lemma {:induction false} RunsRead(file: seq<byte>, p: nat, n: nat, v: byte, left: nat)
    requires n <= left && HasBytes(file, p, Runs(n, v))
    ensures ReadPlane(file, p, left) == Prefixed(Repeated(v, n), ReadPlane(file, p + |Runs(n, v)|, left - n))
    decreases n
  {
    hide HasBytes, ReadPlane;
    if n == 0 {
      assert Repeated(v, 0) == [];
      PrefixedEmpty(ReadPlane(file, p, left));
    } else {
      var k := Min(n, MAX_RUN);
      assert Runs(n, v) == [k + 128, v] + Runs(n - k, v);
      assert Repeated(v, k) + Repeated(v, n - k) == Repeated(v, n);
      hide Runs, Prefixed, Repeated;
      HasBytesSplit(file, p, [k + 128, v], Runs(n - k, v));
      RunPacket(file, p, left, k, v);
      RunsRead(file, p + 2, n - k, v, left - k);
      PrefixedTwice(Repeated(v, k), Repeated(v, n - k), ReadPlane(file, p + 2 + |Runs(n - k, v)|, left - n));
    }
  }

  /** A packet of any writer: some bytes as they are, or one byte repeated. */
  datatype Packet = Dump(bytes: seq<byte>) | Run(n: nat, v: byte)

  predicate PacketOk(a: Packet) {
    if a.Dump? then 1 <= |a.bytes| <= 128 else 1 <= a.n <= 127
  }

  function PacketBytes(a: Packet): seq<byte>
    requires PacketOk(a)
  {
    if a.Dump? then [|a.bytes|] + a.bytes else [128 + a.n, a.v]
  }

  function PacketPlane(a: Packet): seq<byte> {
    if a.Dump? then a.bytes else seq(a.n, _ => a.v)
  }

  predicate PacketsOk(packets: seq<Packet>) {
    forall i :: 0 <= i < |packets| ==> PacketOk(packets[i])
  }

  function PacketsBytes(packets: seq<Packet>): seq<byte>
    requires PacketsOk(packets)
  {
    if packets == [] then [] else PacketBytes(packets[0]) + PacketsBytes(packets[1..])
  }

  function PacketsPlane(packets: seq<Packet>): seq<byte> {
    if packets == [] then [] else PacketPlane(packets[0]) + PacketsPlane(packets[1..])
  }

  /** However a writer cuts a plane into packets, it reads back. */
  lemma {:induction false} PacketsRead(file: seq<byte>, p: nat, packets: seq<Packet>)
    requires PacketsOk(packets) && HasBytes(file, p, PacketsBytes(packets))
    ensures ReadPlane(file, p, |PacketsPlane(packets)|) == Plane(PacketsPlane(packets), p + |PacketsBytes(packets)|)
    decreases |packets|
  {
    hide HasBytes, ReadPlane;
    if packets == [] {
      NoneLeft(file, p);
    } else {
      var a, rest := packets[0], packets[1..];
      assert PacketOk(a);
      HasBytesSplit(file, p, PacketBytes(a), PacketsBytes(rest));
      PacketsRead(file, p + |PacketBytes(a)|, rest);
      match a {
        case Dump(bytes) => DumpPacket(file, p, |PacketsPlane(packets)|, bytes);
        case Run(n, v) =>
          assert Repeated(v, n) == seq(n, _ => v);
          RunPacket(file, p, |PacketsPlane(packets)|, n, v);
      }
    }
  }

  /** Reading a written plane gives it back and stops right after it. */
  lemma {:induction false} PlaneRoundTrip(file: seq<byte>, p: nat, comp: seq<byte>, x: nat)
    requires x <= |comp| && HasBytes(file, p, PlaneBytes(comp, x))
    ensures ReadPlane(file, p, |comp| - x) == Plane(comp[x..], p + |PlaneBytes(comp, x)|)
    decreases |comp| - x
  {
    hide HasBytes, RunStart, RunEnd, Dumps, Runs, ReadPlane;
    if x == |comp| {
      NoneLeft(file, p);
      return;
    }
    var r := RunStart(comp, x);
    if r == |comp| {
      DumpsRead(file, p, comp[x..], |comp| - x);
      NoneLeft(file, p + |Dumps(comp[x..])|);
    } else {
      var e := RunEnd(comp, r, comp[r]);
      RunNotEmpty(comp, r);
      var dumps, runs, rest := Dumps(comp[x..r]), Runs(e - r, comp[r]), PlaneBytes(comp, e);
      HasBytesSplit(file, p, dumps + runs, rest);
      HasBytesSplit(file, p, dumps, runs);
      DumpsRead(file, p, comp[x..r], |comp| - x);
      RunsRead(file, p + |dumps|, e - r, comp[r], |comp| - r);
      PlaneRoundTrip(file, p + |dumps| + |runs|, comp, e);
      assert comp[x..] == comp[x..r] + (Repeated(comp[r], e - r) + comp[e..]);
    }
  }

  lemma NoneLeft(file: seq<byte>, p: nat)
    ensures ReadPlane(file, p, 0) == Plane([], p)
  {
  }

  lemma RunNotEmpty(comp: seq<byte>, r: nat)
    requires Triple(comp, r)
    ensures RunEnd(comp, r, comp[r]) >= r + 3
  {
    assert RunEnd(comp, r, comp[r]) == RunEnd(comp, r + 1, comp[r]) == RunEnd(comp, r + 2, comp[r]);
  }

  // ---- scanlines: four planes behind a header ----

  /** Component c of every pixel. */
  function PlaneOf(pixels: seq<Pixel>, c: nat): (s: seq<byte>)
    requires c < 4 && Whole(pixels, 4)
    ensures |s| == |pixels|
  {
    seq<byte>(|pixels|, x requires 0 <= x < |pixels| => pixels[x][c])
  }

  function HeaderBytes(width: nat): seq<byte>
    requires width < 0x8000
  {
    [2, 2, width / 256, width % 256]
  }

  function PlanesBytes(pixels: seq<Pixel>, c: nat): seq<byte>
    requires c <= 4 && Whole(pixels, 4)
    decreases 4 - c
  {
    if c == 4 then [] else PlaneBytes(PlaneOf(pixels, c), 0) + PlanesBytes(pixels, c + 1)
  }

  /** A scanline, the position after it; the old flat format; a width or packet that does not fit; or
      empty packets for ever. */
  datatype Line = Line(planes: seq<seq<byte>>, pos: nat) | Flat | BadLine | EndlessLine

  function ReadPlanes(file: seq<byte>, p: nat, width: nat, n: nat): Line
    decreases n
  {
    if n == 0 then Line([], p)
    else
      match ReadPlane(file, p, width)
      case TooLong => BadLine
      case Endless => EndlessLine
      case Plane(bytes, pos) =>
        match ReadPlanes(file, pos, width, n - 1)
        case Line(planes, end) => Line([bytes] + planes, end)
        case other => other
  }

  function ReadLine(file: seq<byte>, p: nat, width: nat): Line {
    var high := ByteAt(file, p + 2);
    if ByteAt(file, p) != 2 || ByteAt(file, p + 1) != 2 || high >= 128 then Flat
    else if high * 256 + ByteAt(file, p + 3) != width then BadLine
    else ReadPlanes(file, p + 4, width, 4)
  }

  lemma {:induction false} PlanesStarve(file: seq<byte>, p: nat, width: nat, n: nat)
    ensures ReadPlanes(file, p, width, n).EndlessLine? <==> Starves(file, p, width, n)
    decreases n
  {
    hide ReadPlane, Delivered;
    if n > 0 {
      EndlessExactly(file, p, width);
      var r := ReadPlane(file, p, width);
      if r.Plane? { PlanesStarve(file, r.pos, width, n - 1); }
    }
  }

  /** Reading a scanline never ends exactly when its header fits and the packets left in the file are too few
      for one of its planes. */
  lemma LineStarves(file: seq<byte>, p: nat, width: nat)
    ensures ReadLine(file, p, width).EndlessLine? <==>
      && ByteAt(file, p) == 2 && ByteAt(file, p + 1) == 2
      && ByteAt(file, p + 2) < 128 && 256 * ByteAt(file, p + 2) + ByteAt(file, p + 3) == width
      && Starves(file, p + 4, width, 4)
  {
    hide ReadPlanes, Starves;
    PlanesStarve(file, p + 4, width, 4);
  }

  /** A file that ends behind the header of a scanline of eight pixels. */
  lemma TruncatedFile()
    ensures ReadLine([2, 2, 0, 8], 0, 8).EndlessLine?
  {
    LineStarves([2, 2, 0, 8], 0, 8);
  }

  function PlanesOf(pixels: seq<Pixel>, c: nat): seq<seq<byte>>
    requires c <= 4 && Whole(pixels, 4)
    decreases 4 - c
  {
    if c == 4 then [] else [PlaneOf(pixels, c)] + PlanesOf(pixels, c + 1)
  }

  lemma {:induction false} PlanesRoundTrip(file: seq<byte>, p: nat, pixels: seq<Pixel>, c: nat)
    requires c <= 4 && Whole(pixels, 4) && HasBytes(file, p, PlanesBytes(pixels, c))
    ensures ReadPlanes(file, p, |pixels|, 4 - c) == Line(PlanesOf(pixels, c), p + |PlanesBytes(pixels, c)|)
    decreases 4 - c
  {
    hide HasBytes, PlaneBytes, ReadPlane, PlaneOf;
    if c < 4 {
      var plane := PlaneOf(pixels, c);
      HasBytesSplit(file, p, PlaneBytes(plane, 0), PlanesBytes(pixels, c + 1));
      PlaneRoundTrip(file, p, plane, 0);
      assert plane[0..] == plane;
      PlanesRoundTrip(file, p + |PlaneBytes(plane, 0)|, pixels, c + 1);
    }
  }

  /** A written scanline, wherever it stands in a file, reads back as its four planes, and reading stops
      right after it. */
  lemma LineRoundTrip(file: seq<byte>, p: nat, pixels: seq<Pixel>)
    requires 8 <= |pixels| < 0x8000 && Whole(pixels, 4)
    requires HasBytes(file, p, HeaderBytes(|pixels|) + PlanesBytes(pixels, 0))
    ensures ReadLine(file, p, |pixels|) == Line(PlanesOf(pixels, 0), p + 4 + |PlanesBytes(pixels, 0)|)
  {
    hide HasBytes, PlanesBytes, ReadPlanes, PlanesOf;
    var header := HeaderBytes(|pixels|);
    HasBytesSplit(file, p, header, PlanesBytes(pixels, 0));
    HeaderBytesRead(file, p, header);
    PlanesRoundTrip(file, p + 4, pixels, 0);
  }

  lemma HeaderBytesRead(file: seq<byte>, p: nat, h: seq<byte>)
    requires |h| == 4 && HasBytes(file, p, h)
    ensures ByteAt(file, p) == h[0] && ByteAt(file, p + 1) == h[1]
    ensures ByteAt(file, p + 2) == h[2] && ByteAt(file, p + 3) == h[3]
  {
    PixelReads(file, p, h);
  }

  // ---- the writer ----

  lemma RunStartNear(comp: seq<byte>, r: nat)
    requires r <= |comp| <= r + 2
    ensures RunStart(comp, r) == |comp|
  {
  }

  /** Finds the next run of three. */
  method FindRun(comp: seq<byte>, x: nat) returns (r: nat)
    requires x <= |comp|
    ensures r == RunStart(comp, x)
  {
    r := x;
    while r + 2 < |comp|
      invariant x <= r <= |comp| && RunStart(comp, r) == RunStart(comp, x)
      decreases |comp| - r
    {
      if comp[r] == comp[r + 1] && comp[r] == comp[r + 2] { break; }
      r := r + 1;
    }
    if r + 2 >= |comp| {
      RunStartNear(comp, r);
      r := |comp|;
    }
  }

  lemma NoDumps()
    ensures Dumps([]) == []
  {
  }

  lemma DumpsStep(comp: seq<byte>, x: nat, r: nat)
    requires x < r <= |comp|
    ensures var n := Min(r - x, MAX_DUMP);
      x + n <= r && Dumps(comp[x..r]) == [n] + comp[x..x + n] + Dumps(comp[x + n..r])
  {
    var s, n := comp[x..r], Min(r - x, MAX_DUMP);
    assert s[..n] == comp[x..x + n] && s[n..] == comp[x + n..r];
  }

  /** Copies bytes out in dump packets. */
  method WriteDumps(comp: seq<byte>, from: nat, r: nat) returns (bytes: seq<byte>)
    requires from <= r <= |comp|
    ensures bytes == Dumps(comp[from..r])
  {
    bytes := [];
    var x := from;
    NoDumps();
    hide Dumps;
    while x < r
      invariant from <= x <= r && bytes + Dumps(comp[x..r]) == Dumps(comp[from..r])
      decreases r - x
    {
      var len := r - x;
      if len > 128 { len := 128; }
      DumpsStep(comp, x, r);
      ghost var packet, rest := [len] + comp[x..x + len], Dumps(comp[x + len..r]);
      assert bytes + (packet + rest) == bytes + packet + rest;
      assert bytes + packet == bytes + [len] + comp[x..x + len];
      bytes := bytes + [len] + comp[x..x + len];
      x := x + len;
    }
    assert comp[x..r] == [];
    assert bytes + [] == bytes;
  }

  /** Writes out a run in run packets. */
  method WriteRuns(n: nat, v: byte) returns (bytes: seq<byte>)
    ensures bytes == Runs(n, v)
  {
    bytes := [];
    var left: nat := n;
    while left > 0
      invariant left <= n && bytes + Runs(left, v) == Runs(n, v)
      decreases left
    {
      var len := left;
      if len > 127 { len := 127; }
      assert bytes + ([len + 128, v] + Runs(left - len, v)) == bytes + [len + 128, v] + Runs(left - len, v);
      bytes := bytes + [len + 128, v];
      left := left - len;
    }
    assert bytes + [] == bytes;
  }

  /** Dumps the bytes before the next run, then writes that run. */
  method NextPackets(comp: seq<byte>, start: nat) returns (bytes: seq<byte>, x: nat)
    requires start < |comp|
    ensures start < x <= |comp| && bytes + PlaneBytes(comp, x) == PlaneBytes(comp, start)
  {
    hide RunStart, Dumps, Runs;
    var r := FindRun(comp, start);
    bytes := WriteDumps(comp, start, r);
    x := r;
    if r + 2 < |comp| {
      RunNotEmpty(comp, r);
      while r < |comp| && comp[r] == comp[x]
        invariant x <= r <= |comp| && RunEnd(comp, r, comp[x]) == RunEnd(comp, x, comp[x])
        decreases |comp| - r
      {
        r := r + 1;
      }
      var runs := WriteRuns(r - x, comp[x]);
      bytes := bytes + runs;
      x := r;
    } else {
      assert comp[start..r] == comp[start..];
      assert bytes + [] == bytes;
    }
  }

  /** Codes one plane. */
  method WritePlane(comp: seq<byte>) returns (bytes: seq<byte>)
    ensures bytes == PlaneBytes(comp, 0)
  {
    hide PlaneBytes;
    bytes := [];
    var x := 0;
    while x < |comp|
      invariant x <= |comp| && bytes + PlaneBytes(comp, x) == PlaneBytes(comp, 0)
      decreases |comp| - x
    {
      var next, x' := NextPackets(comp, x);
      assert bytes + (next + PlaneBytes(comp, x')) == bytes + next + PlaneBytes(comp, x');
      bytes := bytes + next;
      x := x';
    }
    PlaneDone(comp);
    assert bytes + [] == bytes;
  }

  lemma PlaneDone(comp: seq<byte>)
    ensures PlaneBytes(comp, |comp|) == []
  {
  }

  /** From `start` on the buffer holds component c of the first x pixels. */
  ghost predicate PlaneAt(scratch: seq<byte>, start: nat, pixels: seq<Pixel>, c: nat, x: nat)
    requires c < 4 && Whole(pixels, 4)
  {
    x <= |pixels| && start + x <= |scratch| && scratch[start..start + x] == PlaneOf(pixels, c)[..x]
  }

  lemma PlaneKept(before: seq<byte>, i: nat, v: byte, start: nat, pixels: seq<Pixel>, c: nat, x: nat)
    requires c < 4 && Whole(pixels, 4) && PlaneAt(before, start, pixels, c, x) && i < |before|
    requires i < start || start + x <= i
    ensures PlaneAt(before[i := v], start, pixels, c, x)
  {
    assert before[i := v][start..start + x] == before[start..start + x];
  }

  lemma PlaneGrows(before: seq<byte>, v: byte, start: nat, pixels: seq<Pixel>, c: nat, x: nat)
    requires c < 4 && Whole(pixels, 4) && PlaneAt(before, start, pixels, c, x)
    requires start + x < |before| && x < |pixels| && v == pixels[x][c]
    ensures PlaneAt(before[start + x := v], start, pixels, c, x + 1)
  {
    var after := before[start + x := v];
    assert after[start..start + x + 1] == before[start..start + x] + [v];
    assert PlaneOf(pixels, c)[..x + 1] == PlaneOf(pixels, c)[..x] + [v];
  }

  /** Component d has its own stretch of the buffer; x pixels are stored there, and the next one if d < c. */
  ghost predicate OwnStretch(scratch: seq<byte>, pixels: seq<Pixel>, d: nat, c: nat, x: nat)
    requires d < 4 && Whole(pixels, 4)
  {
    PlaneAt(scratch, d * |pixels|, pixels, d, if d < c then x + 1 else x)
  }

  /** Stores one component of a pixel; the planes gathered elsewhere stay. */
  method StoreByte(scratch: array<byte>, pixels: seq<Pixel>, x: nat, c: nat)
    requires Whole(pixels, 4) && x < |pixels| && scratch.Length >= 4 * |pixels| && c < 4
    requires forall d :: 0 <= d < 4 ==> OwnStretch(scratch[..], pixels, d, c, x)
    modifies scratch
    ensures var done := c + 1; forall d :: 0 <= d < 4 ==> OwnStretch(scratch[..], pixels, d, done, x)
  {
    hide PlaneAt;
    ghost var before, width, v, done := scratch[..], |pixels|, pixels[x][c], c + 1;
    assert 0 <= c * |pixels| <= 3 * |pixels|;
    scratch[x + |pixels| * c] := pixels[x][c];
    ghost var i := x + c * width;
    assert scratch[..] == before[i := v];
    forall d | 0 <= d < 4
      ensures OwnStretch(scratch[..], pixels, d, done, x)
    {
      assert OwnStretch(before, pixels, d, c, x);
      if d == c {
        PlaneGrows(before, v, d * width, pixels, d, x);
      } else {
        PlanesApart(width, c, d, x);
        PlaneKept(before, i, v, d * width, pixels, d, if d < c then x + 1 else x);
      }
    }
  }

  lemma PlanesApart(width: nat, c: nat, d: nat, x: nat)
    requires c != d && x < width
    ensures if c < d then x + c * width < d * width else d * width + width <= x + c * width
  {
    if c < d {
      assert (c + 1) * width <= d * width;
    } else {
      assert (d + 1) * width <= c * width;
    }
  }

  /** Stores each component of the pixels in its own stretch of the scratch buffer. */
  method SplitPlanes(pixels: seq<Pixel>, scratch: array<byte>)
    requires Whole(pixels, 4) && scratch.Length >= 4 * |pixels|
    modifies scratch
    ensures forall d :: 0 <= d < 4 ==> OwnStretch(scratch[..], pixels, d, 0, |pixels|)
  {
    NoPlanes(pixels, scratch[..]);
    hide OwnStretch;
    for x := 0 to |pixels|
      invariant forall d :: 0 <= d < 4 ==> OwnStretch(scratch[..], pixels, d, 0, x)
    {
      StoreByte(scratch, pixels, x, 0);
      StoreByte(scratch, pixels, x, 1);
      StoreByte(scratch, pixels, x, 2);
      StoreByte(scratch, pixels, x, 3);
      NextPixel(pixels, scratch[..], x);
    }
  }

  lemma NextPixel(pixels: seq<Pixel>, scratch: seq<byte>, x: nat)
    requires Whole(pixels, 4) && forall d :: 0 <= d < 4 ==> OwnStretch(scratch, pixels, d, 4, x)
    ensures var done := x + 1; forall d :: 0 <= d < 4 ==> OwnStretch(scratch, pixels, d, 0, done)
  {
    var done := x + 1;
    forall d | 0 <= d < 4
      ensures OwnStretch(scratch, pixels, d, 0, done)
    {
      assert OwnStretch(scratch, pixels, d, 4, x);
    }
  }

  lemma NoPlanes(pixels: seq<Pixel>, scratch: seq<byte>)
    requires Whole(pixels, 4) && |scratch| >= 4 * |pixels|
    ensures forall d :: 0 <= d < 4 ==> OwnStretch(scratch, pixels, d, 0, 0)
  {
    forall d | 0 <= d < 4
      ensures OwnStretch(scratch, pixels, d, 0, 0)
    {
      assert 0 <= d * |pixels| <= 3 * |pixels|;
    }
  }

  /** Writes the header and each plane. */
  method WriteLine(pixels: seq<Pixel>, scratch: array<byte>) returns (bytes: seq<byte>)
    requires 8 <= |pixels| < 0x8000 && Whole(pixels, 4) && scratch.Length >= 4 * |pixels|
    modifies scratch
    ensures bytes == HeaderBytes(|pixels|) + PlanesBytes(pixels, 0)
  {
    hide PlaneBytes;
    var width := |pixels|;
    SplitPlanes(pixels, scratch);
    ghost var planes := scratch[..];
    bytes := [2, 2, width / 256, width % 256];
    ghost var header := bytes;
    for c := 0 to 4
      invariant bytes + PlanesBytes(pixels, c) == header + PlanesBytes(pixels, 0)
      invariant scratch[..] == planes
    {
      assert OwnStretch(planes, pixels, c, 0, width);
      assert PlaneOf(pixels, c)[..width] == PlaneOf(pixels, c);
      var plane := WritePlane(scratch[..][c * width..c * width + width]);
      assert bytes + (plane + PlanesBytes(pixels, c + 1)) == bytes + plane + PlanesBytes(pixels, c + 1);
      bytes := bytes + plane;
    }
    assert bytes + [] == bytes;
  }

  // ---- the reader ----

  /** Component k of the first n interleaved pixels. */
  function Component(scanline: seq<byte>, k: nat, n: nat): (s: seq<byte>)
    requires k < 4 && 4 * n <= |scanline|
    ensures |s| == n
  {
    seq<byte>(n, j requires 0 <= j < n => scanline[j * 4 + k])
  }

  /** Only component k changed. */
  ghost predicate OthersKept(before: seq<byte>, after: seq<byte>, k: nat) {
    |before| == |after| && forall i :: 0 <= i < |before| && i % 4 != k ==> before[i] == after[i]
  }

  lemma ComponentKept(before: seq<byte>, after: seq<byte>, k: nat, c: nat, n: nat)
    requires OthersKept(before, after, k) && c < 4 && c != k && 4 * n <= |before|
    ensures Component(after, c, n) == Component(before, c, n)
  {
  }

  lemma ComponentSet(before: seq<byte>, i: nat, k: nat, v: byte)
    requires k < 4 && 4 * (i + 1) <= |before|
    ensures OthersKept(before, before[i * 4 + k := v], k)
    ensures Component(before[i * 4 + k := v], k, i + 1) == Component(before, k, i) + [v]
  {
  }

  /** The z-th byte a packet's body at p delivers. */
  function PacketByte(file: seq<byte>, p: nat, run: bool, z: nat): byte {
    if run then ByteAt(file, p) else ByteAt(file, p + z)
  }

  function PacketBody(file: seq<byte>, p: nat, run: bool, count: nat): (s: seq<byte>)
    ensures |s| == count
  {
    seq<byte>(count, z requires 0 <= z < count => PacketByte(file, p, run, z))
  }

  /** Copies or repeats the bytes of one packet into component k of the pixels from i0 on. */
  method FillPacket(s: Context, run: bool, count: nat, k: nat, scanline: array<byte>, i0: nat, ghost p: nat)
    returns (i: nat)
    requires k < 4 && 4 * (i0 + count) <= scanline.Length && s.AtOrPast(p)
    modifies s, scanline
    ensures i == i0 + count && s.AtOrPast(p + if run then 1 else count)
    ensures Component(scanline[..], k, i) == old(Component(scanline[..], k, i0)) + PacketBody(s.file, p, run, count)
    ensures OthersKept(old(scanline[..]), scanline[..], k)
  {
    hide Component, OthersKept;
    i := i0;
    var value: byte := 0;
    if run { value := s.Byte(p); }
    NothingChanged(scanline[..], k);
    assert PacketBody(s.file, p, run, 0) == [];
    for z := 0 to count
      invariant i == i0 + z
      invariant s.AtOrPast(p + if run then 1 else z) && (run ==> value == ByteAt(s.file, p))
      invariant Component(scanline[..], k, i) == old(Component(scanline[..], k, i0)) + PacketBody(s.file, p, run, z)
      invariant OthersKept(old(scanline[..]), scanline[..], k)
    {
      if !run { value := s.Byte(p + z); }
      ghost var before := scanline[..];
      ComponentSet(before, i, k, value);
      scanline[i * 4 + k] := value;
      assert scanline[..] == before[i * 4 + k := value];
      KeptTwice(old(scanline[..]), before, scanline[..], k);
      assert PacketBody(s.file, p, run, z + 1) == PacketBody(s.file, p, run, z) + [value];
      i := i + 1;
    }
  }

  lemma NothingChanged(scanline: seq<byte>, k: nat)
    ensures OthersKept(scanline, scanline, k)
  {
  }

  lemma KeptTwice(a: seq<byte>, b: seq<byte>, c: seq<byte>, k: nat)
    requires OthersKept(a, b, k) && OthersKept(b, c, k)
    ensures OthersKept(a, c, k)
  {
  }

  datatype Outcome = Stored | Corrupted | NeverEnds | NotRle

  /** What became of component k after reading a plane with the given result. */
  ghost predicate PlaneStored(r: Plane, outcome: Outcome, end: nat, scanline: seq<byte>, k: nat, width: nat)
    requires k < 4 && 4 * width <= |scanline|
  {
    match r
    case TooLong => outcome == Corrupted
    case Endless => outcome == NeverEnds
    case Plane(bytes, pos) => outcome == Stored && pos == end && Component(scanline, k, width) == bytes
  }

  /** A packet that fits delivers its body. */
  lemma PacketStep(file: seq<byte>, p: nat, left: nat, done: seq<byte>)
    requires left > 0
    ensures var count := ByteAt(file, p);
      var run, n := count > 128, if count > 128 then count - 128 else count;
      && (n > left ==> ReadPlane(file, p, left) == TooLong)
      && (0 < n <= left ==>
            Prefixed(done, ReadPlane(file, p, left))
            == Prefixed(done + PacketBody(file, p + 1, run, n), ReadPlane(file, p + 1 + (if run then 1 else n), left - n)))
      && (n == 0 ==> ReadPlane(file, p, left) == if p >= |file| then Endless else ReadPlane(file, p + 1, left))
  {
    var count := ByteAt(file, p);
    var run, n := count > 128, if count > 128 then count - 128 else count;
    var body, rest := PacketBody(file, p + 1, run, n), p + 1 + if run then 1 else n;
    if 0 < n <= left {
      assert body == if run then Repeated(ByteAt(file, p + 1), n) else BytesAt(file, p + 1, n);
      PrefixedTwice(done, body, ReadPlane(file, rest, left - n));
    }
  }

  /** Reads one packet of a plane of which i0 bytes are stored; the last outcome stands for the loop that only
      meets the zeros past the end of the file. */
  method StorePacket(s: Context, k: nat, width: nat, scanline: array<byte>, i0: nat, ghost p: nat, ghost goal: Plane)
    returns (outcome: Outcome, i: nat, ghost end: nat)
    requires k < 4 && i0 < width && 4 * width <= scanline.Length && s.AtOrPast(p)
    requires Prefixed(Component(scanline[..], k, i0), ReadPlane(s.file, p, width - i0)) == goal
    modifies s, scanline
    ensures OthersKept(old(scanline[..]), scanline[..], k) && outcome != NotRle
    ensures outcome == Corrupted ==> goal == TooLong
    ensures outcome == NeverEnds ==> goal == Endless
    ensures outcome == Stored ==>
      && i0 <= i <= width && s.AtOrPast(end) && (i > i0 || p < end <= |s.file|)
      && Prefixed(Component(scanline[..], k, i), ReadPlane(s.file, end, width - i)) == goal
  {
    hide ReadPlane, Component, OthersKept, PacketBody;
    outcome, i, end := Stored, i0, p;
    NothingChanged(scanline[..], k);
    PacketStep(s.file, p, width - i0, Component(scanline[..], k, i0));
    var atEnd := s.pos >= |s.file|;
    var count := s.Byte(p);
    if count > 128 {
      if count - 128 > width - i0 {
        return Corrupted, i, end;
      }
      i := FillPacket(s, true, count - 128, k, scanline, i0, p + 1);
      end := p + 2;
    } else {
      if count > width - i0 {
        return Corrupted, i, end;
      }
      if count == 0 && atEnd {
        return NeverEnds, i, end;
      }
      if count == 0 {
        NothingRead(s.file, p + 1);
      }
      i := FillPacket(s, false, count, k, scanline, i0, p + 1);
      end := p + 1 + count;
    }
  }

  /** Reads one plane into component k. */
  method StorePlane(s: Context, k: nat, width: nat, scanline: array<byte>, ghost p0: nat)
    returns (outcome: Outcome, ghost end: nat)
    requires k < 4 && 4 * width <= scanline.Length && s.AtOrPast(p0)
    modifies s, scanline
    ensures PlaneStored(ReadPlane(s.file, p0, width), outcome, end, scanline[..], k, width)
    ensures outcome == Stored ==> s.AtOrPast(end)
    ensures OthersKept(old(scanline[..]), scanline[..], k)
  {
    hide ReadPlane, Component, OthersKept, PacketBody;
    ghost var goal := ReadPlane(s.file, p0, width);
    var i := 0;
    end := p0;
    NothingChanged(scanline[..], k);
    NoComponent(scanline[..], k);
    PrefixedEmpty(goal);
    while width - i > 0
      invariant i <= width && s.AtOrPast(end)
      invariant Prefixed(Component(scanline[..], k, i), ReadPlane(s.file, end, width - i)) == goal
      invariant OthersKept(old(scanline[..]), scanline[..], k)
      decreases width - i, if end < |s.file| then |s.file| - end else 0
    {
      ghost var before := scanline[..];
      outcome, i, end := StorePacket(s, k, width, scanline, i, end, goal);
      KeptTwice(old(scanline[..]), before, scanline[..], k);
      if outcome != Stored { return; }
    }
    NoneLeft(s.file, end);
    outcome := Stored;
  }

  lemma NoComponent(scanline: seq<byte>, k: nat)
    requires k < 4
    ensures Component(scanline, k, 0) == []
  {
  }

  lemma NothingRead(file: seq<byte>, p: nat)
    ensures PacketBody(file, p, false, 0) == []
  {
  }

  ghost predicate Interleaved(scanline: seq<byte>, width: nat, planes: seq<seq<byte>>) {
    && |planes| == 4 && 4 * width <= |scanline|
    && forall c :: 0 <= c < 4 ==> Component(scanline, c, width) == planes[c]
  }

  lemma {:induction false} PlanesOfAt(pixels: seq<Pixel>, d: nat, c: nat)
    requires d <= c < 4 && Whole(pixels, 4)
    ensures |PlanesOf(pixels, d)| == 4 - d && PlanesOf(pixels, d)[c - d] == PlaneOf(pixels, c)
    decreases c - d
  {
    hide PlaneOf;
    PlanesOfLength(pixels, d);
    if d < c { PlanesOfAt(pixels, d + 1, c); }
  }

  lemma {:induction false} PlanesOfLength(pixels: seq<Pixel>, d: nat)
    requires d <= 4 && Whole(pixels, 4)
    ensures |PlanesOf(pixels, d)| == 4 - d
    decreases 4 - d
  {
    if d < 4 { PlanesOfLength(pixels, d + 1); }
  }

  /** Interleaving the planes of some pixels gives back their bytes, pixel by pixel. */
  lemma InterleavedPixel(scanline: seq<byte>, pixels: seq<Pixel>, i: nat, c: nat)
    requires Whole(pixels, 4) && i < |pixels| && c < 4 && Interleaved(scanline, |pixels|, PlanesOf(pixels, 0))
    ensures 4 * i + c < |scanline| && scanline[4 * i + c] == pixels[i][c]
  {
    hide PlanesOf;
    PlanesOfAt(pixels, 0, c);
    assert Component(scanline, c, |pixels|)[i] == PlaneOf(pixels, c)[i];
  }

  /** Reads a run-length coded scanline: the four planes end up interleaved. */
  method StoreLine(s: Context, width: nat, scanline: array<byte>, ghost p: nat) returns (outcome: Outcome, ghost end: nat)
    requires scanline.Length == 4 * width && s.AtOrPast(p)
    modifies s, scanline
    ensures match ReadLine(s.file, p, width)
      case Flat => outcome == NotRle
      case BadLine => outcome == Corrupted
      case EndlessLine => outcome == NeverEnds
      case Line(planes, pos) => outcome == Stored && end == pos && s.AtOrPast(end) && Interleaved(scanline[..], width, planes)
  {
    hide ReadPlane, Component, OthersKept;
    end := p;
    var c1 := s.Byte(p);
    var c2 := s.Byte(p + 1);
    var high := s.Byte(p + 2);
    if c1 != 2 || c2 != 2 || high >= 128 {
      return NotRle, end;
    }
    var low := s.Byte(p + 3);
    if high as int * 256 + low != width {
      return Corrupted, end;
    }
    end := p + 4;
    ghost var done: seq<seq<byte>> := [];
    ghost var all := ReadPlanes(s.file, end, width, 4);
    JoinedNone(all);
    for k := 0 to 4
      invariant |done| == k && s.AtOrPast(end)
      invariant Joined(done, ReadPlanes(s.file, end, width, 4 - k)) == all
      invariant forall c :: 0 <= c < k ==> Component(scanline[..], c, width) == done[c]
    {
      ghost var before := scanline[..];
      JoinedStep(s.file, end, width, 4 - k, done);
      hide ReadPlanes;
      outcome, end := StorePlane(s, k, width, scanline, end);
      if outcome != Stored { return; }
      forall c | 0 <= c < k
        ensures Component(scanline[..], c, width) == done[c]
      {
        ComponentKept(before, scanline[..], k, c, width);
      }
      done := done + [Component(scanline[..], k, width)];
    }
    JoinedAll(s.file, end, width, done);
    outcome := Stored;
  }

  function Joined(done: seq<seq<byte>>, l: Line): Line {
    if l.Line? then l.(planes := done + l.planes) else l
  }

  lemma JoinedNone(l: Line)
    ensures Joined([], l) == l
  {
    if l.Line? { assert [] + l.planes == l.planes; }
  }

  lemma JoinedAll(file: seq<byte>, p: nat, width: nat, done: seq<seq<byte>>)
    ensures Joined(done, ReadPlanes(file, p, width, 0)) == Line(done, p)
  {
    assert done + [] == done;
  }

  lemma JoinedStep(file: seq<byte>, p: nat, width: nat, n: nat, done: seq<seq<byte>>)
    requires n > 0
    ensures Joined(done, ReadPlanes(file, p, width, n)) ==
      match ReadPlane(file, p, width)
      case TooLong => BadLine
      case Endless => EndlessLine
      case Plane(bytes, pos) => Joined(done + [bytes], ReadPlanes(file, pos, width, n - 1))
  {
    hide ReadPlane;
    var r := ReadPlane(file, p, width);
    if r.Plane? {
      var rest := ReadPlanes(file, r.pos, width, n - 1);
      if rest.Line? {
        assert done + ([r.bytes] + rest.planes) == done + [r.bytes] + rest.planes;
      }
    }
  }

  /** Write a scanline, then read it: every byte of every pixel comes back. */
  method WriteThenReadLine(pixels: seq<Pixel>, scratch: array<byte>, scanline: array<byte>) returns (outcome: Outcome)
    requires 8 <= |pixels| < 0x8000 && Whole(pixels, 4)
    requires scratch.Length >= 4 * |pixels| && scanline.Length == 4 * |pixels|
    modifies scratch, scanline
    ensures outcome == Stored
    ensures forall i, c :: 0 <= i < |pixels| && 0 <= c < 4 ==> scanline[4 * i + c] == pixels[i][c]
  {
    hide ReadLine, PlanesBytes, PlanesOf, Interleaved;
    var file := WriteLine(pixels, scratch);
    var s := new Context(file);
    assert file[0..] == file;
    LineRoundTrip(file, 0, pixels);
    ghost var end;
    outcome, end := StoreLine(s, |pixels|, scanline, 0);
    forall i, c | 0 <= i < |pixels| && 0 <= c < 4
      ensures scanline[4 * i + c] == pixels[i][c]
    {
      InterleavedPixel(scanline[..], pixels, i, c);
    }
  }
}
