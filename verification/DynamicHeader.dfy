/** Dynamic blocks from the writing side (section 3.2.7 of RFC 1951): what any encoder may put into the
    header of a block, in explicit fields and counts, and that the decoder reads exactly that back. */
module DynamicHeaders {
  import opened Bits
  import opened Huffman
  import opened Inflate
  import opened Lz77

  // ---- the code of the code lengths ----

  /** The nineteen lengths in the order in which they are written. */
  function Ordered(l: seq<nat>): (s: seq<nat>)
    requires |l| == 19
    ensures |s| == 19
  {
    [l[16], l[17], l[18], l[0], l[8], l[7], l[9], l[6], l[10], l[5], l[11], l[4], l[12], l[3], l[13], l[2], l[14], l[1], l[15]]
  }

  /** Three bits for each length. */
  function Fields(s: seq<nat>): (bits: seq<bit>)
    ensures |bits| == 3 * |s|
  {
    if |s| == 0 then [] else Fields(s[..|s| - 1]) + Lsb(s[|s| - 1], 3)
  }

  /** The place of length j in the written order. */
  function Rank(j: nat): (k: nat)
    requires j < 19
    ensures k < 19
  {
    [3, 17, 15, 13, 11, 9, 7, 5, 4, 6, 8, 10, 12, 14, 16, 18, 0, 1, 2][j]
  }

  lemma RankInverts(l: seq<nat>, k: nat)
    requires |l| == 19 && k < 19
    ensures Rank(Dezigzag(k)) == k && Dezigzag(Rank(k)) == k && Ordered(l)[k] == l[Dezigzag(k)]
  {
    RankOfPlace(k);
    PlaceOfRank(k);
    PlaceInOrder(l, k);
  }

  lemma RankOfPlace(k: nat)
    requires k < 19
    ensures Rank(Dezigzag(k)) == k
  {
  }

  lemma PlaceOfRank(k: nat)
    requires k < 19
    ensures Dezigzag(Rank(k)) == k
  {
  }

  lemma PlaceInOrder(l: seq<nat>, k: nat)
    requires |l| == 19 && k < 19
    ensures Ordered(l)[k] == l[Dezigzag(k)]
  {
  }

  lemma {:induction false} FieldsRead(input: seq<byte>, p: nat, l: seq<nat>, n: nat)
    requires |l| == 19 && (forall j :: 0 <= j < 19 ==> l[j] < 8) && n <= 19
    requires Shows(input, p, Fields(Ordered(l)[..n]))
    ensures forall j :: 0 <= j < 19 ==> CodeLengthSizes(input, p, n)[j] == if Rank(j) < n then l[j] else 0
  {
    hide Shows, Ordered, Dezigzag, Rank, Lsb, ReadBits;
    if n > 0 {
      var k, s := n - 1, Ordered(l)[..n];
      assert s[..k] == Ordered(l)[..k];
      ShowsSplit(input, p, Fields(Ordered(l)[..k]), Lsb(s[k], 3));
      FieldsRead(input, p, l, k);
      RankInverts(l, k);
      Pow2Values();
      FieldReads(input, p + 3 * k, s[k], 3);
      forall j | 0 <= j < 19
        ensures CodeLengthSizes(input, p, n)[j] == if Rank(j) < n then l[j] else 0
      {
        RankInverts(l, j);
      }
    }
  }

  /** Every list of lengths below eight reads back, the unwritten ones at the end of the order being zero. */
  lemma CodeOfLengthsReads(input: seq<byte>, p: nat, l: seq<nat>, n: nat)
    requires |l| == 19 && (forall j :: 0 <= j < 19 ==> l[j] < 8) && n <= 19
    requires forall k :: n <= k < 19 ==> Ordered(l)[k] == 0
    requires Shows(input, p, Fields(Ordered(l)[..n]))
    ensures CodeLengthSizes(input, p, n) == l
  {
    hide Shows, Ordered, Dezigzag, Rank;
    FieldsRead(input, p, l, n);
    forall j | 0 <= j < 19
      ensures CodeLengthSizes(input, p, n)[j] == l[j]
    {
      RankInverts(l, j);
      RankInverts(l, Rank(j));
    }
  }

  // ---- the run-length coded list ----

  /** A code length; the previous one again, n times; or n unused symbols. */
  datatype Item = Length(s: nat) | Previous(n: nat) | Unused(n: nat)

  predicate ItemOk(item: Item, acc: seq<nat>) {
    match item
    case Length(s) => s <= 15
    case Previous(n) => acc != [] && 3 <= n <= 6
    case Unused(n) => 3 <= n <= 138
  }

  /** The list behind one more item. */
  function Spelt1(acc: seq<nat>, item: Item): (r: seq<nat>)
    requires item.Previous? ==> acc != []
  {
    match item
    case Length(s) => acc + [s]
    case Previous(n) => acc + seq(n, _ => acc[|acc| - 1])
    case Unused(n) => acc + seq(n, _ => 0)
  }

  predicate AllItemsOk(acc: seq<nat>, items: seq<Item>)
    decreases |items|
  {
    items == [] || (ItemOk(items[0], acc) && AllItemsOk(Spelt1(acc, items[0]), items[1..]))
  }

  function Spelt(acc: seq<nat>, items: seq<Item>): (r: seq<nat>)
    requires AllItemsOk(acc, items)
    ensures |acc| <= |r|
    decreases |items|
  {
    if items == [] then acc else Spelt(Spelt1(acc, items[0]), items[1..])
  }

  /** The canonical code of symbol i as it is written, first bit first. */
  function CodeWord(sizes: seq<nat>, i: nat): (bits: seq<bit>)
    requires i < |sizes|
    ensures |bits| == sizes[i]
  {
    Lsb(BitReverse(Code(sizes, i), sizes[i]), sizes[i])
  }

  /** The code length symbol of an item. */
  function ItemSymbol(item: Item): nat {
    match item
    case Length(s) => s
    case Previous(n) => 16
    case Unused(n) => if n <= 10 then 17 else 18
  }

  /** An item as it is written: its symbol, and for a repetition the count less its least value. */
  function ItemBits(code: seq<nat>, item: Item): seq<bit>
    requires |code| == 19 && ItemSymbol(item) < 19
    requires item.Length? || item.n >= 3
  {
    match item
    case Length(s) => CodeWord(code, s)
    case Previous(n) => CodeWord(code, 16) + Lsb(n - 3, 2)
    case Unused(n) => if n <= 10 then CodeWord(code, 17) + Lsb(n - 3, 3) else CodeWord(code, 18) + Lsb(n - 11, 7)
  }

  /** Every item's symbol has a code. */
  predicate Codable(code: seq<nat>, items: seq<Item>) {
    |code| == 19 && forall k :: 0 <= k < |items| ==> ItemSymbol(items[k]) < 19 && code[ItemSymbol(items[k])] > 0
  }

  function ItemsBits(code: seq<nat>, acc: seq<nat>, items: seq<Item>): seq<bit>
    requires |code| == 19 && AllItemsOk(acc, items)
    decreases |items|
  {
    if items == [] then [] else ItemBits(code, items[0]) + ItemsBits(code, Spelt1(acc, items[0]), items[1..])
  }

  /** One item of the list reads back. */
  lemma ItemReads(code: seq<nat>, input: seq<byte>, p: nat, total: nat, acc: seq<nat>, item: Item)
    requires |code| == 19 && ValidSizes(code) && Kraft(code) && ValidSizes(acc)
    requires ItemOk(item, acc) && |Spelt1(acc, item)| <= total && code[ItemSymbol(item)] > 0
    requires Shows(input, p, ItemBits(code, item))
    ensures ValidSizes(Spelt1(acc, item))
    ensures CodeLengths(code, input, p, total, acc)
         == CodeLengths(code, input, p + |ItemBits(code, item)|, total, Spelt1(acc, item))
  {
    hide Shows, Lsb, Kraft, CodeLengths, CodeWord, Fill;
    SpeltValid(acc, item);
    match item {
      case Length(s) =>
        WordReads(code, input, p, s);
        CodeLengthsOne(code, input, p, total, acc, s);
      case Previous(n) =>
        PreviousReads(code, input, p, total, acc, n);
      case Unused(n) =>
        UnusedReads(code, input, p, total, acc, n);
    }
  }

  lemma PreviousReads(code: seq<nat>, input: seq<byte>, p: nat, total: nat, acc: seq<nat>, n: nat)
    requires |code| == 19 && ValidSizes(code) && Kraft(code) && ValidSizes(acc)
    requires acc != [] && 3 <= n <= 6 && |acc| + n <= total && code[16] > 0
    requires Shows(input, p, CodeWord(code, 16) + Lsb(n - 3, 2))
    ensures ValidSizes(acc + seq(n, _ => acc[|acc| - 1]))
    ensures CodeLengths(code, input, p, total, acc)
         == CodeLengths(code, input, p + code[16] + 2, total, acc + seq(n, _ => acc[|acc| - 1]))
  {
    hide Shows, Lsb, Kraft, CodeLengths, CodeWord, Pow2;
    Pow2Values();
    FillIsSeq(acc[|acc| - 1], n);
    RunReads(code, input, p, total, acc, 16, n, n - 3, 2);
  }

  lemma UnusedReads(code: seq<nat>, input: seq<byte>, p: nat, total: nat, acc: seq<nat>, n: nat)
    requires |code| == 19 && ValidSizes(code) && Kraft(code) && ValidSizes(acc)
    requires 3 <= n <= 138 && |acc| + n <= total && code[if n <= 10 then 17 else 18] > 0
    requires Shows(input, p, ItemBits(code, Unused(n)))
    ensures ValidSizes(acc + seq(n, _ => 0))
    ensures CodeLengths(code, input, p, total, acc)
         == CodeLengths(code, input, p + |ItemBits(code, Unused(n))|, total, acc + seq(n, _ => 0))
  {
    hide Shows, Lsb, Kraft, CodeLengths, CodeWord, Pow2;
    Pow2Values();
    FillIsSeq(0, n);
    if n <= 10 {
      RunReads(code, input, p, total, acc, 17, n, n - 3, 3);
    } else {
      RunReads(code, input, p, total, acc, 18, n, n - 11, 7);
    }
  }

  lemma SpeltValid(acc: seq<nat>, item: Item)
    requires ValidSizes(acc) && ItemOk(item, acc)
    ensures ValidSizes(Spelt1(acc, item))
  {
  }

  lemma FillIsSeq(v: nat, n: nat)
    ensures Fill(v, n) == seq(n, _ => v)
  {
  }

  lemma WordReads(sizes: seq<nat>, input: seq<byte>, p: nat, i: nat)
    requires ValidSizes(sizes) && Kraft(sizes) && i < |sizes| && sizes[i] > 0 && Shows(input, p, CodeWord(sizes, i))
    ensures Decode(sizes, input, p) == i
  {
    CodeDecodes(sizes, input, p, i);
  }

  /** A repeat symbol and its count read back. */
  lemma RunReads(code: seq<nat>, input: seq<byte>, p: nat, total: nat, acc: seq<nat>, c: nat, n: nat, v: nat, w: nat)
    requires |code| == 19 && ValidSizes(code) && Kraft(code) && ValidSizes(acc) && 16 <= c < 19 && code[c] > 0
    requires |acc| + n <= total && 0 < n && (c == 16 ==> acc != []) && v < Pow2(w)
    requires if c == 16 then n == v + 3 && w == 2 else if c == 17 then n == v + 3 && w == 3 else n == v + 11 && w == 7
    requires Shows(input, p, CodeWord(code, c) + Lsb(v, w))
    ensures CodeLengths(code, input, p, total, acc) ==
      CodeLengths(code, input, p + code[c] + w, total, acc + Fill(if c == 16 then acc[|acc| - 1] else 0, n))
  {
    hide Shows, Lsb, Kraft, CodeLengths, CodeWord, ReadBits, Pow2;
    ShowsSplit(input, p, CodeWord(code, c), Lsb(v, w));
    WordReads(code, input, p, c);
    FieldReads(input, p + code[c], v, w);
    CodeLengthsRun(code, input, p, total, acc, c, n, p + code[c] + w);
  }

  /** A list written with the codes of its items reads back as what the items spell. */
  lemma {:induction false} ItemsRead(code: seq<nat>, input: seq<byte>, p: nat, acc: seq<nat>, items: seq<Item>)
    requires |code| == 19 && ValidSizes(code) && Kraft(code) && ValidSizes(acc) && AllItemsOk(acc, items)
    requires Codable(code, items) && Shows(input, p, ItemsBits(code, acc, items))
    ensures CodeLengths(code, input, p, |Spelt(acc, items)|, acc)
         == Lengths(Spelt(acc, items), p + |ItemsBits(code, acc, items)|)
    decreases |items|
  {
    hide Shows, Kraft, ItemBits, Spelt1, CodeLengths;
    var total := |Spelt(acc, items)|;
    if items == [] {
      CodeLengthsEnd(code, input, p, total, acc);
    } else {
      var next, rest := Spelt1(acc, items[0]), items[1..];
      var a, b := ItemBits(code, items[0]), ItemsBits(code, next, rest);
      ShowsSplit(input, p, a, b);
      ItemReads(code, input, p, total, acc, items[0]);
      ItemsRead(code, input, p + |a|, next, rest);
    }
  }

  // ---- the whole header ----

  /** A header: the code of the code lengths, how many of its lengths are written, and the two lists as items. */
  datatype Header = Header(code: seq<nat>, written: nat, items: seq<Item>, literals: nat)
  {
    /** All that section 3.2.7 demands of an encoder. */
    ghost predicate Ok() {
      && |code| == 19 && (forall j :: 0 <= j < 19 ==> code[j] < 8) && KraftOk(code)
      && 4 <= written <= 19 && (forall k :: written <= k < 19 ==> Ordered(code)[k] == 0)
      && Codable(code, items) && AllItemsOk([], items)
      && 257 <= literals <= 288 && 1 <= |Spelt([], items)| - literals <= 32
      && KraftOk(Lengths()) && KraftOk(Distances())
    }

    /** The code lengths of the literals and of the distances. */
    ghost function Lengths(): seq<nat>
      requires AllItemsOk([], items) && literals <= |Spelt([], items)|
    {
      Spelt([], items)[..literals]
    }

    ghost function Distances(): seq<nat>
      requires AllItemsOk([], items) && literals <= |Spelt([], items)|
    {
      Spelt([], items)[literals..]
    }

    ghost function Bits(): seq<bit>
      requires Ok()
    {
      Lsb(literals - 257, 5) + Lsb(|Spelt([], items)| - literals - 1, 5) + Lsb(written - 4, 4)
      + Fields(Ordered(code)[..written]) + ItemsBits(code, [], items)
    }
  }

  ghost predicate KraftOk(sizes: seq<nat>) {
    ValidSizes(sizes) && Kraft(sizes)
  }

  /** Whatever an encoder may write as the header of a dynamic block reads back as its two lists. */
  lemma HeaderReads(input: seq<byte>, p: nat, h: Header)
    requires h.Ok() && Shows(input, p, h.Bits())
    ensures DynamicTables(input, p) == Tables(h.Lengths(), h.Distances(), p + |h.Bits()|)
  {
    hide Shows, Lsb, Kraft, Fields, Ordered, ItemsBits, Spelt, CodeLengths, CodeLengthSizes, ReadBits, Codable, AllItemsOk;
    var n := |Spelt([], h.items)|;
    var a, b, c := Lsb(h.literals - 257, 5), Lsb(n - h.literals - 1, 5), Lsb(h.written - 4, 4);
    var d, e := Fields(Ordered(h.code)[..h.written]), ItemsBits(h.code, [], h.items);
    ShowsSplit(input, p, a + b + c + d, e);
    ShowsSplit(input, p, a + b + c, d);
    ShowsSplit(input, p, a + b, c);
    ShowsSplit(input, p, a, b);
    FieldSizes(h.literals - 257, n - h.literals - 1, h.written - 4);
    FieldReads(input, p, h.literals - 257, 5);
    FieldReads(input, p + 5, n - h.literals - 1, 5);
    FieldReads(input, p + 10, h.written - 4, 4);
    CodeOfLengthsReads(input, p + 14, h.code, h.written);
    ItemsRead(h.code, input, p + 14 + 3 * h.written, [], h.items);
  }

  lemma FieldSizes(a: nat, b: nat, c: nat)
    requires a < 32 && b < 32 && c < 16
    ensures a < Pow2(5) && b < Pow2(5) && c < Pow2(4)
    ensures |Lsb(a, 5)| == 5 && |Lsb(b, 5)| == 5 && |Lsb(c, 4)| == 4
  {
    Pow2Values();
  }
}
