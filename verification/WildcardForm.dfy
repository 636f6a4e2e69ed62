/** Patterns as they are meant: literals, wildcards, sets and groups of alternatives as a tree, what such a
    tree describes, and that the matcher reads the tree's text as exactly that. */
module WildcardForm {
  import opened WildcardLanguage
  import opened WildcardMatch
  import opened WildcardSyntax

  datatype Item<C> =
    | Plain(x: C)
    | Quoted(x: C)
    | Many
    | OneOf
    | SetOf(negated: bool, members: seq<C>)
    | Choice(alternatives: Alternatives<C>)

  /** One or more alternatives. */
  datatype Alternatives<C> = Last(items: seq<Item<C>>) | Either(items: seq<Item<C>>, others: Alternatives<C>)

  // ---- texts ----

  /** The special characters differ from each other. */
  predicate CardsOk<C(==)>(c: Cards<C>) {
    && c.anything !in [c.single, c.escape, c.setOpen, c.altOpen, c.altClose, c.altOr]
    && c.single !in [c.escape, c.setOpen, c.altOpen, c.altClose, c.altOr]
    && c.escape !in [c.setOpen, c.altOpen, c.altClose, c.altOr]
    && c.setOpen !in [c.altOpen, c.altClose, c.altOr]
    && c.altOpen !in [c.altClose, c.altOr] && c.altClose != c.altOr
  }

  predicate Special<C(==)>(c: Cards<C>, x: C) {
    x in [c.anything, c.single, c.escape, c.setOpen, c.altOpen, c.altClose, c.altOr]
  }

  /** The item can be written: sets have a member, only the first of which may look like the end of the set. */
  predicate ItemOk<C(==)>(c: Cards<C>, a: Item<C>) {
    match a
    case Plain(x) => !Special(c, x)
    case Quoted(x) => true
    case Many => true
    case OneOf => true
    case SetOf(negated, members) =>
      && c.setEnabled && members != [] && (negated || members[0] != c.setNot)
      && forall i :: 0 < i < |members| ==> members[i] != c.setClose
    case Choice(alternatives) => c.altEnabled && AllItemsOk(c, alternatives)
  }

  predicate ItemsOk<C(==)>(c: Cards<C>, items: seq<Item<C>>) {
    items == [] || (ItemOk(c, items[0]) && ItemsOk(c, items[1..]))
  }

  predicate AllItemsOk<C(==)>(c: Cards<C>, alts: Alternatives<C>) {
    ItemsOk(c, alts.items) && (alts.Either? ==> AllItemsOk(c, alts.others))
  }

  function Text<C>(c: Cards<C>, a: Item<C>): (s: seq<C>)
    ensures |s| > 0
  {
    match a
    case Plain(x) => [x]
    case Quoted(x) => [c.escape, x]
    case Many => [c.anything]
    case OneOf => [c.single]
    case SetOf(negated, members) => [c.setOpen] + (if negated then [c.setNot] else []) + members + [c.setClose]
    case Choice(alternatives) => [c.altOpen] + Choices(c, alternatives) + [c.altClose]
  }

  function Texts<C>(c: Cards<C>, items: seq<Item<C>>): seq<C> {
    if items == [] then [] else Text(c, items[0]) + Texts(c, items[1..])
  }

  /** The alternatives with "or" between them. */
  function Choices<C>(c: Cards<C>, alts: Alternatives<C>): seq<C> {
    match alts
    case Last(items) => Texts(c, items)
    case Either(items, others) => Texts(c, items) + [c.altOr] + Choices(c, others)
  }

  // ---- meanings ----

  ghost predicate OneMeans<S, C>(a: Item<C>, equal: (S, C) -> bool, v: seq<S>) {
    match a
    case Plain(x) => |v| == 1 && equal(v[0], x)
    case Quoted(x) => |v| == 1 && equal(v[0], x)
    case Many => true
    case OneOf => |v| == 1
    case SetOf(negated, members) => |v| == 1 && (negated <==> !(exists i :: 0 <= i < |members| && equal(v[0], members[i])))
    case Choice(alternatives) => SomeMeans(alternatives, equal, v)
  }

  /** One item after the other. */
  ghost predicate Means<S, C>(items: seq<Item<C>>, equal: (S, C) -> bool, v: seq<S>) {
    if items == [] then v == []
    else exists k :: 0 <= k <= |v| && OneMeans(items[0], equal, v[..k]) && Means(items[1..], equal, v[k..])
  }

  ghost predicate SomeMeans<S, C>(alts: Alternatives<C>, equal: (S, C) -> bool, v: seq<S>) {
    Means(alts.items, equal, v) || (alts.Either? && SomeMeans(alts.others, equal, v))
  }

  // ---- text in a pattern ----

  /** The text s stands at p. */
  ghost predicate At<C>(pat: seq<C>, p: nat, s: seq<C>) {
    p + |s| <= |pat| && pat[p..p + |s|] == s
  }

  lemma AtSplit<C>(pat: seq<C>, p: nat, a: seq<C>, b: seq<C>)
    requires At(pat, p, a + b)
    ensures At(pat, p, a) && At(pat, p + |a|, b)
  {
    var s := pat[p..p + |a| + |b|];
    assert s == a + b;
    assert s[..|a|] == a && s[|a|..] == b;
    assert s[..|a|] == pat[p..p + |a|] && s[|a|..] == pat[p + |a|..p + |a| + |b|];
  }

  lemma AtFirst<C>(pat: seq<C>, p: nat, s: seq<C>)
    requires At(pat, p, s) && s != []
    ensures p < |pat| && pat[p] == s[0]
  {
    assert pat[p..p + |s|][0] == pat[p];
  }

  // ---- scanning over texts ----

  /** The characters of a set's text. */
  lemma SetCharacters<C>(pat: seq<C>, p: nat, c: Cards<C>, negated: bool, members: seq<C>)
    requires members != [] && At(pat, p, Text(c, SetOf(negated, members)))
    ensures var m, q := if negated then p + 2 else p + 1, p + |Text(c, SetOf(negated, members))|;
      && q == m + |members| + 1 <= |pat| && pat[p] == c.setOpen && pat[q - 1] == c.setClose
      && pat[p + 1] == (if negated then c.setNot else members[0])
      && forall i :: 0 <= i < |members| ==> pat[m + i] == members[i]
  {
    var not := if negated then [c.setNot] else [];
    assert Text(c, SetOf(negated, members)) == [c.setOpen] + not + members + [c.setClose];
    hide Text;
    AtSplit(pat, p, [c.setOpen] + not + members, [c.setClose]);
    AtSplit(pat, p, [c.setOpen] + not, members);
    AtSplit(pat, p, [c.setOpen], not);
    AtFirst(pat, p, [c.setOpen]);
    AtFirst(pat, p + 1 + |not| + |members|, [c.setClose]);
    if negated { AtFirst(pat, p + 1, not); }
    var m := p + 1 + |not|;
    forall i | 0 <= i < |members|
      ensures pat[m + i] == members[i]
    {
      assert pat[m..m + |members|][i] == pat[m + i];
    }
  }

  /** A set's text is recognised as a set that ends with it. */
  lemma SetRecognised<C>(pat: seq<C>, p: nat, pend: nat, c: Cards<C>, negated: bool, members: seq<C>)
    requires ItemOk(c, SetOf(negated, members)) && At(pat, p, Text(c, SetOf(negated, members)))
    requires p + |Text(c, SetOf(negated, members))| <= pend <= |pat|
    ensures p < pend && SetAt(pat, p, pend, c)
    ensures SetEnd(pat, p + 1, pend, c, NotOrFirst) == Pos.At(p + |Text(c, SetOf(negated, members))|)
    ensures Members(pat, p + 1, c) == (if negated then p + 2 else p + 1)
    ensures forall i :: 0 <= i < |members| ==> pat[Members(pat, p + 1, c) + i] == members[i]
    ensures pat[p + 1] == c.setNot <==> negated
  {
    SetWritable(c, negated, members);
    hide At, Text, IsSet, SetEnd, ItemOk;
    SetCharacters(pat, p, c, negated, members);
    var m, close := if negated then p + 2 else p + 1, p + |Text(c, SetOf(negated, members))| - 1;
    forall k | m < k < close
      ensures pat[k] != c.setClose
    {
      assert pat[m + (k - m)] == members[k - m];
    }
    SetEnds(pat, p + 1, close, pend, c);
  }

  /** The first closing character behind the first member ends the set. */
  lemma SetEnds<C>(pat: seq<C>, p: nat, close: nat, pend: nat, c: Cards<C>)
    requires c.setEnabled && p < |pat| && Members(pat, p, c) < close < pend <= |pat| && pat[close] == c.setClose
    requires forall k :: Members(pat, p, c) < k < close ==> pat[k] != c.setClose
    ensures IsSet(pat, p, pend, c, NotOrFirst) && SetEnd(pat, p, pend, c, NotOrFirst) == Pos.At(close + 1)
  {
    SetIsFirstClose(pat, p, pend, c);
    EndIsSet(pat, p, pend, c);
    hide IsSet, SetEnd;
    var e := SetEnd(pat, p, pend, c, NotOrFirst);
    assert Members(pat, p, c) < e.pos - 1 && pat[e.pos - 1] == c.setClose;
  }

  lemma SetWritable<C>(c: Cards<C>, negated: bool, members: seq<C>)
    requires ItemOk(c, SetOf(negated, members))
    ensures c.setEnabled && members != [] && (negated || members[0] != c.setNot)
    ensures forall i :: 0 < i < |members| ==> members[i] != c.setClose
  {
  }

  lemma EndIsSet<C>(pat: seq<C>, p: nat, pend: nat, c: Cards<C>)
    requires p <= pend <= |pat|
    ensures SetEnd(pat, p, pend, c, NotOrFirst).At? <==> IsSet(pat, p, pend, c, NotOrFirst)
  {
  }

  /** Searching for the end of a group passes over whole items, and searching for the end of an alternative too. */
  ghost predicate Passes<C>(pat: seq<C>, p: nat, q: nat, pend: nat, c: Cards<C>, depth: int) {
    && p <= q <= pend <= |pat|
    && AltEnd(pat, p, pend, c, AltNext, depth) == AltEnd(pat, q, pend, c, AltNext, depth)
    && AltSubEnd(pat, p, pend, c, AltNext, depth) == AltSubEnd(pat, q, pend, c, AltNext, depth)
  }

  lemma {:induction false} ItemPassed<C>(pat: seq<C>, p: nat, pend: nat, c: Cards<C>, a: Item<C>, depth: int)
    requires CardsOk(c) && ItemOk(c, a) && depth >= 1 && At(pat, p, Text(c, a)) && p + |Text(c, a)| <= pend <= |pat|
    ensures Passes(pat, p, p + |Text(c, a)|, pend, c, depth)
    decreases a, 0
  {
    hide At, AllItemsOk, Choices, AltEnd, AltSubEnd, SetAt;
    AtFirst(pat, p, Text(c, a));
    match a {
      case Plain(x) => OnePassed(pat, p, pend, c, depth);
      case Quoted(x) => QuotedPassed(pat, p, pend, c, depth);
      case Many => OnePassed(pat, p, pend, c, depth);
      case OneOf => OnePassed(pat, p, pend, c, depth);
      case SetOf(negated, members) =>
        SetRecognised(pat, p, pend, c, negated, members);
        SetPassed(pat, p, p + |Text(c, a)|, pend, c, depth);
      case Choice(alts) =>
        var body := Choices(c, alts);
        AtSplit(pat, p, [c.altOpen] + body, [c.altClose]);
        AtSplit(pat, p, [c.altOpen], body);
        AtFirst(pat, p + 1 + |body|, [c.altClose]);
        ChoicesPassed(pat, p + 1, pend, c, alts, depth + 1);
        GroupPassed(pat, p, p + 1 + |body|, pend, c, depth);
    }
  }

  lemma OnePassed<C>(pat: seq<C>, p: nat, pend: nat, c: Cards<C>, depth: int)
    requires p < pend <= |pat| && pat[p] !in [c.escape, c.setOpen, c.altOpen, c.altClose, c.altOr]
    ensures Passes(pat, p, p + 1, pend, c, depth)
  {
  }

  lemma QuotedPassed<C>(pat: seq<C>, p: nat, pend: nat, c: Cards<C>, depth: int)
    requires CardsOk(c) && p + 2 <= pend <= |pat| && pat[p] == c.escape
    ensures Passes(pat, p, p + 2, pend, c, depth)
  {
    assert AltEnd(pat, p + 1, pend, c, AltEscape, depth) == AltEnd(pat, p + 2, pend, c, AltNext, depth);
    assert AltSubEnd(pat, p + 1, pend, c, AltEscape, depth) == AltSubEnd(pat, p + 2, pend, c, AltNext, depth);
  }

  lemma SetPassed<C>(pat: seq<C>, p: nat, q: nat, pend: nat, c: Cards<C>, depth: int)
    requires CardsOk(c) && p < q <= pend <= |pat| && SetAt(pat, p, pend, c)
    requires SetEnd(pat, p + 1, pend, c, NotOrFirst) == Pos.At(q)
    ensures Passes(pat, p, q, pend, c, depth)
  {
  }

  lemma GroupPassed<C>(pat: seq<C>, p: nat, q: nat, pend: nat, c: Cards<C>, depth: int)
    requires CardsOk(c) && p < q < pend <= |pat| && pat[p] == c.altOpen && pat[q] == c.altClose && depth >= 1
    requires Passes(pat, p + 1, q, pend, c, depth + 1)
    ensures Passes(pat, p, q + 1, pend, c, depth)
  {
  }

  lemma {:induction false} ItemsPassed<C>(pat: seq<C>, p: nat, pend: nat, c: Cards<C>, items: seq<Item<C>>, depth: int)
    requires CardsOk(c) && ItemsOk(c, items) && depth >= 1 && At(pat, p, Texts(c, items)) && p + |Texts(c, items)| <= pend <= |pat|
    ensures Passes(pat, p, p + |Texts(c, items)|, pend, c, depth)
    decreases items, 1
  {
    hide At, AltEnd, AltSubEnd, CardsOk, ItemOk, Text;
    if items != [] {
      var t := Text(c, items[0]);
      AtSplit(pat, p, t, Texts(c, items[1..]));
      ItemPassed(pat, p, pend, c, items[0], depth);
      ItemsPassed(pat, p + |t|, pend, c, items[1..], depth);
    }
  }

  /** Inside a group that is itself inside, an "or" ends nothing. */
  lemma {:induction false} ChoicesPassed<C>(pat: seq<C>, p: nat, pend: nat, c: Cards<C>, alts: Alternatives<C>, depth: int)
    requires CardsOk(c) && AllItemsOk(c, alts) && depth >= 2 && At(pat, p, Choices(c, alts))
    requires p + |Choices(c, alts)| <= pend <= |pat|
    ensures Passes(pat, p, p + |Choices(c, alts)|, pend, c, depth)
    decreases alts, 2
  {
    hide At, AltEnd, AltSubEnd, CardsOk, Texts;
    match alts {
      case Last(items) =>
        ItemsPassed(pat, p, pend, c, items, depth);
      case Either(items, others) =>
        var t, rest := Texts(c, items), Choices(c, others);
        AtSplit(pat, p, t + [c.altOr], rest);
        AtSplit(pat, p, t, [c.altOr]);
        AtFirst(pat, p + |t|, [c.altOr]);
        ItemsPassed(pat, p, pend, c, items, depth);
        OrPassed(pat, p + |t|, pend, c, depth);
        ChoicesPassed(pat, p + |t| + 1, pend, c, others, depth);
    }
  }

  lemma OrPassed<C>(pat: seq<C>, p: nat, pend: nat, c: Cards<C>, depth: int)
    requires CardsOk(c) && p < pend <= |pat| && pat[p] == c.altOr && depth >= 2
    ensures Passes(pat, p, p + 1, pend, c, depth)
  {
  }

  // ---- groups ----

  /** In a group's text, the end of the first alternative is found, and the end of the group. */
  lemma {:induction false} GroupFound<C>(pat: seq<C>, p: nat, pend: nat, c: Cards<C>, alts: Alternatives<C>)
    requires CardsOk(c) && c.altEnabled && AllItemsOk(c, alts) && At(pat, p, Choices(c, alts) + [c.altClose])
    requires p + |Choices(c, alts)| + 1 <= pend <= |pat|
    ensures AltEnd(pat, p, pend, c, AltNext, 1) == Pos.At(p + |Choices(c, alts)| + 1)
    ensures AltSubEnd(pat, p, pend, c, AltNext, 1) == Pos.At(p + |Texts(c, alts.items)|)
    decreases alts
  {
    hide At, AllItemsOk, Texts;
    var t := Texts(c, alts.items);
    match alts {
      case Last(items) =>
        AtSplit(pat, p, t, [c.altClose]);
        AllAreOk(c, alts);
        ItemsPassed(pat, p, pend, c, items, 1);
        AtFirst(pat, p + |t|, [c.altClose]);
        CloseEnds(pat, p + |t|, pend, c);
      case Either(items, others) =>
        var rest := Choices(c, others) + [c.altClose];
        assert Choices(c, alts) + [c.altClose] == t + ([c.altOr] + rest);
        AtSplit(pat, p, t, [c.altOr] + rest);
        AtSplit(pat, p + |t|, [c.altOr], rest);
        AllAreOk(c, alts);
        ItemsPassed(pat, p, pend, c, items, 1);
        AtFirst(pat, p + |t|, [c.altOr]);
        OrEnds(pat, p + |t|, pend, c);
        GroupFound(pat, p + |t| + 1, pend, c, others);
    }
  }

  lemma AllAreOk<C>(c: Cards<C>, alts: Alternatives<C>)
    requires AllItemsOk(c, alts)
    ensures ItemsOk(c, alts.items) && (alts.Either? ==> AllItemsOk(c, alts.others))
  {
  }

  lemma CloseEnds<C>(pat: seq<C>, p: nat, pend: nat, c: Cards<C>)
    requires CardsOk(c) && c.altEnabled && p < pend <= |pat| && pat[p] == c.altClose
    ensures AltEnd(pat, p, pend, c, AltNext, 1) == Pos.At(p + 1) && AltSubEnd(pat, p, pend, c, AltNext, 1) == Pos.At(p)
  {
  }

  lemma OrEnds<C>(pat: seq<C>, p: nat, pend: nat, c: Cards<C>)
    requires CardsOk(c) && c.altEnabled && p < pend <= |pat| && pat[p] == c.altOr
    ensures AltEnd(pat, p, pend, c, AltNext, 1) == AltEnd(pat, p + 1, pend, c, AltNext, 1)
    ensures AltSubEnd(pat, p, pend, c, AltNext, 1) == Pos.At(p)
  {
  }

  // ---- the language of a text is the meaning of its tree ----

  /** What the pattern from p on describes, when an item is followed by the rest from q on. */
  ghost predicate Splits<S, C>(pat: seq<C>, q: nat, pend: nat, c: Cards<C>, equal: (S, C) -> bool, a: Item<C>, v: seq<S>)
    requires q <= pend <= |pat|
  {
    exists k :: 0 <= k <= |v| && OneMeans(a, equal, v[..k]) && Describes(pat, q, pend, c, equal, v[k..])
  }

  /** One character and the rest. */
  lemma SplitsOne<S, C>(pat: seq<C>, q: nat, pend: nat, c: Cards<C>, equal: (S, C) -> bool, a: Item<C>, v: seq<S>)
    requires q <= pend <= |pat| && !a.Many? && !a.Choice?
    ensures Splits(pat, q, pend, c, equal, a, v)
      <==> |v| > 0 && OneMeans(a, equal, v[..1]) && Describes(pat, q, pend, c, equal, v[1..])
  {
    hide Describes;
    if Splits(pat, q, pend, c, equal, a, v) {
      var k :| 0 <= k <= |v| && OneMeans(a, equal, v[..k]) && Describes(pat, q, pend, c, equal, v[k..]);
      assert |v[..k]| == 1 && k == 1;
    }
  }

  lemma SetMeans<S, C>(pat: seq<C>, p: nat, pend: nat, c: Cards<C>, equal: (S, C) -> bool, negated: bool, members: seq<C>, x: S)
    requires ItemOk(c, SetOf(negated, members)) && At(pat, p, Text(c, SetOf(negated, members)))
    requires p + |Text(c, SetOf(negated, members))| <= pend <= |pat|
    ensures p < pend && SetAt(pat, p, pend, c)
    ensures InSet(x, pat, p + 1, pend, c, equal) <==> OneMeans(SetOf(negated, members), equal, [x])
  {
    SetRecognised(pat, p, pend, c, negated, members);
    var m, n := Members(pat, p + 1, c), |members|;
    SetSize(c, negated, members);
    hide IsSet, SetEnd, At, Text, Members, ItemOk;
    assert m + n == SetEnd(pat, p + 1, pend, c, NotOrFirst).pos - 1;
    SomeMember(x, pat, m, members, equal);
  }

  lemma SetSize<C>(c: Cards<C>, negated: bool, members: seq<C>)
    ensures |Text(c, SetOf(negated, members))| == |members| + if negated then 3 else 2
  {
  }

  lemma SomeMember<S, C>(x: S, pat: seq<C>, m: nat, members: seq<C>, equal: (S, C) -> bool)
    requires m + |members| <= |pat| && forall i :: 0 <= i < |members| ==> pat[m + i] == members[i]
    ensures EqualsSome(x, pat, m, m + |members|, equal) <==> exists i :: 0 <= i < |members| && equal(x, members[i])
  {
    if EqualsSome(x, pat, m, m + |members|, equal) {
      var k :| m <= k < m + |members| && equal(x, pat[k]);
      assert pat[m + (k - m)] == members[k - m];
    }
    if i :| 0 <= i < |members| && equal(x, members[i]) {
      assert equal(x, pat[m + i]);
    }
  }

  /** An item's text describes what the item means, followed by what the rest describes. */
  lemma {:induction false} ItemSplits<S, C>(pat: seq<C>, p: nat, pend: nat, c: Cards<C>, equal: (S, C) -> bool, a: Item<C>, v: seq<S>)
    requires CardsOk(c) && ItemOk(c, a) && At(pat, p, Text(c, a)) && p + |Text(c, a)| <= pend <= |pat|
    ensures Describes(pat, p, pend, c, equal, v) <==> Splits(pat, p + |Text(c, a)|, pend, c, equal, a, v)
    decreases a, 0
  {
    hide At, Describes, AllItemsOk, Choices, IsSet, SetEnd, InSet;
    var q := p + |Text(c, a)|;
    AtFirst(pat, p, Text(c, a));
    match a {
      case Plain(x) =>
        PlainConstruct(pat, p, pend, c);
        DescribesOne(pat, p, pend, c, equal, v);
        SplitsOne(pat, q, pend, c, equal, a, v);
      case Quoted(x) =>
        SecondStands(pat, p, c, x);
        QuotedConstruct(pat, p, pend, c);
        DescribesOne(pat, p, pend, c, equal, v);
        SplitsOne(pat, q, pend, c, equal, a, v);
      case OneOf =>
        DescribesOne(pat, p, pend, c, equal, v);
        SplitsOne(pat, q, pend, c, equal, a, v);
      case Many =>
        ManySplits(pat, p, pend, c, equal, v);
      case SetOf(negated, members) =>
        if v != [] {
          SetMeans(pat, p, pend, c, equal, negated, members, v[0]);
          assert v[..1] == [v[0]];
        }
        SetConstruct(pat, p, pend, c, negated, members);
        DescribesOne(pat, p, pend, c, equal, v);
        SplitsOne(pat, q, pend, c, equal, a, v);
      case Choice(alts) =>
        ChoiceSplits(pat, p, pend, c, equal, alts, v);
    }
  }

  lemma SecondStands<C>(pat: seq<C>, p: nat, c: Cards<C>, x: C)
    requires At(pat, p, [c.escape, x])
    ensures p + 1 < |pat| && pat[p + 1] == x
  {
    assert pat[p..p + 2][1] == pat[p + 1];
  }

  lemma PlainConstruct<C>(pat: seq<C>, p: nat, pend: nat, c: Cards<C>)
    requires p < pend <= |pat| && !Special(c, pat[p])
    ensures ConstructAt(pat, p, pend, c) == Literal
  {
  }

  lemma QuotedConstruct<C>(pat: seq<C>, p: nat, pend: nat, c: Cards<C>)
    requires CardsOk(c) && p + 1 < pend <= |pat| && pat[p] == c.escape
    ensures ConstructAt(pat, p, pend, c) == Escaped
  {
  }

  lemma SetConstruct<C>(pat: seq<C>, p: nat, pend: nat, c: Cards<C>, negated: bool, members: seq<C>)
    requires CardsOk(c) && ItemOk(c, SetOf(negated, members)) && At(pat, p, Text(c, SetOf(negated, members)))
    requires p + |Text(c, SetOf(negated, members))| <= pend <= |pat|
    ensures ConstructAt(pat, p, pend, c) == SetTo(p + |Text(c, SetOf(negated, members))|)
  {
    AtFirst(pat, p, Text(c, SetOf(negated, members)));
    SetRecognised(pat, p, pend, c, negated, members);
  }

  lemma ManySplits<S, C>(pat: seq<C>, p: nat, pend: nat, c: Cards<C>, equal: (S, C) -> bool, v: seq<S>)
    requires CardsOk(c) && p < pend <= |pat| && pat[p] == c.anything
    ensures Describes(pat, p, pend, c, equal, v) <==> Splits(pat, p + 1, pend, c, equal, Many, v)
  {
    assert ConstructAt(pat, p, pend, c) == Anything;
    if Describes(pat, p, pend, c, equal, v) {
      var k :| 0 <= k <= |v| && Describes(pat, p + 1, pend, c, equal, v[k..]);
      assert OneMeans(Many, equal, v[..k]);
    }
    if Splits(pat, p + 1, pend, c, equal, Many, v) {
      var k :| 0 <= k <= |v| && OneMeans(Many, equal, v[..k]) && Describes(pat, p + 1, pend, c, equal, v[k..]);
    }
  }

  lemma {:induction false} ChoiceSplits<S, C>(pat: seq<C>, p: nat, pend: nat, c: Cards<C>, equal: (S, C) -> bool,
                                              alts: Alternatives<C>, v: seq<S>)
    requires CardsOk(c) && c.altEnabled && AllItemsOk(c, alts) && At(pat, p, [c.altOpen] + Choices(c, alts) + [c.altClose])
    requires p + |Choices(c, alts)| + 2 <= pend <= |pat|
    ensures Describes(pat, p, pend, c, equal, v)
      <==> Splits(pat, p + |Choices(c, alts)| + 2, pend, c, equal, Choice(alts), v)
    decreases alts, 3
  {
    hide At, Describes, AllItemsOk, Choices, SomeMeans, SomeDescribes;
    var e := p + |Choices(c, alts)| + 2;
    assert [c.altOpen] + Choices(c, alts) + [c.altClose] == [c.altOpen] + (Choices(c, alts) + [c.altClose]);
    AtSplit(pat, p, [c.altOpen], Choices(c, alts) + [c.altClose]);
    AtFirst(pat, p, [c.altOpen]);
    GroupFound(pat, p + 1, pend, c, alts);
    GroupFound(pat, p + 1, e, c, alts);
    GroupConstruct(pat, p, e, pend, c);
    GroupDescribes(pat, p, pend, c, equal, v);
    forall k | 0 <= k <= |v|
      ensures SomeDescribes(pat, p + 1, e, c, equal, v[..k]) <==> SomeMeans(alts, equal, v[..k])
    {
      AlternativesMean(pat, p + 1, e, c, equal, alts, v[..k]);
    }
    forall k | 0 <= k <= |v|
      ensures OneMeans(Choice(alts), equal, v[..k]) <==> SomeMeans(alts, equal, v[..k])
    {
    }
  }

  lemma GroupConstruct<C>(pat: seq<C>, p: nat, e: nat, pend: nat, c: Cards<C>)
    requires CardsOk(c) && c.altEnabled && p < e <= pend <= |pat| && pat[p] == c.altOpen
    requires AltEnd(pat, p + 1, pend, c, AltNext, 1) == Pos.At(e) && AltEnd(pat, p + 1, e, c, AltNext, 1) == Pos.At(e)
    ensures ConstructAt(pat, p, pend, c) == GroupTo(e) && InGroup(pat, p + 1, e, c)
  {
  }

  lemma {:induction false} AlternativesMean<S, C>(pat: seq<C>, a: nat, e: nat, c: Cards<C>, equal: (S, C) -> bool,
                                                  alts: Alternatives<C>, v: seq<S>)
    requires CardsOk(c) && c.altEnabled && AllItemsOk(c, alts) && At(pat, a, Choices(c, alts) + [c.altClose])
    requires e == a + |Choices(c, alts)| + 1 <= |pat|
    ensures InGroup(pat, a, e, c)
    ensures SomeDescribes(pat, a, e, c, equal, v) <==> SomeMeans(alts, equal, v)
    decreases alts, 2
  {
    hide At, Describes, AllItemsOk, Means, Texts;
    GroupFound(pat, a, e, c, alts);
    AllAreOk(c, alts);
    var t := Texts(c, alts.items);
    assert InGroup(pat, a, e, c) && AlternativeEnd(pat, a, e, c) == a + |t|;
    match alts {
      case Last(items) =>
        AtSplit(pat, a, t, [c.altClose]);
        TextsDescribe(pat, a, a + |t|, c, equal, items, v);
      case Either(items, others) =>
        var rest := Choices(c, others) + [c.altClose];
        assert Choices(c, alts) + [c.altClose] == t + ([c.altOr] + rest);
        AtSplit(pat, a, t, [c.altOr] + rest);
        AtSplit(pat, a + |t|, [c.altOr], rest);
        TextsDescribe(pat, a, a + |t|, c, equal, items, v);
        AlternativesMean(pat, a + |t| + 1, e, c, equal, others, v);
    }
  }

  /** A text describes exactly what its tree means. */
  lemma {:induction false} TextsDescribe<S, C>(pat: seq<C>, p: nat, pend: nat, c: Cards<C>, equal: (S, C) -> bool,
                                               items: seq<Item<C>>, v: seq<S>)
    requires CardsOk(c) && ItemsOk(c, items) && At(pat, p, Texts(c, items)) && p + |Texts(c, items)| == pend <= |pat|
    ensures Describes(pat, p, pend, c, equal, v) <==> Means(items, equal, v)
    decreases items, 1
  {
    hide At, Describes, ItemOk, Text, OneMeans;
    if items == [] {
      NothingDescribed(pat, p, c, equal, v);
    } else {
      var t, rest := Text(c, items[0]), items[1..];
      AtSplit(pat, p, t, Texts(c, rest));
      ItemSplits(pat, p, pend, c, equal, items[0], v);
      forall k | 0 <= k <= |v|
        ensures Describes(pat, p + |t|, pend, c, equal, v[k..]) <==> Means(rest, equal, v[k..])
      {
        TextsDescribe(pat, p + |t|, pend, c, equal, rest, v[k..]);
      }
    }
  }

  lemma NothingDescribed<S, C>(pat: seq<C>, p: nat, c: Cards<C>, equal: (S, C) -> bool, v: seq<S>)
    requires p <= |pat|
    ensures Describes(pat, p, p, c, equal, v) <==> v == []
  {
  }

  /** For a pattern written from a tree: whatever it matches the tree means, and if the alternatives of every group
      have fixed lengths it matches all that the tree means. */
  lemma TextMatches<S, C>(w: seq<S>, c: Cards<C>, equal: (S, C) -> bool, items: seq<Item<C>>)
    requires CardsOk(c) && ItemsOk(c, items)
    ensures var pat := Texts(c, items);
      && Matches(w, pat, c, equal).Found?
      && (Matches(w, pat, c, equal).res ==> Means(items, equal, w))
      && (Rigid(pat, 0, |pat|, c) ==> (Matches(w, pat, c, equal).res <==> Means(items, equal, w)))
  {
    hide Means, Rigid, Matches, Describes;
    var pat := Texts(c, items);
    assert pat[0..0 + |pat|] == pat;
    MatchMeaning(w, pat, c, equal);
    TextsDescribe(pat, 0, |pat|, c, equal, items, w);
  }
}
