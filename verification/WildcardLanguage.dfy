/** The language of a wildcard pattern.  A match is sound for every pattern; it is complete when every
    alternative matches sequences of one length only, in particular when there are no groups. */
module WildcardLanguage {
  import opened WildcardMatch
  import opened WildcardSyntax

  /** The construct that starts at a position, with the position after it. */
  datatype Construct = End | Anything | Single | Escaped | SetTo(e: nat) | GroupTo(e: nat) | Literal

  function ConstructAt<C(==)>(pat: seq<C>, p: nat, pend: nat, c: Cards<C>): (r: Construct)
    requires p <= pend <= |pat|
    ensures r.SetTo? ==> p < r.e <= pend && IsSet(pat, p + 1, pend, c, NotOrFirst)
    ensures r.GroupTo? ==> p + 1 < r.e <= pend && InGroup(pat, p + 1, r.e, c)
    ensures r.End? <==> p == pend
  {
    if p == pend then End
    else if pat[p] == c.anything then Anything
    else if pat[p] == c.single then Single
    else if pat[p] == c.escape then Escaped
    else if SetAt(pat, p, pend, c) then SetTo(SetEnd(pat, p + 1, pend, c, NotOrFirst).pos)
    else if GroupAt(pat, p, pend, c) then
      var e := AltEnd(pat, p + 1, pend, c, AltNext, 1).pos;
      AltUnderShorterEnd(pat, p + 1, e, pend, c, AltNext, 1);
      GroupTo(e)
    else Literal
  }

  /** The end of the alternative that starts at a, in a group that ends at e. */
  function AlternativeEnd<C(==)>(pat: seq<C>, a: nat, e: nat, c: Cards<C>): (b: nat)
    requires InGroup(pat, a, e, c)
    ensures a <= b < e && AltSubEnd(pat, a, e, c, AltNext, 1) == At(b)
    ensures b + 1 == e || InGroup(pat, b + 1, e, c)
  {
    SubEndFound(pat, a, e, c, AltNext, 1);
    AltSubEnd(pat, a, e, c, AltNext, 1).pos
  }

  /** The pattern [p, pend) describes the sequence v. */
  ghost predicate Describes<S, C>(pat: seq<C>, p: nat, pend: nat, c: Cards<C>, equal: (S, C) -> bool, v: seq<S>)
    requires p <= pend <= |pat|
    decreases pend - p
  {
    match ConstructAt(pat, p, pend, c)
    case End => v == []
    case Anything => exists k :: 0 <= k <= |v| && Describes(pat, p + 1, pend, c, equal, v[k..])
    case Single => |v| > 0 && Describes(pat, p + 1, pend, c, equal, v[1..])
    case Escaped =>
      if p + 1 == pend then v == []
      else |v| > 0 && equal(v[0], pat[p + 1]) && Describes(pat, p + 2, pend, c, equal, v[1..])
    case SetTo(e) => |v| > 0 && InSet(v[0], pat, p + 1, pend, c, equal) && Describes(pat, e, pend, c, equal, v[1..])
    case GroupTo(e) =>
      exists k :: 0 <= k <= |v| && SomeDescribes(pat, p + 1, e, c, equal, v[..k]) && Describes(pat, e, pend, c, equal, v[k..])
    case Literal => |v| > 0 && equal(v[0], pat[p]) && Describes(pat, p + 1, pend, c, equal, v[1..])
  }

  /** One of the alternatives from a on describes v. */
  ghost predicate SomeDescribes<S, C>(pat: seq<C>, a: nat, e: nat, c: Cards<C>, equal: (S, C) -> bool, v: seq<S>)
    requires InGroup(pat, a, e, c)
    decreases e - a
  {
    var b := AlternativeEnd(pat, a, e, c);
    Describes(pat, a, b, c, equal, v) || (b + 1 < e && SomeDescribes(pat, b + 1, e, c, equal, v))
  }

  // ---- the language and the matcher, one construct at a time ----

  /** The pattern is over, or only a trailing escape is left. */
  predicate Ends<C(==)>(pat: seq<C>, p: nat, pend: nat, c: Cards<C>)
    requires p <= pend <= |pat|
  {
    p == pend || (p + 1 == pend && ConstructAt(pat, p, pend, c).Escaped?)
  }

  /** The construct takes exactly one character. */
  predicate TakesOne<C(==)>(pat: seq<C>, p: nat, pend: nat, c: Cards<C>)
    requires p <= pend <= |pat|
  {
    var k := ConstructAt(pat, p, pend, c);
    k.Single? || k.SetTo? || k.Literal? || (k.Escaped? && p + 1 < pend)
  }

  function After<C(==)>(pat: seq<C>, p: nat, pend: nat, c: Cards<C>): (q: nat)
    requires p <= pend <= |pat| && TakesOne(pat, p, pend, c)
    ensures p < q <= pend
  {
    var k := ConstructAt(pat, p, pend, c);
    if k.SetTo? then k.e else if k.Escaped? then p + 2 else p + 1
  }

  ghost predicate Takes<S, C>(pat: seq<C>, p: nat, pend: nat, c: Cards<C>, equal: (S, C) -> bool, x: S)
    requires p <= pend <= |pat| && TakesOne(pat, p, pend, c)
  {
    var k := ConstructAt(pat, p, pend, c);
    if k.SetTo? then InSet(x, pat, p + 1, pend, c, equal)
    else k.Single? || equal(x, pat[if k.Escaped? then p + 1 else p])
  }

  lemma DescribesOne<S, C>(pat: seq<C>, p: nat, pend: nat, c: Cards<C>, equal: (S, C) -> bool, v: seq<S>)
    requires p <= pend <= |pat| && TakesOne(pat, p, pend, c)
    ensures Describes(pat, p, pend, c, equal, v) <==>
      |v| > 0 && Takes(pat, p, pend, c, equal, v[0]) && Describes(pat, After(pat, p, pend, c), pend, c, equal, v[1..])
  {
  }

  lemma MatchesOne<S, C>(w: seq<S>, s: nat, pat: seq<C>, p: nat, pend: nat, c: Cards<C>, equal: (S, C) -> bool, partial: bool)
    requires s <= |w| && p <= pend <= |pat| && TakesOne(pat, p, pend, c)
    ensures var r := Match(w, s, pat, p, pend, c, equal, partial, false);
      if s < |w| && Takes(pat, p, pend, c, equal, w[s]) then
        r == Match(w, s + 1, pat, After(pat, p, pend, c), pend, c, equal, partial, false)
      else r.Found? && !r.res
  {
    var r := Match(w, s, pat, p, pend, c, equal, partial, false);
    match ConstructAt(pat, p, pend, c)
    case SetTo(e) =>
      MatchSetMeaning(w, s, pat, p + 1, pend, c, equal);
    case Escaped =>
      assert r == Match(w, s, pat, p + 1, pend, c, equal, partial, true)
              == MatchOne(w, s, pat, p + 1, pend, c, equal, partial);
    case _ =>
  }

  lemma EndDescribes<S, C>(w: seq<S>, s: nat, pat: seq<C>, p: nat, pend: nat, c: Cards<C>, equal: (S, C) -> bool, v: seq<S>,
                           partial: bool)
    requires s <= |w| && p <= pend <= |pat| && Ends(pat, p, pend, c)
    ensures Describes(pat, p, pend, c, equal, v) <==> v == []
    ensures var r := Match(w, s, pat, p, pend, c, equal, partial, false);
      r.Found? && (r.res <==> partial || s == |w|) && r.s == s
  {
    if p < pend {
      assert Match(w, s, pat, p, pend, c, equal, partial, false) == Match(w, s, pat, p + 1, pend, c, equal, partial, true);
    }
  }

  lemma AnythingDescribes<S, C>(pat: seq<C>, p: nat, pend: nat, c: Cards<C>, equal: (S, C) -> bool, v: seq<S>)
    requires p <= pend <= |pat| && ConstructAt(pat, p, pend, c).Anything?
    ensures Describes(pat, p, pend, c, equal, v) <==>
      Describes(pat, p + 1, pend, c, equal, v) || (|v| > 0 && Describes(pat, p, pend, c, equal, v[1..]))
  {
    assert v[0..] == v;
    if Describes(pat, p, pend, c, equal, v) {
      var k :| 0 <= k <= |v| && Describes(pat, p + 1, pend, c, equal, v[k..]);
      if k > 0 { assert v[1..][k - 1..] == v[k..]; }
    }
    if |v| > 0 && Describes(pat, p, pend, c, equal, v[1..]) {
      var k :| 0 <= k <= |v[1..]| && Describes(pat, p + 1, pend, c, equal, v[1..][k..]);
      assert v[1..][k..] == v[k + 1..];
    }
  }

  lemma AnythingMatches<S, C>(w: seq<S>, s: nat, pat: seq<C>, p: nat, pend: nat, c: Cards<C>, equal: (S, C) -> bool,
                              partial: bool)
    requires s <= |w| && p <= pend <= |pat| && ConstructAt(pat, p, pend, c).Anything?
    ensures var r, first := Match(w, s, pat, p, pend, c, equal, partial, false),
                            Match(w, s, pat, p + 1, pend, c, equal, partial, false);
      && (first.Thrown? || first.res ==> r == first)
      && (first.Found? && !first.res ==>
            if s == |w| then r.Found? && !r.res else r == Match(w, s + 1, pat, p, pend, c, equal, partial, false))
  {
  }

  lemma GroupDescribes<S, C>(pat: seq<C>, p: nat, pend: nat, c: Cards<C>, equal: (S, C) -> bool, v: seq<S>)
    requires p <= pend <= |pat| && ConstructAt(pat, p, pend, c).GroupTo?
    ensures var e := ConstructAt(pat, p, pend, c).e;
      Describes(pat, p, pend, c, equal, v) <==>
        exists k :: 0 <= k <= |v| && SomeDescribes(pat, p + 1, e, c, equal, v[..k]) && Describes(pat, e, pend, c, equal, v[k..])
  {
  }

  lemma GroupMatches<S, C>(w: seq<S>, s: nat, pat: seq<C>, p: nat, pend: nat, c: Cards<C>, equal: (S, C) -> bool, partial: bool)
    requires s <= |w| && p <= pend <= |pat| && ConstructAt(pat, p, pend, c).GroupTo?
    ensures var e := ConstructAt(pat, p, pend, c).e;
      Match(w, s, pat, p, pend, c, equal, partial, false)
      == MatchAlt(w, s, pat, p + 1, AlternativeEnd(pat, p + 1, e, c), e, pend, c, equal, partial)
  {
  }

  // ---- soundness ----

  /** What a match consumed is described by the pattern; a match that is not partial consumes everything. */
  lemma {:induction false} Sound<S, C>(w: seq<S>, s: nat, pat: seq<C>, p: nat, pend: nat, c: Cards<C>,
                                       equal: (S, C) -> bool, partial: bool)
    requires s <= |w| && p <= pend <= |pat|
    requires Match(w, s, pat, p, pend, c, equal, partial, false).Found?
    requires Match(w, s, pat, p, pend, c, equal, partial, false).res
    ensures var r := Match(w, s, pat, p, pend, c, equal, partial, false);
      Describes(pat, p, pend, c, equal, w[s..r.s]) && (partial || r.s == |w|)
    decreases pend - p, |w| - s
  {
    hide Describes, Match, MatchAlt, ConstructAt, SomeDescribes, InSet, InGroup, Takes, After;
    var r := Match(w, s, pat, p, pend, c, equal, partial, false);
    var v := w[s..r.s];
    if Ends(pat, p, pend, c) {
      EndDescribes(w, s, pat, p, pend, c, equal, v, partial);
    } else if TakesOne(pat, p, pend, c) {
      MatchesOne(w, s, pat, p, pend, c, equal, partial);
      Sound(w, s + 1, pat, After(pat, p, pend, c), pend, c, equal, partial);
      DescribesOne(pat, p, pend, c, equal, v);
      assert v[1..] == w[s + 1..r.s];
    } else if ConstructAt(pat, p, pend, c).Anything? {
      AnythingMatches(w, s, pat, p, pend, c, equal, partial);
      AnythingDescribes(pat, p, pend, c, equal, v);
      if r == Match(w, s, pat, p + 1, pend, c, equal, partial, false) {
        Sound(w, s, pat, p + 1, pend, c, equal, partial);
      } else {
        Sound(w, s + 1, pat, p, pend, c, equal, partial);
        assert v[1..] == w[s + 1..r.s];
      }
    } else {
      var e := ConstructAt(pat, p, pend, c).e;
      GroupMatches(w, s, pat, p, pend, c, equal, partial);
      var k := SoundAlt(w, s, pat, p + 1, e, pend, c, equal, partial);
      GroupDescribes(pat, p, pend, c, equal, v);
      assert v[..k - s] == w[s..k] && v[k - s..] == w[k..r.s];
    }
  }

  lemma {:induction false} SoundAlt<S, C>(w: seq<S>, s: nat, pat: seq<C>, p1: nat, p2: nat, p2end: nat, c: Cards<C>,
                                          equal: (S, C) -> bool, partial: bool) returns (k: nat)
    requires s <= |w| && p2 <= p2end <= |pat| && InGroup(pat, p1, p2, c)
    requires MatchAlt(w, s, pat, p1, AlternativeEnd(pat, p1, p2, c), p2, p2end, c, equal, partial).Found?
    requires MatchAlt(w, s, pat, p1, AlternativeEnd(pat, p1, p2, c), p2, p2end, c, equal, partial).res
    ensures var r := MatchAlt(w, s, pat, p1, AlternativeEnd(pat, p1, p2, c), p2, p2end, c, equal, partial);
      && s <= k <= r.s && SomeDescribes(pat, p1, p2, c, equal, w[s..k])
      && Describes(pat, p2, p2end, c, equal, w[k..r.s]) && (partial || r.s == |w|)
    decreases p2end - p1, |w| - s
  {
    hide Describes, Match, ConstructAt, InSet, InGroup;
    var p1end := AlternativeEnd(pat, p1, p2, c);
    var result1 := Match(w, s, pat, p1, p1end, c, equal, true, false);
    if result1.res && Match(w, result1.s, pat, p2, p2end, c, equal, partial, false).res {
      Sound(w, s, pat, p1, p1end, c, equal, true);
      k := result1.s;
      Sound(w, k, pat, p2, p2end, c, equal, partial);
    } else {
      k := SoundAlt(w, s, pat, p1end + 1, p2, p2end, c, equal, partial);
    }
  }

  // ---- completeness ----

  /** How many characters every described sequence has, if that is the same for all. */
  datatype Width = Fixed(n: nat) | Varies

  function Plus(a: Width, b: Width): Width {
    if a.Fixed? && b.Fixed? then Fixed(a.n + b.n) else Varies
  }

  function WidthOf<C(==)>(pat: seq<C>, p: nat, pend: nat, c: Cards<C>): Width
    requires p <= pend <= |pat|
    decreases pend - p
  {
    if Ends(pat, p, pend, c) then Fixed(0)
    else if TakesOne(pat, p, pend, c) then Plus(Fixed(1), WidthOf(pat, After(pat, p, pend, c), pend, c))
    else if ConstructAt(pat, p, pend, c).GroupTo? then
      var e := ConstructAt(pat, p, pend, c).e;
      Plus(CommonWidth(pat, p + 1, e, c), WidthOf(pat, e, pend, c))
    else Varies
  }

  function CommonWidth<C(==)>(pat: seq<C>, a: nat, e: nat, c: Cards<C>): Width
    requires InGroup(pat, a, e, c)
    decreases e - a
  {
    var b := AlternativeEnd(pat, a, e, c);
    var first := WidthOf(pat, a, b, c);
    if b + 1 == e || first == CommonWidth(pat, b + 1, e, c) then first else Varies
  }

  /** Every alternative of every group has a fixed width; outside groups anything goes. */
  predicate Rigid<C(==)>(pat: seq<C>, p: nat, pend: nat, c: Cards<C>)
    requires p <= pend <= |pat|
    decreases pend - p
  {
    if Ends(pat, p, pend, c) then true
    else if TakesOne(pat, p, pend, c) then Rigid(pat, After(pat, p, pend, c), pend, c)
    else if ConstructAt(pat, p, pend, c).GroupTo? then
      var e := ConstructAt(pat, p, pend, c).e;
      AllFixed(pat, p + 1, e, c) && Rigid(pat, e, pend, c)
    else Rigid(pat, p + 1, pend, c)
  }

  predicate AllFixed<C(==)>(pat: seq<C>, a: nat, e: nat, c: Cards<C>)
    requires InGroup(pat, a, e, c)
    decreases e - a
  {
    var b := AlternativeEnd(pat, a, e, c);
    WidthOf(pat, a, b, c).Fixed? && (b + 1 == e || AllFixed(pat, b + 1, e, c))
  }

  lemma {:induction false} FixedDescribes<S, C>(pat: seq<C>, p: nat, pend: nat, c: Cards<C>, equal: (S, C) -> bool, v: seq<S>)
    requires p <= pend <= |pat| && WidthOf(pat, p, pend, c).Fixed? && Describes(pat, p, pend, c, equal, v)
    ensures |v| == WidthOf(pat, p, pend, c).n
    decreases pend - p
  {
    hide Describes, ConstructAt, SomeDescribes, InSet, InGroup, Takes, After, CommonWidth;
    if Ends(pat, p, pend, c) {
      EndDescribes([], 0, pat, p, pend, c, equal, v, true);
    } else if TakesOne(pat, p, pend, c) {
      DescribesOne(pat, p, pend, c, equal, v);
      FixedDescribes(pat, After(pat, p, pend, c), pend, c, equal, v[1..]);
    } else {
      var e := ConstructAt(pat, p, pend, c).e;
      GroupDescribes(pat, p, pend, c, equal, v);
      var k :| 0 <= k <= |v| && SomeDescribes(pat, p + 1, e, c, equal, v[..k]) && Describes(pat, e, pend, c, equal, v[k..]);
      CommonDescribes(pat, p + 1, e, c, equal, v[..k]);
      FixedDescribes(pat, e, pend, c, equal, v[k..]);
    }
  }

  lemma {:induction false} CommonDescribes<S, C>(pat: seq<C>, a: nat, e: nat, c: Cards<C>, equal: (S, C) -> bool, v: seq<S>)
    requires InGroup(pat, a, e, c) && CommonWidth(pat, a, e, c).Fixed? && SomeDescribes(pat, a, e, c, equal, v)
    ensures |v| == CommonWidth(pat, a, e, c).n
    decreases e - a
  {
    hide Describes, WidthOf;
    var b := AlternativeEnd(pat, a, e, c);
    if Describes(pat, a, b, c, equal, v) {
      FixedDescribes(pat, a, b, c, equal, v);
    } else {
      CommonDescribes(pat, b + 1, e, c, equal, v);
    }
  }

  lemma {:induction false} FixedIsRigid<C>(pat: seq<C>, p: nat, pend: nat, c: Cards<C>)
    requires p <= pend <= |pat| && WidthOf(pat, p, pend, c).Fixed?
    ensures Rigid(pat, p, pend, c)
    decreases pend - p
  {
    hide ConstructAt, InGroup, After;
    if Ends(pat, p, pend, c) {
    } else if TakesOne(pat, p, pend, c) {
      FixedIsRigid(pat, After(pat, p, pend, c), pend, c);
    } else {
      var e := ConstructAt(pat, p, pend, c).e;
      CommonIsFixed(pat, p + 1, e, c);
      FixedIsRigid(pat, e, pend, c);
    }
  }

  lemma {:induction false} CommonIsFixed<C>(pat: seq<C>, a: nat, e: nat, c: Cards<C>)
    requires InGroup(pat, a, e, c) && CommonWidth(pat, a, e, c).Fixed?
    ensures AllFixed(pat, a, e, c)
    decreases e - a
  {
    var b := AlternativeEnd(pat, a, e, c);
    if b + 1 < e { CommonIsFixed(pat, b + 1, e, c); }
  }

  /** If the pattern describes w from s to k, the matcher finds a match there: a partial one, or a whole one
      when k is the end. */
  lemma {:induction false} Complete<S, C>(w: seq<S>, s: nat, k: nat, pat: seq<C>, p: nat, pend: nat, c: Cards<C>,
                                          equal: (S, C) -> bool, partial: bool)
    requires s <= k <= |w| && p <= pend <= |pat| && Rigid(pat, p, pend, c) && (partial || k == |w|)
    requires Describes(pat, p, pend, c, equal, w[s..k])
    ensures Match(w, s, pat, p, pend, c, equal, partial, false).Found?
    ensures Match(w, s, pat, p, pend, c, equal, partial, false).res
    decreases pend - p, |w| - s
  {
    hide Describes, Match, MatchAlt, ConstructAt, SomeDescribes, InSet, InGroup, Takes, After, AllFixed;
    var v := w[s..k];
    MatchTotal(w, s, pat, p, pend, c, equal, partial, false);
    if Ends(pat, p, pend, c) {
      EndDescribes(w, s, pat, p, pend, c, equal, v, partial);
    } else if TakesOne(pat, p, pend, c) {
      MatchesOne(w, s, pat, p, pend, c, equal, partial);
      DescribesOne(pat, p, pend, c, equal, v);
      assert v[1..] == w[s + 1..k];
      Complete(w, s + 1, k, pat, After(pat, p, pend, c), pend, c, equal, partial);
    } else if ConstructAt(pat, p, pend, c).Anything? {
      AnythingMatches(w, s, pat, p, pend, c, equal, partial);
      AnythingDescribes(pat, p, pend, c, equal, v);
      if Describes(pat, p + 1, pend, c, equal, v) {
        Complete(w, s, k, pat, p + 1, pend, c, equal, partial);
      } else {
        assert v[1..] == w[s + 1..k];
        Complete(w, s + 1, k, pat, p, pend, c, equal, partial);
        MatchTotal(w, s, pat, p + 1, pend, c, equal, partial, false);
      }
    } else {
      var e := ConstructAt(pat, p, pend, c).e;
      GroupMatches(w, s, pat, p, pend, c, equal, partial);
      GroupDescribes(pat, p, pend, c, equal, v);
      var j :| 0 <= j <= |v| && SomeDescribes(pat, p + 1, e, c, equal, v[..j]) && Describes(pat, e, pend, c, equal, v[j..]);
      assert v[..j] == w[s..s + j] && v[j..] == w[s + j..k];
      CompleteAlt(w, s, s + j, k, pat, p + 1, e, pend, c, equal, partial);
    }
  }

  lemma {:induction false} CompleteAlt<S, C>(w: seq<S>, s: nat, j: nat, k: nat, pat: seq<C>, p1: nat, p2: nat, p2end: nat,
                                             c: Cards<C>, equal: (S, C) -> bool, partial: bool)
    requires s <= j <= k <= |w| && p2 <= p2end <= |pat| && InGroup(pat, p1, p2, c) && (partial || k == |w|)
    requires AllFixed(pat, p1, p2, c) && Rigid(pat, p2, p2end, c)
    requires SomeDescribes(pat, p1, p2, c, equal, w[s..j]) && Describes(pat, p2, p2end, c, equal, w[j..k])
    ensures MatchAlt(w, s, pat, p1, AlternativeEnd(pat, p1, p2, c), p2, p2end, c, equal, partial).Found?
    ensures MatchAlt(w, s, pat, p1, AlternativeEnd(pat, p1, p2, c), p2, p2end, c, equal, partial).res
    decreases p2end - p1, |w| - s
  {
    hide Describes, Match, ConstructAt, InSet, InGroup, WidthOf, Rigid;
    var p1end := AlternativeEnd(pat, p1, p2, c);
    MatchAltTotal(w, s, pat, p1, p2, p2end, c, equal, partial);
    if Describes(pat, p1, p1end, c, equal, w[s..j]) {
      FixedIsRigid(pat, p1, p1end, c);
      Complete(w, s, j, pat, p1, p1end, c, equal, true);
      Sound(w, s, pat, p1, p1end, c, equal, true);
      var r := Match(w, s, pat, p1, p1end, c, equal, true, false).s;
      FixedDescribes(pat, p1, p1end, c, equal, w[s..j]);
      FixedDescribes(pat, p1, p1end, c, equal, w[s..r]);
      Complete(w, j, k, pat, p2, p2end, c, equal, partial);
    } else {
      CompleteAlt(w, s, j, k, pat, p1end + 1, p2, p2end, c, equal, partial);
    }
  }

  // ---- whole patterns ----

  /** The library's match of a whole sequence against a whole pattern. */
  function Matches<S, C(==)>(w: seq<S>, pat: seq<C>, c: Cards<C>, equal: (S, C) -> bool): MatchResult {
    Match(w, 0, pat, 0, |pat|, c, equal, false, false)
  }

  /** A match means the pattern describes the sequence; for rigid patterns a match is found exactly then. */
  lemma MatchMeaning<S, C>(w: seq<S>, pat: seq<C>, c: Cards<C>, equal: (S, C) -> bool)
    ensures Matches(w, pat, c, equal).Found?
    ensures Matches(w, pat, c, equal).res ==> Describes(pat, 0, |pat|, c, equal, w)
    ensures Rigid(pat, 0, |pat|, c) ==> (Matches(w, pat, c, equal).res <==> Describes(pat, 0, |pat|, c, equal, w))
  {
    MatchTotal(w, 0, pat, 0, |pat|, c, equal, false, false);
    assert w[0..|w|] == w;
    if Matches(w, pat, c, equal).res {
      Sound(w, 0, pat, 0, |pat|, c, equal, false);
    } else if Rigid(pat, 0, |pat|, c) && Describes(pat, 0, |pat|, c, equal, w) {
      Complete(w, 0, |w|, pat, 0, |pat|, c, equal, false);
    }
  }

  /** No group is recognised anywhere from p on. */
  predicate NoGroups<C(==)>(pat: seq<C>, p: nat, pend: nat, c: Cards<C>)
    requires p <= pend <= |pat|
  {
    forall q :: p <= q < pend ==> !GroupAt(pat, q, pend, c)
  }

  /** Patterns without groups are rigid, so for them matching is exact. */
  lemma {:induction false} NoGroupsIsRigid<C>(pat: seq<C>, p: nat, pend: nat, c: Cards<C>)
    requires p <= pend <= |pat| && NoGroups(pat, p, pend, c)
    ensures Rigid(pat, p, pend, c)
    decreases pend - p
  {
    if Ends(pat, p, pend, c) {
    } else if TakesOne(pat, p, pend, c) {
      NoGroupsIsRigid(pat, After(pat, p, pend, c), pend, c);
    } else {
      NoGroupsIsRigid(pat, p + 1, pend, c);
    }
  }

  // ---- a group that commits too early ----

  function StandardCards(): Cards<char> {
    Cards('*', '?', '\\', true, '[', ']', '!', true, '(', ')', '|')
  }

  predicate SameChar(x: char, y: char) {
    x == y
  }

  lemma ExampleGroup()
    ensures InGroup("(a*)b", 1, 4, StandardCards()) && AlternativeEnd("(a*)b", 1, 4, StandardCards()) == 3
    ensures ConstructAt("(a*)b", 0, 5, StandardCards()) == GroupTo(4)
  {
    var pat, c := "(a*)b", StandardCards();
    assert AltEnd(pat, 3, 5, c, AltNext, 1) == At(4);
    assert AltEnd(pat, 2, 5, c, AltNext, 1) == At(4);
    assert AltEnd(pat, 1, 5, c, AltNext, 1) == At(4);
    AltUnderShorterEnd(pat, 1, 4, 5, c, AltNext, 1);
    assert AltSubEnd(pat, 3, 4, c, AltNext, 1) == At(3);
    assert AltSubEnd(pat, 2, 4, c, AltNext, 1) == At(3);
  }

  lemma ExampleConstructs()
    ensures var pat, c := "(a*)b", StandardCards();
      && ConstructAt(pat, 1, 3, c) == Literal && ConstructAt(pat, 2, 3, c) == Anything
      && ConstructAt(pat, 3, 3, c) == End && ConstructAt(pat, 4, 5, c) == Literal && ConstructAt(pat, 5, 5, c) == End
  {
  }

  lemma ExampleAlternative(w: seq<char>)
    requires w == "aab"
    ensures var pat, c := "(a*)b", StandardCards();
      && Describes(pat, 1, 3, c, SameChar, "aa")
      && Match(w, 0, pat, 1, 3, c, SameChar, true, false) == Found(true, 1, 3)
  {
    hide Describes, ConstructAt;
    var pat, c := "(a*)b", StandardCards();
    ExampleConstructs();
    EndDescribes(w, 1, pat, 3, 3, c, SameChar, [], true);
    AnythingDescribes(pat, 2, 3, c, SameChar, []);
    assert "a"[1..] == [];
    AnythingDescribes(pat, 2, 3, c, SameChar, "a");
    assert "aa"[1..] == "a";
    DescribesOne(pat, 1, 3, c, SameChar, "aa");
    assert Match(w, 1, pat, 3, 3, c, SameChar, true, false) == Found(true, 1, 3);
    AnythingMatches(w, 1, pat, 2, 3, c, SameChar, true);
    MatchesOne(w, 0, pat, 1, 3, c, SameChar, true);
  }

  lemma ExampleRest(w: seq<char>)
    requires w == "aab"
    ensures var pat, c := "(a*)b", StandardCards();
      && Describes(pat, 4, 5, c, SameChar, "b")
      && Match(w, 1, pat, 4, 5, c, SameChar, false, false) == Found(false, 1, 4)
  {
    hide Describes, ConstructAt;
    var pat, c := "(a*)b", StandardCards();
    ExampleConstructs();
    EndDescribes(w, 1, pat, 5, 5, c, SameChar, [], true);
    assert "b"[1..] == [];
    DescribesOne(pat, 4, 5, c, SameChar, "b");
  }

  /** "(a*)b" describes "aab", but the group commits to its shortest match "a" and the match fails. */
  lemma CommitsTooEarly()
    ensures var pat, c := "(a*)b", StandardCards();
      && Describes(pat, 0, 5, c, SameChar, "aab") && Matches("aab", pat, c, SameChar) == Found(false, 0, 3)
      && !Rigid(pat, 0, 5, c)
  {
    hide Describes, ConstructAt, Match, InGroup, Rigid;
    var pat, c, w := "(a*)b", StandardCards(), "aab";
    ExampleGroup();
    ExampleConstructs();
    ExampleAlternative(w);
    ExampleRest(w);
    assert w[..2] == "aa" && w[2..] == "b";
    assert SomeDescribes(pat, 1, 4, c, SameChar, w[..2]);
    GroupDescribes(pat, 0, 5, c, SameChar, w);
    assert MatchAlt(w, 0, pat, 1, 3, 4, 5, c, SameChar, false) == Found(false, 0, 3);
    GroupMatches(w, 0, pat, 0, 5, c, SameChar, false);
    if Rigid(pat, 0, 5, c) {
      assert w[0..3] == w;
      Complete(w, 0, 3, pat, 0, 5, c, SameChar, false);
    }
  }
}
