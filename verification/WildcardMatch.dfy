/** Matching a sequence against a wildcard pattern by backtracking, and what a match means. */
module WildcardMatch {
  import opened WildcardSyntax

  /** Whether a match was found, and the positions reached in the sequence and the pattern. */
  datatype MatchResult = Found(res: bool, s: nat, p: nat) | Thrown

  datatype MatchSetState = MatchSetStart | NotOrFirstIn | FirstOut | NextIn | NextOut

  function MatchSet<S, C(==)>(w: seq<S>, s: nat, pat: seq<C>, p: nat, pend: nat, c: Cards<C>,
                              equal: (S, C) -> bool, state: MatchSetState): (r: MatchResult)
    requires s <= |w| && p <= pend <= |pat|
    ensures r.Found? ==> r.s == s && p <= r.p < pend
    ensures r.Found? && r.res ==> s < |w| || state == NextOut
    decreases pend - p
  {
    if !c.setEnabled || p == pend then Thrown
    else
      match state
      case MatchSetStart =>
        if pat[p] == c.setOpen then MatchSet(w, s, pat, p + 1, pend, c, equal, NotOrFirstIn) else Thrown
      case NotOrFirstIn =>
        if pat[p] == c.setNot then MatchSet(w, s, pat, p + 1, pend, c, equal, FirstOut)
        else if s == |w| then Found(false, s, p)
        else if equal(w[s], pat[p]) then Found(true, s, p)
        else MatchSet(w, s, pat, p + 1, pend, c, equal, NextIn)
      case FirstOut =>
        if s == |w| || equal(w[s], pat[p]) then Found(false, s, p)
        else MatchSet(w, s, pat, p + 1, pend, c, equal, NextOut)
      case NextIn =>
        if pat[p] == c.setClose || s == |w| then Found(false, s, p)
        else if equal(w[s], pat[p]) then Found(true, s, p)
        else MatchSet(w, s, pat, p + 1, pend, c, equal, NextIn)
      case NextOut =>
        if pat[p] == c.setClose then Found(true, s, p)
        else if s == |w| || equal(w[s], pat[p]) then Found(false, s, p)
        else MatchSet(w, s, pat, p + 1, pend, c, equal, NextOut)
  }

  method MatchSetLoop<S, C(==)>(w: seq<S>, s: nat, pat: seq<C>, p0: nat, pend: nat, c: Cards<C>,
                                equal: (S, C) -> bool, state0: MatchSetState) returns (r: MatchResult)
    requires s <= |w| && p0 <= pend <= |pat|
    ensures r == MatchSet(w, s, pat, p0, pend, c, equal, state0)
  {
    if !c.setEnabled { return Thrown; }
    var p, state := p0, state0;
    while p != pend
      invariant p0 <= p <= pend
      invariant MatchSet(w, s, pat, p, pend, c, equal, state) == MatchSet(w, s, pat, p0, pend, c, equal, state0)
      decreases pend - p
    {
      match state {
        case MatchSetStart =>
          if pat[p] != c.setOpen { return Thrown; }
          state := NotOrFirstIn;
        case NotOrFirstIn =>
          if pat[p] == c.setNot {
            state := FirstOut;
          } else {
            if s == |w| { return Found(false, s, p); }
            if equal(w[s], pat[p]) { return Found(true, s, p); }
            state := NextIn;
          }
        case FirstOut =>
          if s == |w| || equal(w[s], pat[p]) { return Found(false, s, p); }
          state := NextOut;
        case NextIn =>
          if pat[p] == c.setClose || s == |w| { return Found(false, s, p); }
          if equal(w[s], pat[p]) { return Found(true, s, p); }
        case NextOut =>
          if pat[p] == c.setClose { return Found(true, s, p); }
          if s == |w| || equal(w[s], pat[p]) { return Found(false, s, p); }
      }
      p := p + 1;
    }
    r := Thrown;
  }

  /** The matcher.  A partial match may stop anywhere in the sequence; `escape` takes the next pattern
      character literally. */
  function Match<S, C(==)>(w: seq<S>, s: nat, pat: seq<C>, p: nat, pend: nat, c: Cards<C>,
                           equal: (S, C) -> bool, partial: bool, escape: bool): (r: MatchResult)
    requires s <= |w| && p <= pend <= |pat|
    ensures r.Found? ==> s <= r.s <= |w|
    decreases pend - p, |w| - s
  {
    if p == pend then Found(partial || s == |w|, s, p)
    else if escape then MatchOne(w, s, pat, p, pend, c, equal, partial)
    else if pat[p] == c.anything then
      var result := Match(w, s, pat, p + 1, pend, c, equal, partial, false);
      if result.Thrown? || result.res then result
      else if s == |w| then Found(false, s, p)
      else Match(w, s + 1, pat, p, pend, c, equal, partial, false)
    else if pat[p] == c.single then
      if s == |w| then Found(false, s, p) else Match(w, s + 1, pat, p + 1, pend, c, equal, partial, false)
    else if pat[p] == c.escape then Match(w, s, pat, p + 1, pend, c, equal, partial, true)
    else if SetAt(pat, p, pend, c) then
      var result := MatchSet(w, s, pat, p + 1, pend, c, equal, NotOrFirstIn);
      if result.Thrown? || !result.res then result
      else
        var e := SetEnd(pat, p + 1, pend, c, NotOrFirst);
        Match(w, s + 1, pat, e.pos, pend, c, equal, partial, false)
    else if GroupAt(pat, p, pend, c) then
      var e := AltEnd(pat, p + 1, pend, c, AltNext, 1).pos;
      var sub := AltSubEnd(pat, p + 1, e, c, AltNext, 1);
      if sub.Throws? then Thrown else MatchAlt(w, s, pat, p + 1, sub.pos, e, pend, c, equal, partial)
    else MatchOne(w, s, pat, p, pend, c, equal, partial)
  }

  /** One literal character, then the rest. */
  function MatchOne<S, C(==)>(w: seq<S>, s: nat, pat: seq<C>, p: nat, pend: nat, c: Cards<C>,
                              equal: (S, C) -> bool, partial: bool): (r: MatchResult)
    requires s <= |w| && p < pend <= |pat|
    ensures r.Found? ==> s <= r.s <= |w|
    decreases pend - p, |w| - s, 0
  {
    if s == |w| || !equal(w[s], pat[p]) then Found(false, s, p)
    else Match(w, s + 1, pat, p + 1, pend, c, equal, partial, false)
  }

  /** Tries the alternative [p1, p1end) as a partial match and the rest [p2, p2end) after it, then the
      alternatives that follow. */
  function MatchAlt<S, C(==)>(w: seq<S>, s: nat, pat: seq<C>, p1: nat, p1end: nat, p2: nat, p2end: nat, c: Cards<C>,
                              equal: (S, C) -> bool, partial: bool): (r: MatchResult)
    requires s <= |w| && p1 <= p1end < p2 <= p2end <= |pat|
    ensures r.Found? ==> s <= r.s <= |w|
    decreases p2end - p1, |w| - s
  {
    var result1 := Match(w, s, pat, p1, p1end, c, equal, true, false);
    if result1.Thrown? then Thrown
    else
      var result2 := if result1.res then Match(w, result1.s, pat, p2, p2end, c, equal, partial, false) else result1;
      if result2.Thrown? || result2.res then result2
      else if p1end + 1 == p2 then Found(false, s, p1end)
      else
        var sub := AltSubEnd(pat, p1end + 1, p2, c, AltNext, 1);
        if sub.Throws? then Thrown else MatchAlt(w, s, pat, p1end + 1, sub.pos, p2, p2end, c, equal, partial)
  }

  /** A group that opens at p is recognised under pend. */
  function GroupAt<C(==)>(pat: seq<C>, p: nat, pend: nat, c: Cards<C>): bool
    requires p < pend <= |pat|
  {
    c.altEnabled && pat[p] == c.altOpen && IsAlt(pat, p + 1, pend, c, AltNext, 1)
  }

  // ---- totality ----

  /** v equals one of the pattern's characters from a up to b. */
  ghost predicate EqualsSome<S, C>(v: S, pat: seq<C>, a: nat, b: int, equal: (S, C) -> bool)
    requires b <= |pat|
  {
    exists k :: a <= k < b && equal(v, pat[k])
  }

  lemma EqualsFirst<S, C>(v: S, pat: seq<C>, a: nat, b: int, equal: (S, C) -> bool)
    requires a < b <= |pat|
    ensures EqualsSome(v, pat, a, b, equal) <==> equal(v, pat[a]) || EqualsSome(v, pat, a + 1, b, equal)
  {
  }

  /** v equals a member of the set whose text starts at p, or, after a leading "not", none. */
  ghost predicate InSet<S, C>(v: S, pat: seq<C>, p: nat, pend: nat, c: Cards<C>, equal: (S, C) -> bool)
    requires p < pend <= |pat| && IsSet(pat, p, pend, c, NotOrFirst)
  {
    EqualsSome(v, pat, Members(pat, p, c), SetEnd(pat, p, pend, c, NotOrFirst).pos - 1, equal) <==> pat[p] != c.setNot
  }

  lemma {:induction false} NextMeaning<S, C>(w: seq<S>, s: nat, pat: seq<C>, p: nat, pend: nat, c: Cards<C>,
                                             equal: (S, C) -> bool)
    requires s < |w| && p <= pend <= |pat| && IsSet(pat, p, pend, c, Next)
    ensures var some := EqualsSome(w[s], pat, p, SetEnd(pat, p, pend, c, Next).pos - 1, equal);
      && MatchSet(w, s, pat, p, pend, c, equal, NextIn).Found?
      && MatchSet(w, s, pat, p, pend, c, equal, NextOut).Found?
      && (MatchSet(w, s, pat, p, pend, c, equal, NextIn).res <==> some)
      && (MatchSet(w, s, pat, p, pend, c, equal, NextOut).res <==> !some)
    decreases pend - p
  {
    if pat[p] != c.setClose {
      NextMeaning(w, s, pat, p + 1, pend, c, equal);
      EqualsFirst(w[s], pat, p, SetEnd(pat, p, pend, c, Next).pos - 1, equal);
    }
  }

  /** A recognised set is matched without an exception, by exactly the characters in the set. */
  lemma MatchSetMeaning<S, C>(w: seq<S>, s: nat, pat: seq<C>, p: nat, pend: nat, c: Cards<C>, equal: (S, C) -> bool)
    requires s <= |w| && p < pend <= |pat| && IsSet(pat, p, pend, c, NotOrFirst)
    ensures var r := MatchSet(w, s, pat, p, pend, c, equal, NotOrFirstIn);
      r.Found? && (r.res <==> s < |w| && InSet(w[s], pat, p, pend, c, equal))
  {
    var m := Members(pat, p, c);
    var e := SetEnd(pat, p, pend, c, NotOrFirst).pos;
    if m > p {
      assert SetEnd(pat, p, pend, c, NotOrFirst) == SetEnd(pat, m, pend, c, First);
    }
    assert IsSet(pat, m + 1, pend, c, Next) && SetEnd(pat, m + 1, pend, c, Next).pos == e;
    if s < |w| {
      NextMeaning(w, s, pat, m + 1, pend, c, equal);
      EqualsFirst(w[s], pat, m, e - 1, equal);
    }
  }

  /** No exception is thrown, whatever the pattern, the sequence and the special characters. */
  lemma {:induction false} MatchTotal<S, C>(w: seq<S>, s: nat, pat: seq<C>, p: nat, pend: nat, c: Cards<C>,
                                            equal: (S, C) -> bool, partial: bool, escape: bool)
    requires s <= |w| && p <= pend <= |pat|
    ensures Match(w, s, pat, p, pend, c, equal, partial, escape).Found?
    decreases pend - p, |w| - s
  {
    if p == pend {
      return;
    }
    if s < |w| {
      MatchTotal(w, s + 1, pat, p + 1, pend, c, equal, partial, false);
    }
    if escape {
    } else if pat[p] == c.anything {
      MatchTotal(w, s, pat, p + 1, pend, c, equal, partial, false);
      if s < |w| { MatchTotal(w, s + 1, pat, p, pend, c, equal, partial, false); }
    } else if pat[p] == c.single {
    } else if pat[p] == c.escape {
      MatchTotal(w, s, pat, p + 1, pend, c, equal, partial, true);
    } else if SetAt(pat, p, pend, c) {
      MatchSetMeaning(w, s, pat, p + 1, pend, c, equal);
      if s < |w| {
        MatchTotal(w, s + 1, pat, SetEnd(pat, p + 1, pend, c, NotOrFirst).pos, pend, c, equal, partial, false);
      }
    } else if GroupAt(pat, p, pend, c) {
      var e := AltEnd(pat, p + 1, pend, c, AltNext, 1).pos;
      AltUnderShorterEnd(pat, p + 1, e, pend, c, AltNext, 1);
      SubEndFound(pat, p + 1, e, c, AltNext, 1);
      MatchAltTotal(w, s, pat, p + 1, e, pend, c, equal, partial);
    }
  }

  lemma {:induction false} MatchAltTotal<S, C>(w: seq<S>, s: nat, pat: seq<C>, p1: nat, p2: nat, p2end: nat, c: Cards<C>,
                                               equal: (S, C) -> bool, partial: bool)
    requires s <= |w| && p1 < p2 <= p2end <= |pat| && InGroup(pat, p1, p2, c)
    ensures var sub := AltSubEnd(pat, p1, p2, c, AltNext, 1);
      sub.At? && MatchAlt(w, s, pat, p1, sub.pos, p2, p2end, c, equal, partial).Found?
    decreases p2end - p1, |w| - s
  {
    SubEndFound(pat, p1, p2, c, AltNext, 1);
    var p1end := AltSubEnd(pat, p1, p2, c, AltNext, 1).pos;
    MatchTotal(w, s, pat, p1, p1end, c, equal, true, false);
    var result1 := Match(w, s, pat, p1, p1end, c, equal, true, false);
    if result1.res {
      MatchTotal(w, result1.s, pat, p2, p2end, c, equal, partial, false);
    }
    if p1end + 1 < p2 {
      MatchAltTotal(w, s, pat, p1end + 1, p2, p2end, c, equal, partial);
    }
  }
}
