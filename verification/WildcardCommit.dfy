/** What matching means when alternatives have any lengths: each alternative is tried at the shortest prefix it
    describes and at no other.  For groups without groups inside, that is exactly what the matcher accepts. */
module WildcardCommit {
  import opened WildcardLanguage
  import opened WildcardMatch
  import opened WildcardSyntax

  /** The first k characters of v are the fewest that the pattern describes. */
  ghost predicate Shortest<S, C>(pat: seq<C>, p: nat, pend: nat, c: Cards<C>, equal: (S, C) -> bool, v: seq<S>, k: nat)
    requires p <= pend <= |pat|
  {
    && k <= |v| && Describes(pat, p, pend, c, equal, v[..k])
    && forall i :: 0 <= i < k ==> !Describes(pat, p, pend, c, equal, v[..i])
  }

  /** The pattern describes v when every alternative takes only its shortest prefix. */
  ghost predicate Commits<S, C>(pat: seq<C>, p: nat, pend: nat, c: Cards<C>, equal: (S, C) -> bool, v: seq<S>)
    requires p <= pend <= |pat|
    decreases pend - p, |v|
  {
    if Ends(pat, p, pend, c) then v == []
    else if TakesOne(pat, p, pend, c) then
      && |v| > 0 && Takes(pat, p, pend, c, equal, v[0])
      && Commits(pat, After(pat, p, pend, c), pend, c, equal, v[1..])
    else if ConstructAt(pat, p, pend, c).Anything? then
      Commits(pat, p + 1, pend, c, equal, v) || (|v| > 0 && Commits(pat, p, pend, c, equal, v[1..]))
    else
      var e := ConstructAt(pat, p, pend, c).e;
      SomeCommits(pat, p + 1, e, pend, c, equal, v)
  }

  /** One of the alternatives from a on takes its shortest prefix of v, and the pattern after the group the rest. */
  ghost predicate SomeCommits<S, C>(pat: seq<C>, a: nat, e: nat, pend: nat, c: Cards<C>, equal: (S, C) -> bool, v: seq<S>)
    requires InGroup(pat, a, e, c) && e <= pend <= |pat|
    decreases pend - a, |v|
  {
    var b := AlternativeEnd(pat, a, e, c);
    || (exists k :: 0 <= k <= |v| && Shortest(pat, a, b, c, equal, v, k) && Commits(pat, e, pend, c, equal, v[k..]))
    || (b + 1 < e && SomeCommits(pat, b + 1, e, pend, c, equal, v))
  }

  // ---- where a partial match stops ----

  /** What a pattern without groups describes from a later start ends no earlier than what it describes from
      an earlier one. */
  lemma {:induction false} EarlierStart<S, C>(pat: seq<C>, p: nat, pend: nat, c: Cards<C>, equal: (S, C) -> bool, w: seq<S>,
                                              s: nat, m: nat, t: nat, k: nat) returns (n: nat)
    requires p <= pend <= |pat| && NoGroups(pat, p, pend, c) && s <= m <= |w| && s <= t <= k <= |w|
    requires Describes(pat, p, pend, c, equal, w[s..m]) && Describes(pat, p, pend, c, equal, w[t..k])
    ensures s <= n <= k && Describes(pat, p, pend, c, equal, w[s..n])
    decreases pend - p
  {
    hide Describes, ConstructAt, Takes, After;
    if Ends(pat, p, pend, c) {
      EndDescribes(w, s, pat, p, pend, c, equal, w[s..m], true);
      n := m;
    } else if TakesOne(pat, p, pend, c) {
      DescribesOne(pat, p, pend, c, equal, w[s..m]);
      DescribesOne(pat, p, pend, c, equal, w[t..k]);
      assert w[s..m][1..] == w[s + 1..m] && w[t..k][1..] == w[t + 1..k];
      n := EarlierStart(pat, After(pat, p, pend, c), pend, c, equal, w, s + 1, m, t + 1, k);
      DescribesOne(pat, p, pend, c, equal, w[s..n]);
      assert w[s..n][1..] == w[s + 1..n] && w[s..n][0] == w[s..m][0];
    } else {
      n := k;
      NoGroupHere(pat, p, pend, c);
      LongerStar(pat, p, pend, c, equal, w, s, t, k);
    }
  }

  /** A leading "anything" takes what lies before. */
  lemma {:induction false} LongerStar<S, C>(pat: seq<C>, p: nat, pend: nat, c: Cards<C>, equal: (S, C) -> bool, w: seq<S>,
                                            s: nat, t: nat, k: nat)
    requires p <= pend <= |pat| && ConstructAt(pat, p, pend, c).Anything? && s <= t <= k <= |w|
    requires Describes(pat, p, pend, c, equal, w[t..k])
    ensures Describes(pat, p, pend, c, equal, w[s..k])
    decreases t - s
  {
    hide Describes, ConstructAt;
    if s < t {
      LongerStar(pat, p, pend, c, equal, w, s + 1, t, k);
      AnythingDescribes(pat, p, pend, c, equal, w[s..k]);
      assert w[s..k][1..] == w[s + 1..k];
    }
  }

  /** "Anything" and then the rest: the rest starts somewhere. */
  lemma {:induction false} StarEnds<S, C>(pat: seq<C>, p: nat, pend: nat, c: Cards<C>, equal: (S, C) -> bool, w: seq<S>,
                                          s: nat, k: nat) returns (t: nat)
    requires p <= pend <= |pat| && ConstructAt(pat, p, pend, c).Anything? && s <= k <= |w|
    requires Describes(pat, p, pend, c, equal, w[s..k])
    ensures s <= t <= k && Describes(pat, p + 1, pend, c, equal, w[t..k])
    decreases k - s
  {
    hide Describes, ConstructAt;
    AnythingDescribes(pat, p, pend, c, equal, w[s..k]);
    if Describes(pat, p + 1, pend, c, equal, w[s..k]) {
      t := s;
    } else {
      assert w[s..k][1..] == w[s + 1..k];
      t := StarEnds(pat, p, pend, c, equal, w, s + 1, k);
    }
  }

  /** A partial match for a pattern without groups stops no later than any stretch the pattern describes. */
  lemma {:induction false} StopsFirst<S, C>(w: seq<S>, s: nat, k: nat, pat: seq<C>, p: nat, pend: nat, c: Cards<C>,
                                            equal: (S, C) -> bool)
    requires s <= k <= |w| && p <= pend <= |pat| && NoGroups(pat, p, pend, c)
    requires Describes(pat, p, pend, c, equal, w[s..k])
    ensures var r := Match(w, s, pat, p, pend, c, equal, true, false);
      r.Found? && r.res && r.s <= k
    decreases pend - p, k - s
  {
    hide Describes, Match, ConstructAt, Takes, After;
    NoGroupsIsRigid(pat, p, pend, c);
    Complete(w, s, k, pat, p, pend, c, equal, true);
    if Ends(pat, p, pend, c) {
      EndDescribes(w, s, pat, p, pend, c, equal, w[s..k], true);
    } else if TakesOne(pat, p, pend, c) {
      MatchesOne(w, s, pat, p, pend, c, equal, true);
      DescribesOne(pat, p, pend, c, equal, w[s..k]);
      assert w[s..k][1..] == w[s + 1..k];
      StopsFirst(w, s + 1, k, pat, After(pat, p, pend, c), pend, c, equal);
    } else {
      NoGroupHere(pat, p, pend, c);
      AnythingMatches(w, s, pat, p, pend, c, equal, true);
      MatchTotal(w, s, pat, p + 1, pend, c, equal, true, false);
      var first := Match(w, s, pat, p + 1, pend, c, equal, true, false);
      assert NoGroups(pat, p + 1, pend, c);
      if first.res {
        var t := StarEnds(pat, p, pend, c, equal, w, s, k);
        Sound(w, s, pat, p + 1, pend, c, equal, true);
        var n := EarlierStart(pat, p + 1, pend, c, equal, w, s, first.s, t, k);
        StopsFirst(w, s, n, pat, p + 1, pend, c, equal);
      } else {
        if Describes(pat, p + 1, pend, c, equal, w[s..k]) { StopsFirst(w, s, k, pat, p + 1, pend, c, equal); }
        AnythingDescribes(pat, p, pend, c, equal, w[s..k]);
        assert w[s..k][1..] == w[s + 1..k];
        StopsFirst(w, s + 1, k, pat, p, pend, c, equal);
      }
    }
  }

  lemma NoGroupHere<C>(pat: seq<C>, p: nat, pend: nat, c: Cards<C>)
    requires p <= pend <= |pat| && NoGroups(pat, p, pend, c) && !Ends(pat, p, pend, c) && !TakesOne(pat, p, pend, c)
    ensures ConstructAt(pat, p, pend, c).Anything?
  {
  }

  /** So it stops at the shortest prefix described, if there is one. */
  lemma StopsAtShortest<S, C>(w: seq<S>, s: nat, pat: seq<C>, p: nat, pend: nat, c: Cards<C>, equal: (S, C) -> bool, k: nat)
    requires s <= |w| && p <= pend <= |pat| && NoGroups(pat, p, pend, c)
    ensures var r := Match(w, s, pat, p, pend, c, equal, true, false);
      r.Found? && (Shortest(pat, p, pend, c, equal, w[s..], k) <==> r.res && r.s == s + k)
  {
    hide Describes, Match, NoGroups;
    MatchTotal(w, s, pat, p, pend, c, equal, true, false);
    var r := Match(w, s, pat, p, pend, c, equal, true, false);
    var v := w[s..];
    if r.res {
      Sound(w, s, pat, p, pend, c, equal, true);
      var m := r.s - s;
      assert v[..m] == w[s..r.s];
      forall i | 0 <= i < m
        ensures !Describes(pat, p, pend, c, equal, v[..i])
      {
        assert v[..i] == w[s..s + i];
        if Describes(pat, p, pend, c, equal, v[..i]) { StopsFirst(w, s, s + i, pat, p, pend, c, equal); }
      }
    } else if k <= |v| && Describes(pat, p, pend, c, equal, v[..k]) {
      assert v[..k] == w[s..s + k];
      StopsFirst(w, s, s + k, pat, p, pend, c, equal);
    }
  }

  // ---- whole matches ----

  /** Groups may follow one another, but none lies inside another's alternatives. */
  predicate Unnested<C(==)>(pat: seq<C>, p: nat, pend: nat, c: Cards<C>)
    requires p <= pend <= |pat|
    decreases pend - p
  {
    if Ends(pat, p, pend, c) then true
    else if TakesOne(pat, p, pend, c) then Unnested(pat, After(pat, p, pend, c), pend, c)
    else if ConstructAt(pat, p, pend, c).GroupTo? then
      var e := ConstructAt(pat, p, pend, c).e;
      AllPlain(pat, p + 1, e, c) && Unnested(pat, e, pend, c)
    else Unnested(pat, p + 1, pend, c)
  }

  predicate AllPlain<C(==)>(pat: seq<C>, a: nat, e: nat, c: Cards<C>)
    requires InGroup(pat, a, e, c)
    decreases e - a
  {
    var b := AlternativeEnd(pat, a, e, c);
    NoGroups(pat, a, b, c) && (b + 1 == e || AllPlain(pat, b + 1, e, c))
  }

  /** A match of the whole rest is found exactly when the pattern describes it with every alternative taking
      its shortest prefix. */
  lemma {:induction false} Exact<S, C>(w: seq<S>, s: nat, pat: seq<C>, p: nat, pend: nat, c: Cards<C>, equal: (S, C) -> bool)
    requires s <= |w| && p <= pend <= |pat| && Unnested(pat, p, pend, c)
    ensures var r := Match(w, s, pat, p, pend, c, equal, false, false);
      r.Found? && (r.res <==> Commits(pat, p, pend, c, equal, w[s..]))
    decreases pend - p, |w| - s
  {
    hide Match, MatchAlt, ConstructAt, Takes, After, InGroup, AllPlain, SomeCommits;
    MatchTotal(w, s, pat, p, pend, c, equal, false, false);
    if s < |w| { assert w[s..][1..] == w[s + 1..]; }
    if Ends(pat, p, pend, c) {
      EndDescribes(w, s, pat, p, pend, c, equal, w[s..], false);
    } else if TakesOne(pat, p, pend, c) {
      MatchesOne(w, s, pat, p, pend, c, equal, false);
      if s < |w| { Exact(w, s + 1, pat, After(pat, p, pend, c), pend, c, equal); }
    } else if ConstructAt(pat, p, pend, c).Anything? {
      AnythingMatches(w, s, pat, p, pend, c, equal, false);
      Exact(w, s, pat, p + 1, pend, c, equal);
      if s < |w| { Exact(w, s + 1, pat, p, pend, c, equal); }
    } else {
      var e := ConstructAt(pat, p, pend, c).e;
      GroupMatches(w, s, pat, p, pend, c, equal, false);
      ExactAlt(w, s, pat, p + 1, e, pend, c, equal);
    }
  }

  lemma {:induction false} ExactAlt<S, C>(w: seq<S>, s: nat, pat: seq<C>, a: nat, e: nat, pend: nat, c: Cards<C>,
                                          equal: (S, C) -> bool)
    requires s <= |w| && e <= pend <= |pat| && InGroup(pat, a, e, c) && AllPlain(pat, a, e, c) && Unnested(pat, e, pend, c)
    ensures var r := MatchAlt(w, s, pat, a, AlternativeEnd(pat, a, e, c), e, pend, c, equal, false);
      r.Found? && (r.res <==> SomeCommits(pat, a, e, pend, c, equal, w[s..]))
    decreases pend - a, |w| - s
  {
    hide Match, ConstructAt, InGroup, Shortest, Commits, Unnested;
    var b := AlternativeEnd(pat, a, e, c);
    var r, v := Match(w, s, pat, a, b, c, equal, true, false), w[s..];
    MatchAltTotal(w, s, pat, a, e, pend, c, equal, false);
    forall k: nat
      ensures r.Found? && (Shortest(pat, a, b, c, equal, v, k) <==> r.res && r.s == s + k)
    {
      StopsAtShortest(w, s, pat, a, b, c, equal, k);
    }
    if r.res {
      Exact(w, r.s, pat, e, pend, c, equal);
      assert v[r.s - s..] == w[r.s..];
    }
    if b + 1 < e { ExactAlt(w, s, pat, b + 1, e, pend, c, equal); }
  }

  /** For whole patterns without nested groups: a match is found exactly for the sequences the pattern describes
      with every alternative at its shortest prefix. */
  lemma UnnestedMeaning<S, C>(w: seq<S>, pat: seq<C>, c: Cards<C>, equal: (S, C) -> bool)
    requires Unnested(pat, 0, |pat|, c)
    ensures Matches(w, pat, c, equal).Found?
    ensures Matches(w, pat, c, equal).res <==> Commits(pat, 0, |pat|, c, equal, w)
  {
    Exact(w, 0, pat, 0, |pat|, c, equal);
    assert w[0..] == w;
  }
}
