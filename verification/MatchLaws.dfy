/** What a step and a match do to a traversal, in terms of the marks of the nodes: which nodes a step passes,
    where a match that may repeat leaves the position, and what becomes of alternatives. */
module MatchLaws {
  import opened ScopedTraversal
  import opened Traversal

  // ---- the questions a step asks ----

  /** A node blocks if it is marked, or if it is a group of alternatives all of which block. */
  lemma BlockingIs(n: Node)
    ensures Blocking(n) <==>
      n.blocks || (n.Group? && n.exclusive && forall i :: 0 <= i < |n.children| ==> Blocking(n.children[i]))
  {
    if n.Group? { AllBlockingIs(n.children); }
  }

  lemma {:induction false} AllBlockingIs(ns: seq<Node>)
    ensures AllBlocking(ns) <==> forall i :: 0 <= i < |ns| ==> Blocking(ns[i])
  {
    if ns != [] {
      AllBlockingIs(ns[1..]);
      assert forall i :: 0 < i < |ns| ==> ns[i] == ns[1..][i - 1];
    }
  }

  /** Two valid positions are the same when they are the same child of the same group. */
  lemma SamePositionIs(a: Stack, b: Stack)
    requires StackOk(a) && StackOk(b)
    ensures SamePosition(a, b) <==>
      a != [] && b != [] && Top(a).parent.id == Top(b).parent.id && Top(a).cur == Top(b).cur
  {
    if a != [] { assert FrameOk(Top(a)); }
    if b != [] { assert FrameOk(Top(b)); }
  }

  /** Every frame from k on stands at its last child. */
  predicate LastFrom(s: Stack, k: nat) {
    forall i :: k <= i < |s| ==> s[i].cur + 1 == s[i].end
  }

  /** Frame k is the lowest of those at their last child that lies in a blocking group. */
  predicate LowestLeft(s: Stack, k: nat) {
    && k < |s| && LastFrom(s, k) && Blocking(s[k].parent)
    && forall j :: 0 <= j < k ==> !(LastFrom(s, j) && Blocking(s[j].parent))
  }

  /** The group found is the outermost blocking one among those the next step would leave. */
  lemma {:induction false} ExploredIs(s: Stack)
    ensures match Explored(s)
      case NoGroup => forall k: nat :: !LowestLeft(s, k)
      case TheGroup(g) => exists k: nat :: k < |s| && LowestLeft(s, k) && s[k].parent.id == g
  {
    hide Blocking, LowestLeft;
    if s == [] || Top(s).cur + 1 != Top(s).end {
      NoneAtLast(s);
    } else {
      ExploredIs(Rest(s));
      if Explored(Rest(s)).TheGroup? {
        var k: nat :| k < |Rest(s)| && LowestLeft(Rest(s), k) && Rest(s)[k].parent.id == Explored(Rest(s)).id;
        LowestAbove(s, k);
        assert LowestLeft(s, k) && s[k].parent.id == Explored(s).id;
      } else {
        NoneBelow(Rest(s));
        OnlyTop(s);
        if Blocking(Top(s).parent) { assert s[|s| - 1].parent.id == Explored(s).id; }
      }
    }
  }

  lemma NoneAtLast(s: Stack)
    requires s == [] || Top(s).cur + 1 != Top(s).end
    ensures forall k: nat :: !LowestLeft(s, k)
  {
    if s != [] {
      forall k: nat | k < |s|
        ensures !LastFrom(s, k)
      {
        assert s[|s| - 1].cur + 1 != s[|s| - 1].end;
      }
    }
  }

  /** A frame at its last child on top changes nothing below. */
  lemma LastFromBelow(s: Stack, k: nat)
    requires s != [] && Top(s).cur + 1 == Top(s).end && k < |s|
    ensures LastFrom(s, k) <==> LastFrom(Rest(s), k)
  {
  }

  lemma LowestAbove(s: Stack, k: nat)
    requires s != [] && Top(s).cur + 1 == Top(s).end && LowestLeft(Rest(s), k)
    ensures LowestLeft(s, k) && k < |s| - 1
  {
    hide Blocking;
    forall j: nat | j <= k
      ensures LastFrom(s, j) <==> LastFrom(Rest(s), j)
    {
      LastFromBelow(s, j);
    }
    assert s[k] == Rest(s)[k];
    forall j: nat | j < k
      ensures !(LastFrom(s, j) && Blocking(s[j].parent))
    {
      assert Rest(s)[j] == s[j];
    }
  }

  lemma OnlyTop(s: Stack)
    requires s != [] && Top(s).cur + 1 == Top(s).end
    requires forall k: nat :: k < |Rest(s)| ==> !(LastFrom(Rest(s), k) && Blocking(Rest(s)[k].parent))
    ensures forall k: nat :: LowestLeft(s, k) <==> k == |s| - 1 && Blocking(Top(s).parent)
  {
    hide Blocking;
    var n := |s| - 1;
    forall j: nat | j < n
      ensures !(LastFrom(s, j) && Blocking(s[j].parent))
    {
      LastFromBelow(s, j);
      assert Rest(s)[j] == s[j];
    }
    assert LastFrom(s, n);
  }

  /** Without a lowest frame there is none at all. */
  lemma NoneBelow(s: Stack)
    requires forall k: nat :: !LowestLeft(s, k)
    ensures forall k: nat :: k < |s| ==> !(LastFrom(s, k) && Blocking(s[k].parent))
  {
    forall k: nat | k < |s|
      ensures !(LastFrom(s, k) && Blocking(s[k].parent))
    {
      NoneFrom(s, k);
    }
  }

  lemma {:induction false} NoneFrom(s: Stack, k: nat)
    requires k < |s| && forall k: nat :: !LowestLeft(s, k)
    ensures !(LastFrom(s, k) && Blocking(s[k].parent))
    decreases k
  {
    hide Blocking;
    forall j: nat | j < k
      ensures !(LastFrom(s, j) && Blocking(s[j].parent))
    {
      NoneFrom(s, j);
    }
    assert !LowestLeft(s, k);
  }

  /** A group is left only if no frame of the last match lies in it. */
  lemma EndsGroupIs(t: Scoped)
    requires ScopedOk(t)
    ensures EndsGroup(t) <==>
      && Unmatched(t) && Explored(t.pos).TheGroup?
      && forall i :: 0 <= i < |t.lastMatch| ==> t.lastMatch[i].parent.id != Explored(t.pos).id
  {
    if EndsGroup(t) {
      forall i | 0 <= i < |t.lastMatch|
        ensures t.lastMatch[i].parent.id != Explored(t.pos).id
      {
      }
    }
  }

  // ---- which nodes a step passes ----

  /** At the end of a blocking group in which nothing matched last, all that is left of the group's siblings is
      passed over, wherever in the group the step began. */
  lemma GroupIsLeft(t: Scoped)
    requires ScopedOk(t) && EndsGroup(t) && t.scopes == []
    ensures var b := BackToAncestor(t.pos, Explored(t.pos).id);
      Ahead(ScopedNext(t).pos) == if b == [] then [] else Following(Rest(b))
  {
    hide Following, Ahead, Blocking, Explored, Inside;
    var s := t.pos;
    var b := BackToAncestor(s, Explored(s).id);
    Over();
    if b != [] { NextAfterSiblingsAhead(b); }
    if LastInPath(s) && b != [] {
      assert Rest(b) == s[..|b| - 1];
      LastHasNoFollowing(Rest(b));
    }
  }

  /** Any other step visits the current node and nothing else. */
  lemma StepVisits(t: Scoped)
    requires ScopedOk(t) && t.pos != [] && !EndsGroup(t) && !HeldBack(t) && t.scopes == []
    ensures Ahead(t.pos) == [Current(t.pos)] + Ahead(ScopedNext(t).pos)
  {
    hide Following, Ahead, Blocking, Explored, Inside, SamePosition;
    var s := t.pos;
    Over();
    NextAhead(s);
    if LastInPath(s) {
      LastHasNoNext(s);
    }
  }

  // ---- going back ----

  /** Going back stops when the scope saved last lies above the given distance. */
  lemma {:induction false} PopDeepStops(t: Scoped, margin: nat)
    requires ScopedOk(t)
    ensures var r := PopDeep(t, margin); r.scopes == [] || Level(LastScope(r)) < |r.pos| + margin
    decreases |t.scopes|
  {
    if t.scopes != [] && Level(LastScope(t)) >= |t.pos| + margin { PopDeepStops(PopScope(t), margin); }
  }

  /** After every step inside the tree no saved scope is deeper than the position. */
  lemma ScopesAbove(t: Scoped)
    requires ScopedOk(t) && t.pos != [] && !LastInPath(t.pos)
    ensures var r := ScopedNext(t); r.scopes == [] || Level(LastScope(r)) <= |r.pos|
  {
    hide Moving, PopDeep;
    var u := Moving(t);
    PopDeepStops(if u.after != [] && |u.pos| < |u.after| then PopDeep(u, 0).(after := []) else u, 1);
  }

  /** Returning to a level uses up scopes until the position is no deeper. */
  lemma {:induction false} ReturnStops(t: Scoped, level: nat)
    requires ScopedOk(t)
    ensures var r := ReturnToLevel(t, level); r.scopes == [] || |r.pos| <= level
    ensures |t.pos| <= level ==> ReturnToLevel(t, level) == t
    decreases |t.scopes|
  {
    if t.scopes != [] && |t.pos| > level { ReturnStops(PopScope(t), level); }
  }

  /** The scopes lie one inside the other, all around the position. */
  predicate Nested(t: Scoped) {
    && (forall i :: 0 <= i < |t.scopes| ==> t.scopes[i].Point? && 1 <= t.scopes[i].level <= |t.pos|)
    && forall i, j :: 0 <= i < j < |t.scopes| ==> Level(t.scopes[i]) <= Level(t.scopes[j])
  }

  /** Going back through all scopes ends at the one saved first, and forgets where the match led. */
  lemma BackToFirst(t: Scoped)
    requires ScopedOk(t) && t.scopes != [] && Nested(t)
    ensures var r, first := ReturnToOutermost(t), t.scopes[0];
      r == t.(pos := t.pos[..first.level - 1] + [first.frame], scopes := [], after := [])
  {
    FirstOfAll(t.(after := []));
  }

  lemma {:induction false} FirstOfAll(t: Scoped)
    requires ScopedOk(t) && t.scopes != [] && Nested(t)
    ensures PopAll(t) == t.(pos := t.pos[..t.scopes[0].level - 1] + [t.scopes[0].frame], scopes := [])
    decreases |t.scopes|
  {
    var n, u := |t.scopes| - 1, PopScope(t);
    assert u.pos == t.pos[..t.scopes[n].level - 1] + [t.scopes[n].frame];
    if n == 0 {
      assert u.scopes == [];
    } else {
      assert u.scopes[0] == t.scopes[0] && Level(t.scopes[0]) <= Level(t.scopes[n]);
      FirstOfAll(u);
      assert u.pos[..t.scopes[0].level - 1] == t.pos[..t.scopes[0].level - 1];
    }
  }

  /** Without scopes the traversal is over. */
  lemma OverWithoutScopes(t: Scoped)
    requires ScopedOk(t) && t.scopes == []
    ensures ReturnToOutermost(t) == t.(pos := [], after := [])
  {
  }

  /** With a saved scope, a position is the last of it exactly when one more step would go back to it. */
  lemma LastGoesBack(t: Scoped, m: Stack)
    requires ScopedOk(t) && StackOk(m) && t.scopes != []
    ensures LastInScope(t.scopes, m) <==> PopDeep(t.(pos := Next(m)), 1) != t.(pos := Next(m))
  {
    hide Next;
    var u := t.(pos := Next(m));
    if Level(LastScope(u)) >= |u.pos| + 1 {
      assert |PopDeep(u, 1).scopes| <= |PopScope(u).scopes| < |u.scopes|;
    }
  }

  // ---- taking up a match ----

  /** A blocking parameter outside all alternatives. */
  predicate PlainMatch(t: Scoped, m: Stack)
    requires ScopedOk(t) && StackOk(m)
  {
    && m != [] && t.pos != [] && !t.ignoreBlocks
    && Current(m).Param? && Current(m).blocks && forall i :: 0 <= i < |m| ==> !m[i].parent.exclusive
  }

  lemma PlainTaken(t: Scoped, m: Stack)
    requires ScopedOk(t) && StackOk(m) && PlainMatch(t, m)
    ensures var here := if !SamePosition(m, t.pos) && Blocking(Current(t.pos)) then NextSibling(t.pos) else t.pos;
      var left := t.(lastMatch := m, pos := here);
      && |here| <= |t.pos| && ScopedOk(left)
      && NextAfterMatch(t, m) == Continues(AfterBlocking(left, m).(after := AfterBlocking(left, m).pos))
  {
    hide SamePosition, AfterBlocking, NextSibling;
    assert Blocking(Current(m));
    SiblingNotDeeper(t.pos);
  }

  lemma SiblingNotDeeper(s: Stack)
    requires StackOk(s)
    ensures |NextSibling(s)| <= |s|
  {
  }

  /** The place left is saved if the new one is deeper, and otherwise nothing is. */
  predicate SavedIfDeeper(t: Scoped, m: Stack, next: Stack, scopes: seq<Memento>)
    requires ScopedOk(t) && t.pos != []
  {
    var here := if !SamePosition(m, t.pos) && Blocking(Current(t.pos)) then NextSibling(t.pos) else t.pos;
    scopes == t.scopes + if |next| == |here| then [] else if here == [] then [Nowhere] else [Point(|here|, Top(here))]
  }

  /** A match that may repeat, not above the traversal and not the last of its scope, becomes the position:
      a test that accepts it again finds it there. */
  lemma RepeatableStays(t: Scoped, m: Stack, accepts: Node -> bool)
    requires ScopedOk(t) && StackOk(m) && PlainMatch(t, m) && Current(m).repeatable
    requires !LastInScope(t.scopes, m) && |t.pos| <= |m|
    ensures var r := NextAfterMatch(t, m);
      && r.Continues? && r.t.pos == m && r.t.lastMatch == m && SavedIfDeeper(t, m, m, r.t.scopes)
      && (accepts(Current(m)) ==> FirstMatch(r.t, accepts) == r.t)
  {
    hide SamePosition, LastInScope, NextAfterMatch, NextSibling, Blocking;
    PlainTaken(t, m);
  }

  /** A match that may not repeat is left at once: the position is the one behind it, and of the nodes ahead of
      the match in the tree only the match itself is passed. */
  lemma OthersAreLeft(t: Scoped, m: Stack)
    requires ScopedOk(t) && StackOk(m) && PlainMatch(t, m) && !Current(m).repeatable
    requires !LastInScope(t.scopes, m) && |t.pos| <= |NextSibling(m)|
    ensures var r := NextAfterMatch(t, m);
      && r.Continues? && r.t.pos == NextSibling(m) && r.t.lastMatch == m && SavedIfDeeper(t, m, NextSibling(m), r.t.scopes)
      && Ahead(m) == [Current(m)] + Ahead(r.t.pos)
  {
    hide SamePosition, LastInScope, NextAfterMatch, NextSibling, Blocking, Ahead;
    PlainTaken(t, m);
    NextAhead(m);
  }

  /** The last match of a scope: one that may repeat becomes the position; any other goes back to the place
      the scope was entered from, unless there is none. */
  lemma LastOfScope(t: Scoped, m: Stack)
    requires ScopedOk(t) && StackOk(m) && PlainMatch(t, m) && LastInScope(t.scopes, m)
    ensures var r := NextAfterMatch(t, m);
      && r.Continues? && r.t.scopes == t.scopes && r.t.lastMatch == m
      && r.t.pos == if Current(m).repeatable || t.scopes == [] then m else Undo(m, LastScope(t))
  {
    hide SamePosition, LastInScope, NextAfterMatch, NextSibling, Blocking, Undo;
    PlainTaken(t, m);
  }

  /** A match above the traversal brings it back up, as far as there are scopes to go back through. */
  lemma MatchAbove(t: Scoped, m: Stack)
    requires ScopedOk(t) && StackOk(m) && PlainMatch(t, m) && !LastInScope(t.scopes, m)
    requires (if Current(m).repeatable then |m| else |NextSibling(m)|) < |NextSibling(t.pos)|
    ensures var r := NextAfterMatch(t, m);
      r.Continues? && (r.t.scopes == [] || |r.t.pos| <= if Current(m).repeatable then |m| else |NextSibling(m)|)
  {
    hide SamePosition, LastInScope, NextAfterMatch, NextSibling, Blocking, ReturnToLevel, UndoPoint;
    PlainTaken(t, m);
    SiblingNotDeeper(t.pos);
    var here := if !SamePosition(m, t.pos) && Blocking(Current(t.pos)) then NextSibling(t.pos) else t.pos;
    ReturnStops(t.(lastMatch := m, pos := here), if Current(m).repeatable then |m| else |NextSibling(m)|);
  }

  /** Without saved scopes a position is the last of its scope when one more step would leave the tree. */
  lemma LastIs(m: Stack)
    requires StackOk(m)
    ensures LastInScope([], m) <==> m != [] && Next(m) == []
  {
    if m != [] && !Current(m).Group? { LastIffNoSibling(m); }
  }

  lemma {:induction false} LastIffNoSibling(s: Stack)
    requires StackOk(s)
    ensures AtLast(s) <==> NextSibling(s) == []
  {
    if s != [] {
      assert FrameOk(Top(s));
      LastIffNoSibling(Rest(s));
      assert AtLast(s) <==> AtLast(Rest(s)) && Top(s).cur + 1 == Top(s).end;
    }
  }

  // ---- alternatives ----

  /** What is ahead of a position when the other alternatives of every group of alternatives are left out. */
  function WithoutAlternatives(s: Stack): seq<Node>
    requires StackOk(s)
  {
    if s == [] then []
    else (if Top(s).parent.exclusive then [] else PreorderAll(Top(s).parent.children[Top(s).cur + 1..Top(s).end]))
         + WithoutAlternatives(Rest(s))
  }

  /** Skipping alternatives keeps the position and takes exactly the other alternatives off what follows. */
  lemma {:induction false} AlternativesGone(s: Stack)
    requires StackOk(s)
    ensures Following(SkipAlternatives(s)) == WithoutAlternatives(s)
    ensures s != [] ==> Current(SkipAlternatives(s)) == Current(s)
  {
    hide PreorderAll, Preorder, Inhabited;
    if s != [] {
      AlternativesGone(Rest(s));
      var r := SkipAlternatives(s);
      assert Rest(r) == SkipAlternatives(Rest(s));
      var f := Top(r);
      if Top(s).parent.exclusive {
        assert f == Top(s).(end := Top(s).cur + 1);
        NoSiblings(f);
      } else {
        assert f == Top(s);
      }
    }
  }

  /** A blocking match among alternatives, not the last of its scope nor above the traversal: the others are no
      longer ahead. */
  lemma AlternativeTaken(t: Scoped, m: Stack)
    requires ScopedOk(t) && StackOk(m) && m != [] && t.pos != [] && !t.ignoreBlocks
    requires Current(m).Param? && Current(m).blocks && exists i :: 0 <= i < |m| && m[i].parent.exclusive
    requires var kept := SkipAlternatives(m);
      !LastInScope(t.scopes, kept) && |t.pos| <= if Current(m).repeatable then |m| else |NextSibling(kept)|
    ensures var r := NextAfterMatch(t, m);
      && r.Continues?
      && Ahead(r.t.pos) == (if Current(m).repeatable then [Current(m)] else []) + WithoutAlternatives(m)
  {
    hide LastInScope, NextSibling, SkipAlternatives, WithoutAlternatives, NextAfterMatch, Ahead;
    AmongAlternatives(t, m);
  }

  lemma AmongAlternatives(t: Scoped, m: Stack)
    requires ScopedOk(t) && StackOk(m) && m != [] && t.pos != [] && !t.ignoreBlocks
    requires Current(m).Param? && Current(m).blocks && IsAlternative(m)
    requires var kept := SkipAlternatives(m);
      !LastInScope(t.scopes, kept) && |t.pos| <= if Current(m).repeatable then |m| else |NextSibling(kept)|
    ensures var r := NextAfterMatch(t, m);
      && r.Continues?
      && Ahead(r.t.pos) == (if Current(m).repeatable then [Current(m)] else []) + WithoutAlternatives(m)
  {
    hide SamePosition, LastInScope, NextSibling, SkipAlternatives, WithoutAlternatives, Following, IsAlternative, PreorderAll;
    var kept := SkipAlternatives(m);
    KeptSize(m);
    AlternativesGone(m);
    SiblingNotDeeper(t.pos);
    NextSiblingAhead(kept);
    assert Blocking(Current(m));
    assert Preorder(Current(m)) == [Current(m)];
  }

  lemma KeptSize(m: Stack)
    requires StackOk(m)
    ensures |SkipAlternatives(m)| == |m| && StackOk(SkipAlternatives(m))
  {
  }

  /** A match that neither blocks nor lies in a blocking group, not above the traversal, leaves an unblocked
      traversal where it is; from a blocking node it moves it on to the next sibling. */
  lemma UnblockedTaken(t: Scoped, m: Stack)
    requires ScopedOk(t) && StackOk(m) && m != [] && t.pos != [] && !t.ignoreBlocks
    requires !Blocking(Current(m)) && forall i :: 0 <= i < |m| ==> !Blocking(m[i].parent)
    requires |t.pos| <= |m|
    ensures var here := if !SamePosition(m, t.pos) && Blocking(Current(t.pos)) then NextSibling(t.pos) else t.pos;
      NextAfterMatch(t, m) == Continues(t.(lastMatch := m, pos := here, after := here))
  {
    hide SamePosition, Blocking, NextSibling;
    NoneInnermost(m);
    SiblingNotDeeper(t.pos);
  }

  lemma {:induction false} NoneInnermost(m: Stack)
    requires forall i :: 0 <= i < |m| ==> !Blocking(m[i].parent)
    ensures InnermostBlocking(m).NoGroup?
  {
    if m != [] { NoneInnermost(Rest(m)); }
  }
}
