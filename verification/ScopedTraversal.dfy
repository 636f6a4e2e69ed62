/** Traversal that returns to saved scopes: when a blocking parameter matched deeper in the tree, the
    place left is remembered and visited again later.  Moving back makes termination the question. */
module ScopedTraversal {
  import opened Traversal

  /** All state that decides where the traversal goes. */
  datatype Scoped = Scoped(pos: Stack, lastMatch: Stack, after: Stack, scopes: seq<Memento>, ignoreBlocks: bool)

  ghost predicate ScopedOk(t: Scoped) {
    StackOk(t.pos) && forall i :: 0 <= i < |t.scopes| ==> MementoOk(t.scopes[i])
  }

  function Start(root: Node): (t: Scoped)
    requires root.Group?
  {
    Scoped(Begin(root), [], [], [], false)
  }

  // ---- questions about a position ----

  predicate AtLast(s: Stack) {
    forall i :: 0 <= i < |s| ==> s[i].cur + 1 == s[i].end
  }

  /** One more step would leave the whole tree. */
  predicate LastInPath(s: Stack)
    requires StackOk(s)
  {
    s != [] && AtLast(s) && !Current(s).Group?
  }

  predicate SamePosition(a: Stack, b: Stack) {
    && a != [] && b != [] && Top(a).parent.id == Top(b).parent.id
    && var aEnd, bEnd := Top(a).cur == Top(a).end, Top(b).cur == Top(b).end;
    (aEnd && bEnd) || (!aEnd && !bEnd && Top(a).cur == Top(b).cur)
  }

  predicate Inside(s: Stack, g: nat) {
    exists i :: 0 <= i < |s| && s[i].parent.id == g
  }

  predicate IsAlternative(s: Stack)
    requires StackOk(s)
  {
    exists i :: 0 <= i < |s| && s[i].parent.exclusive
  }

  datatype Ancestor = NoGroup | TheGroup(id: nat)

  /** The outermost blocking group that the next step would leave. */
  function Explored(s: Stack): Ancestor {
    if s == [] || Top(s).cur + 1 != Top(s).end then NoGroup
    else if Explored(Rest(s)).TheGroup? then Explored(Rest(s))
    else if Blocking(Top(s).parent) then TheGroup(Top(s).parent.id)
    else NoGroup
  }

  function InnermostBlocking(s: Stack): Ancestor {
    if s == [] then NoGroup
    else if Blocking(Top(s).parent) then TheGroup(Top(s).parent.id)
    else InnermostBlocking(Rest(s))
  }

  // ---- returning to scopes ----

  function LastScope(t: Scoped): Memento
    requires t.scopes != []
  {
    t.scopes[|t.scopes| - 1]
  }

  /** Goes back to the scope saved last and forgets it. */
  function PopScope(t: Scoped): (r: Scoped)
    requires ScopedOk(t) && t.scopes != []
    ensures ScopedOk(r) && |r.scopes| < |t.scopes|
  {
    t.(pos := Undo(t.pos, LastScope(t)), scopes := t.scopes[..|t.scopes| - 1])
  }

  /** Goes back through all scopes. */
  function PopAll(t: Scoped): (r: Scoped)
    requires ScopedOk(t)
    ensures ScopedOk(r) && r.scopes == []
    decreases |t.scopes|
  {
    if t.scopes == [] then t else PopAll(PopScope(t))
  }

  /** Goes back through scopes at the given distance above the position, or further down. */
  function PopDeep(t: Scoped, margin: nat): (r: Scoped)
    requires ScopedOk(t)
    ensures ScopedOk(r) && |r.scopes| <= |t.scopes| && (r == t || |r.scopes| < |t.scopes|)
    ensures r == t.(pos := r.pos, scopes := r.scopes)
    decreases |t.scopes|
  {
    if t.scopes != [] && Level(LastScope(t)) >= |t.pos| + margin then PopDeep(PopScope(t), margin) else t
  }

  /** Goes back through scopes until the position is no deeper than the level. */
  function ReturnToLevel(t: Scoped, level: nat): (r: Scoped)
    requires ScopedOk(t)
    ensures ScopedOk(r)
    decreases |t.scopes|
  {
    if t.scopes != [] && |t.pos| > level then ReturnToLevel(PopScope(t), level) else t
  }

  function ReturnToOutermost(t: Scoped): (r: Scoped)
    requires ScopedOk(t)
    ensures ScopedOk(r)
  {
    if t.scopes == [] then t.(pos := [], after := []) else PopAll(t.(after := []))
  }

  function CheckIfLeftScope(t: Scoped): (r: Scoped)
    requires ScopedOk(t)
    ensures ScopedOk(r)
  {
    PopDeep(if t.after != [] && |t.pos| < |t.after| then PopDeep(t, 0).(after := []) else t, 1)
  }

  function OrReturn(t: Scoped): (r: Scoped)
    requires ScopedOk(t)
    ensures ScopedOk(r)
  {
    if t.pos == [] then ReturnToOutermost(t) else t
  }

  // ---- the step ----

  /** Moves on from the current node; unmatched blocking nodes and groups are not passed. */
  function Moving(t: Scoped): (r: Scoped)
    requires ScopedOk(t) && t.pos != []
    ensures ScopedOk(r)
  {
    var n, g := Current(t.pos), Explored(t.pos);
    if t.ignoreBlocks || SamePosition(t.pos, t.lastMatch) || n.Group? then t.(pos := Next(t.pos))
    else if g.TheGroup? && !Inside(t.lastMatch, g.id) then
      OrReturn(t.(pos := NextAfterSiblings(BackToAncestor(t.pos, g.id))))
    else if Blocking(n) then
      OrReturn(t.(pos := if Top(t.pos).parent.exclusive then NextSibling(t.pos) else NextAfterSiblings(t.pos)))
    else t.(pos := Next(t.pos))
  }

  function ScopedNext(t: Scoped): (r: Scoped)
    requires ScopedOk(t)
    ensures ScopedOk(r)
  {
    if t.pos == [] then t
    else if LastInPath(t.pos) then ReturnToOutermost(t)
    else CheckIfLeftScope(Moving(t))
  }

  // ---- termination ----

  /** The nodes still ahead in the current scope. */
  function NodesAhead(t: Scoped): nat
    requires ScopedOk(t)
  {
    |Ahead(t.pos)|
  }

  /** r has fewer saved scopes, or has as many and is over or has fewer nodes ahead. */
  predicate Smaller(r: Scoped, t: Scoped)
    requires ScopedOk(r) && ScopedOk(t)
  {
    |r.scopes| <= |t.scopes| && (|r.scopes| < |t.scopes| || r.pos == [] || NodesAhead(r) < NodesAhead(t))
  }

  lemma {:induction false} FollowingOfPrefix(s: Stack, n: nat)
    requires StackOk(s) && n <= |s|
    ensures |Following(s[..n])| <= |Following(s)|
    decreases |s|
  {
    if n == |s| {
      assert s[..n] == s;
    } else {
      assert Rest(s)[..n] == s[..n];
      FollowingOfPrefix(Rest(s), n);
    }
  }

  lemma FollowingIsLess(s: Stack)
    requires StackOk(s) && s != []
    ensures |Following(s)| < |Ahead(s)|
  {
  }

  lemma NextAfterSiblingsAhead(s: Stack)
    requires StackOk(s) && s != []
    ensures Ahead(NextAfterSiblings(s)) == Following(Rest(s))
  {
    hide PreorderAll, Preorder, Inhabited, NextSibling;
    var f := Top(s).(cur := Top(s).end - 1);
    var last := Rest(s) + [f];
    assert StackOk(last);
    NextSiblingAhead(last);
    assert Rest(last) == Rest(s) && Top(last) == f;
    NoSiblings(f);
  }

  /** Every way of moving on leaves fewer nodes ahead. */
  lemma MovingShrinks(t: Scoped)
    requires ScopedOk(t) && t.pos != []
    ensures Smaller(Moving(t), t)
  {
    hide Ahead, Following, FrameOk, Blocking;
    var n, g, s := Current(t.pos), Explored(t.pos), t.pos;
    NextAhead(s);
    FollowingIsLess(s);
    NextSiblingAhead(s);
    NextAfterSiblingsAhead(s);
    FollowingOfPrefix(s, |s| - 1);
    if g.TheGroup? {
      var b := BackToAncestor(s, g.id);
      if b != [] {
        NextAfterSiblingsAhead(b);
        assert Rest(b) == s[..|b| - 1];
        FollowingOfPrefix(s, |b| - 1);
      }
    }
  }

  /** Each step ends the traversal, uses up a saved scope, or leaves fewer nodes ahead. */
  lemma StepShrinks(t: Scoped)
    requires ScopedOk(t) && t.pos != []
    ensures Smaller(ScopedNext(t), t)
  {
    hide Moving, Ahead, Following;
    if !LastInPath(t.pos) {
      MovingShrinks(t);
    }
  }

  // ---- searching ----

  /** The first parameter the predicate accepts, as full_match, prefix_match and partial_match look for it;
      the traversal is over if there is none. */
  function FirstMatch(t: Scoped, accepts: Node -> bool): (r: Scoped)
    requires ScopedOk(t)
    ensures ScopedOk(r)
    ensures r.pos != [] ==> Current(r.pos).Param? && accepts(Current(r.pos))
    decreases |t.scopes|, t.pos != [], NodesAhead(t)
  {
    if t.pos == [] || (Current(t.pos).Param? && accepts(Current(t.pos))) then t
    else
      StepShrinks(t);
      FirstMatch(ScopedNext(t), accepts)
  }

  /** With blocking ignored and nothing saved, a step is a plain depth-first step. */
  lemma UnblockedStep(t: Scoped)
    requires ScopedOk(t) && t.ignoreBlocks && t.scopes == [] && t.pos != []
    ensures ScopedNext(t).pos == Next(t.pos) && ScopedNext(t).scopes == [] && ScopedNext(t).ignoreBlocks
  {
    if LastInPath(t.pos) {
      LastHasNoNext(t.pos);
    }
  }

  lemma {:induction false} LastHasNoNext(s: Stack)
    requires StackOk(s) && AtLast(s)
    ensures NextSibling(s) == []
  {
    if s != [] { LastHasNoNext(Rest(s)); }
  }

  predicate NoneAccepted(ns: seq<Node>, accepts: Node -> bool) {
    forall i :: 0 <= i < |ns| ==> !(ns[i].Param? && accepts(ns[i]))
  }

  ghost predicate FirstAccepted(ns: seq<Node>, accepts: Node -> bool, n: Node) {
    exists i :: 0 <= i < |ns| && ns[i] == n && NoneAccepted(ns[..i], accepts)
  }

  /** Then the search finds a parameter exactly when one ahead is accepted, and it is the first in preorder. */
  lemma {:induction false} UnblockedSearch(t: Scoped, accepts: Node -> bool)
    requires ScopedOk(t) && t.ignoreBlocks && t.scopes == []
    ensures var r, ahead := FirstMatch(t, accepts).pos, Ahead(t.pos);
      && (r == [] <==> NoneAccepted(ahead, accepts))
      && (r != [] ==> FirstAccepted(ahead, accepts, Current(r)))
    decreases NodesAhead(t)
  {
    hide Ahead, Next, ScopedNext, FrameOk;
    if t.pos == [] {
      Over();
    } else {
      NextAhead(t.pos);
      var ahead := Ahead(t.pos);
      if !(Current(t.pos).Param? && accepts(Current(t.pos))) {
        UnblockedStep(t);
        UnblockedSearch(ScopedNext(t), accepts);
        var rest := Ahead(Next(t.pos));
        assert forall i :: 0 < i < |ahead| ==> ahead[i] == rest[i - 1];
        var r := FirstMatch(t, accepts).pos;
        if r != [] {
          var i :| 0 <= i < |rest| && rest[i] == Current(r) && NoneAccepted(rest[..i], accepts);
          assert ahead[i + 1] == Current(r) && ahead[..i + 1] == [ahead[0]] + rest[..i];
        }
      } else {
        assert ahead[0] == Current(t.pos) && NoneAccepted(ahead[..0], accepts);
      }
    }
  }

  // ---- what blocking holds back ----

  lemma {:induction false} LastHasNoFollowing(s: Stack)
    requires StackOk(s) && AtLast(s)
    ensures Following(s) == []
  {
    if s != [] {
      NoSiblings(Top(s));
      LastHasNoFollowing(Rest(s));
    }
  }

  /** The current parameter is unmatched. */
  predicate Unmatched(t: Scoped)
    requires ScopedOk(t)
  {
    t.pos != [] && !t.ignoreBlocks && !SamePosition(t.pos, t.lastMatch) && Current(t.pos).Param?
  }

  /** With it a blocking group ends in which nothing matched last. */
  predicate EndsGroup(t: Scoped)
    requires ScopedOk(t)
  {
    Unmatched(t) && Explored(t.pos).TheGroup? && !Inside(t.lastMatch, Explored(t.pos).id)
  }

  /** It blocks, in a group that is not left with it. */
  predicate HeldBack(t: Scoped)
    requires ScopedOk(t)
  {
    Unmatched(t) && Blocking(Current(t.pos)) && !EndsGroup(t)
  }

  /** Within one scope, past an unmatched blocking parameter none of its later siblings is visited, unless
      they are alternatives to it. */
  lemma BlockingHidesSiblings(t: Scoped)
    requires ScopedOk(t) && HeldBack(t) && t.scopes == []
    ensures Ahead(ScopedNext(t).pos) == Following(if Top(t.pos).parent.exclusive then t.pos else Rest(t.pos))
  {
    hide Following, Ahead, Blocking;
    var s := t.pos;
    Over();
    if LastInPath(s) {
      LastHasNoFollowing(s);
      LastHasNoFollowing(Rest(s));
    } else {
      NextSiblingAhead(s);
      NextAfterSiblingsAhead(s);
    }
  }

  // ---- after a match ----

  /** The state after a match, unless the code would look at the top of an empty stack. */
  datatype AfterMatch = Continues(t: Scoped) | EmptyStack

  /** The match, taken back to its innermost blocking group unless it is itself blocking. */
  function Anchored(m: Stack): (r: Stack)
    requires StackOk(m) && m != []
    ensures StackOk(r)
  {
    var g := InnermostBlocking(m);
    if !Blocking(Current(m)) && g.TheGroup? then BackToAncestor(m, g.id) else m
  }

  /** One more step would leave the scope saved last. */
  predicate LastInScope(scopes: seq<Memento>, m: Stack)
    requires StackOk(m)
  {
    if scopes == [] then LastInPath(m) else |Next(m)| < Level(scopes[|scopes| - 1])
  }

  /** A node that is left once it has matched. */
  predicate OneShot(n: Node) {
    !n.repeatable && n.Param?
  }

  function NextAfterMatch(t: Scoped, m: Stack): (r: AfterMatch)
    requires ScopedOk(t) && StackOk(m)
    ensures r.Continues? ==> ScopedOk(r.t)
  {
    if m == [] || t.ignoreBlocks then Continues(t)
    else
      var anchor := Anchored(m);
      if anchor == [] || t.pos == [] then EmptyStack
      else
        var blocking := Blocking(Current(anchor));
        var here := if !SamePosition(anchor, t.pos) && Blocking(Current(t.pos)) then NextSibling(t.pos) else t.pos;
        var left := t.(lastMatch := m, pos := here);
        var result :=
          if blocking then AfterBlocking(left, if IsAlternative(anchor) then SkipAlternatives(anchor) else anchor)
          else if |anchor| < |here| then ReturnToLevel(left, |anchor|)
          else left;
        Continues(result.(after := result.pos))
  }

  /** Goes to the match or past it, saving the place left when the match lies deeper. */
  function AfterBlocking(t: Scoped, m: Stack): (r: Scoped)
    requires ScopedOk(t) && StackOk(m) && m != []
    ensures ScopedOk(r)
  {
    var n := Current(m);
    if LastInScope(t.scopes, m) then
      t.(pos := if OneShot(n) && t.scopes != [] then Undo(m, LastScope(t)) else m)
    else
      var next := if OneShot(n) then Next(m) else m;
      if |next| > |t.pos| then t.(pos := next, scopes := t.scopes + [UndoPoint(t.pos)])
      else if |next| < |t.pos| then ReturnToLevel(t, |next|)
      else t.(pos := next)
  }

  /** A blocking match deeper in the tree saves the place left; if the match was reached without going
      above that place, going back to the saved scope resumes exactly there. */
  lemma ResumesWhereLeft(t: Scoped, m: Stack)
    requires ScopedOk(t) && StackOk(m) && m != [] && t.pos != [] && !LastInScope(t.scopes, m)
    requires var next := if OneShot(Current(m)) then Next(m) else m; |next| > |t.pos| && WithinLevel(t.pos, next)
    ensures var r := AfterBlocking(t, m);
      |r.scopes| == |t.scopes| + 1 && PopScope(r) == t
  {
    var r := AfterBlocking(t, m);
    assert r.scopes[..|t.scopes|] == t.scopes;
    assert t.pos == Rest(t.pos) + [Top(t.pos)];
  }

  // ---- whole runs ----

  datatype Event = Advance | Matched(m: Stack) | IgnoreBlocking(yes: bool)

  /** The state after some events, as long as every match can be taken up. */
  ghost predicate Reaches(t: Scoped, events: seq<Event>, r: Scoped)
    requires ScopedOk(t)
    decreases |events|
  {
    if events == [] then t == r
    else
      match events[0]
      case Advance => Reaches(ScopedNext(t), events[1..], r)
      case IgnoreBlocking(yes) => Reaches(t.(ignoreBlocks := yes), events[1..], r)
      case Matched(m) =>
        StackOk(m) && NextAfterMatch(t, m).Continues? && Reaches(NextAfterMatch(t, m).t, events[1..], r)
  }

  lemma {:induction false} ReachesOk(t: Scoped, events: seq<Event>, r: Scoped)
    requires ScopedOk(t) && Reaches(t, events, r)
    ensures ScopedOk(r)
    decreases |events|
  {
    if events != [] {
      match events[0]
      case Advance => ReachesOk(ScopedNext(t), events[1..], r);
      case IgnoreBlocking(yes) => ReachesOk(t.(ignoreBlocks := yes), events[1..], r);
      case Matched(m) => ReachesOk(NextAfterMatch(t, m).t, events[1..], r);
    }
  }

  /** In every state reachable in a tree without empty groups, a step ends the traversal, uses up a saved
      scope or leaves fewer nodes ahead; so every search ends. */
  lemma RunsShrink(root: Node, events: seq<Event>, t: Scoped)
    requires root.Group? && Inhabited(root) && Reaches(Start(root), events, t)
    ensures ScopedOk(t) && (t.pos != [] ==> Smaller(ScopedNext(t), t))
  {
    ReachesOk(Start(root), events, t);
    if t.pos != [] { StepShrinks(t); }
  }
}
