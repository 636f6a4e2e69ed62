/** When going back to a blocking group runs off the stack, so that the code would look at the top of an
    empty vector: exactly when for any stack, where it can happen in a run of the parser, and runs where it does. */
module EmptyStacks {
  import opened Traversal
  import opened ScopedTraversal

  // ---- any stack ----

  predicate IsGroup(n: Node, g: nat) {
    n.Group? && n.id == g
  }

  /** Frame k lies in the innermost blocking group. */
  predicate InnermostIs(m: Stack, k: nat) {
    k < |m| && Blocking(m[k].parent) && forall i :: k < i < |m| ==> !Blocking(m[i].parent)
  }

  /** Some frame's current node is the group with the address g. */
  predicate OnStack(m: Stack, g: nat)
    requires StackOk(m)
  {
    exists i :: 0 <= i < |m| && IsGroup(NodeAt(m[i]), g)
  }

  lemma {:induction false} InnermostAt(m: Stack) returns (k: nat)
    requires InnermostBlocking(m).TheGroup?
    ensures InnermostIs(m, k) && InnermostBlocking(m).id == m[k].parent.id
  {
    if Blocking(Top(m).parent) { k := |m| - 1; } else { k := InnermostAt(Rest(m)); }
  }

  lemma {:induction false} NoInnermost(m: Stack)
    requires InnermostBlocking(m).NoGroup?
    ensures forall i :: 0 <= i < |m| ==> !Blocking(m[i].parent)
  {
    if m != [] { NoInnermost(Rest(m)); }
  }

  lemma {:induction false} BackFinds(m: Stack, g: nat)
    requires StackOk(m)
    ensures BackToAncestor(m, g) != [] <==> OnStack(m, g)
  {
    if m != [] {
      BackFinds(Rest(m), g);
      if IsGroup(Current(m), g) {
        assert IsGroup(NodeAt(m[|m| - 1]), g);
      } else {
        assert forall i :: 0 <= i < |Rest(m)| ==> NodeAt(m[i]) == NodeAt(Rest(m)[i]);
      }
    }
  }

  /** The current node does not block, and the innermost blocking group it lies in is the current node of no
      frame. */
  ghost predicate LeftBehind(m: Stack)
    requires StackOk(m) && m != []
  {
    !Blocking(Current(m)) && exists k: nat :: InnermostIs(m, k) && !OnStack(m, m[k].parent.id)
  }

  lemma InnermostUnique(m: Stack, i: nat, k: nat)
    requires InnermostIs(m, i) && InnermostIs(m, k)
    ensures i == k
  {
  }

  /** For every stack: going back empties it exactly when it is left behind. */
  lemma EmptiedExactly(m: Stack)
    requires StackOk(m) && m != []
    ensures Anchored(m) == [] <==> LeftBehind(m)
  {
    hide Blocking;
    if InnermostBlocking(m).TheGroup? {
      var k := InnermostAt(m);
      BackFinds(m, m[k].parent.id);
      forall i: nat | InnermostIs(m, i)
        ensures i == k
      {
        InnermostUnique(m, i, k);
      }
    } else {
      NoInnermost(m);
      assert forall k: nat :: !InnermostIs(m, k);
    }
  }

  /** For every state and every match: the code looks at the top of an empty stack exactly when a match is to
      be taken up at an invalid position, or when going back empties the match's own stack. */
  lemma TakenUpExactly(t: Scoped, m: Stack)
    requires ScopedOk(t) && StackOk(m)
    ensures NextAfterMatch(t, m) == EmptyStack <==>
      m != [] && !t.ignoreBlocks && (t.pos == [] || LeftBehind(m))
  {
    hide Anchored;
    if m != [] { EmptiedExactly(m); }
  }

  ghost predicate AllOk(ms: seq<Stack>) {
    forall i :: 0 <= i < |ms| ==> StackOk(ms[i])
  }

  /** Takes up several matches, as the parser does with the flags joined in one argument. */
  ghost function Replayed(t: Scoped, ms: seq<Stack>): (r: AfterMatch)
    requires ScopedOk(t) && AllOk(ms)
    ensures r.Continues? ==> ScopedOk(r.t)
    decreases |ms|
  {
    if ms == [] then Continues(t)
    else
      match NextAfterMatch(t, ms[0])
      case EmptyStack => EmptyStack
      case Continues(r) => Replayed(r, ms[1..])
  }

  /** The i-th match is the first that cannot be taken up. */
  ghost predicate FailsAt(t: Scoped, ms: seq<Stack>, i: nat)
    requires ScopedOk(t) && AllOk(ms) && i < |ms|
  {
    && Replayed(t, ms[..i]).Continues?
    && var r := Replayed(t, ms[..i]).t;
      ms[i] != [] && !r.ignoreBlocks && (r.pos == [] || LeftBehind(ms[i]))
  }

  lemma {:induction false} ReplayedExactly(t: Scoped, ms: seq<Stack>)
    requires ScopedOk(t) && AllOk(ms)
    ensures Replayed(t, ms) == EmptyStack <==> exists i: nat :: i < |ms| && FailsAt(t, ms, i)
    decreases |ms|
  {
    hide LeftBehind, NextAfterMatch;
    if ms != [] {
      TakenUpExactly(t, ms[0]);
      var next := NextAfterMatch(t, ms[0]);
      assert FailsAt(t, ms, 0) <==> next == EmptyStack;
      if next.Continues? {
        ReplayedExactly(next.t, ms[1..]);
        forall i: nat | i < |ms| - 1
          ensures FailsAt(t, ms, i + 1) <==> FailsAt(next.t, ms[1..], i)
        {
          assert ms[..i + 1][1..] == ms[1..][..i] && ms[..i + 1][0] == ms[0] && ms[1..][i] == ms[i + 1];
        }
        if exists i: nat :: i < |ms| && FailsAt(t, ms, i) {
          var i: nat :| i < |ms| && FailsAt(t, ms, i);
          assert i > 0 && FailsAt(next.t, ms[1..], i - 1);
        }
        if Replayed(t, ms) == EmptyStack {
          var i: nat :| i < |ms[1..]| && FailsAt(next.t, ms[1..], i);
          assert FailsAt(t, ms, i + 1);
        }
      }
    }
  }

  // ---- addresses in a tree ----

  function Ids(n: Node): set<nat> {
    if n.Param? then {n.id} else {n.id} + IdsAll(n.children)
  }

  function IdsAll(ns: seq<Node>): set<nat> {
    if ns == [] then {} else Ids(ns[0]) + IdsAll(ns[1..])
  }

  /** No two nodes of the tree share an address. */
  predicate Distinct(n: Node) {
    n.Group? ==> n.id !in IdsAll(n.children) && AllDistinct(n.children)
  }

  predicate AllDistinct(ns: seq<Node>) {
    ns == [] || (Distinct(ns[0]) && Ids(ns[0]) !! IdsAll(ns[1..]) && AllDistinct(ns[1..]))
  }

  /** n stands d levels below the root. */
  ghost predicate AtDepth(root: Node, n: Node, d: nat)
    decreases d
  {
    if d == 0 then n == root
    else root.Group? && exists i :: 0 <= i < |root.children| && AtDepth(root.children[i], n, d - 1)
  }

  lemma {:induction false} IdsAt(ns: seq<Node>, i: nat)
    requires i < |ns|
    ensures Ids(ns[i]) <= IdsAll(ns)
  {
    if i > 0 { IdsAt(ns[1..], i - 1); }
  }

  lemma {:induction false} DistinctAt(ns: seq<Node>, i: nat, j: nat)
    requires AllDistinct(ns) && i <= j < |ns|
    ensures Distinct(ns[j]) && (i < j ==> Ids(ns[i]) !! Ids(ns[j]))
  {
    if i > 0 {
      DistinctAt(ns[1..], i - 1, j - 1);
    } else if j > 0 {
      DistinctAt(ns[1..], 0, j - 1);
      IdsAt(ns[1..], j - 1);
    }
  }

  lemma {:induction false} DepthId(root: Node, n: Node, d: nat)
    requires AtDepth(root, n, d)
    ensures n.id in Ids(root) && (d > 0 ==> root.Group? && n.id in IdsAll(root.children))
    decreases d
  {
    if d > 0 {
      var i :| 0 <= i < |root.children| && AtDepth(root.children[i], n, d - 1);
      DepthId(root.children[i], n, d - 1);
      IdsAt(root.children, i);
    }
  }

  /** An address stands for one node at one depth. */
  lemma {:induction false} DepthUnique(root: Node, a: Node, d: nat, b: Node, e: nat)
    requires Distinct(root) && AtDepth(root, a, d) && AtDepth(root, b, e) && a.id == b.id
    ensures a == b && d == e
    decreases d
  {
    DepthId(root, a, d);
    DepthId(root, b, e);
    if d > 0 && e > 0 {
      var ns := root.children;
      var i :| 0 <= i < |ns| && AtDepth(ns[i], a, d - 1);
      var j :| 0 <= j < |ns| && AtDepth(ns[j], b, e - 1);
      DepthId(ns[i], a, d - 1);
      DepthId(ns[j], b, e - 1);
      DistinctAt(ns, if i <= j then i else j, if i <= j then j else i);
      DepthUnique(ns[i], a, d - 1, b, e - 1);
    }
  }

  lemma {:induction false} ChildDepth(root: Node, g: Node, d: nat, i: nat)
    requires AtDepth(root, g, d) && g.Group? && i < |g.children|
    ensures AtDepth(root, g.children[i], d + 1)
    decreases d
  {
    if d == 0 {
      assert AtDepth(root.children[i], g.children[i], 0);
    } else {
      var j :| 0 <= j < |root.children| && AtDepth(root.children[j], g, d - 1);
      ChildDepth(root.children[j], g, d - 1, i);
    }
  }

  // ---- positions of a run ----

  /** Frame i lies in some group i levels below the root; not necessarily in the current node of frame i - 1. */
  ghost predicate Placed(root: Node, s: Stack) {
    forall i :: 0 <= i < |s| ==> AtDepth(root, s[i].parent, i)
  }

  ghost predicate MementoPlaced(root: Node, m: Memento) {
    m.Point? ==> m.level >= 1 && AtDepth(root, m.frame.parent, m.level - 1)
  }

  ghost predicate InTree(root: Node, t: Scoped) {
    Placed(root, t.pos) && forall i :: 0 <= i < |t.scopes| ==> MementoPlaced(root, t.scopes[i])
  }

  /** r has the groups of s, or those of its lowest frames. */
  predicate Shortened(r: Stack, s: Stack) {
    |r| <= |s| && forall i :: 0 <= i < |r| ==> r[i].parent == s[i].parent
  }

  lemma {:induction false} SiblingShortens(s: Stack)
    requires StackOk(s)
    ensures Shortened(NextSibling(s), s)
  {
    if s != [] && Top(s).cur + 1 >= Top(s).end { SiblingShortens(Rest(s)); }
  }

  lemma AfterSiblingsShortens(s: Stack)
    requires StackOk(s)
    ensures Shortened(NextAfterSiblings(s), s)
  {
    if s != [] { SiblingShortens(Rest(s) + [Top(s).(cur := Top(s).end - 1)]); }
  }

  lemma {:induction false} SkippingKeeps(s: Stack)
    requires StackOk(s)
    ensures Shortened(SkipAlternatives(s), s)
  {
    if s != [] { SkippingKeeps(Rest(s)); }
  }

  lemma CurrentPlaced(root: Node, s: Stack, i: nat)
    requires StackOk(s) && Placed(root, s) && i < |s|
    ensures AtDepth(root, NodeAt(s[i]), i + 1)
  {
    ChildDepth(root, s[i].parent, i, s[i].cur);
  }

  lemma NextPlaced(root: Node, s: Stack)
    requires StackOk(s) && Placed(root, s)
    ensures Placed(root, Next(s))
  {
    hide AtDepth, NextSibling, Inhabited;
    if s != [] {
      CurrentPlaced(root, s, |s| - 1);
      SiblingShortens(s);
      if Current(s).Group? {
        BeginPlaced(root, s, Current(s));
      }
    }
  }

  lemma BeginPlaced(root: Node, s: Stack, g: Node)
    requires Placed(root, s) && g.Group? && AtDepth(root, g, |s|)
    ensures Placed(root, s + Begin(g))
  {
    hide AtDepth;
  }

  lemma UndoPlaced(root: Node, s: Stack, m: Memento)
    requires StackOk(s) && MementoOk(m) && Placed(root, s) && MementoPlaced(root, m)
    ensures Placed(root, Undo(s, m))
  {
  }

  lemma PopPlaced(root: Node, t: Scoped)
    requires ScopedOk(t) && InTree(root, t) && t.scopes != []
    ensures InTree(root, PopScope(t))
  {
    UndoPlaced(root, t.pos, LastScope(t));
  }

  lemma {:induction false} PopAllPlaced(root: Node, t: Scoped)
    requires ScopedOk(t) && InTree(root, t)
    ensures InTree(root, PopAll(t))
    decreases |t.scopes|
  {
    hide InTree;
    if t.scopes != [] {
      PopPlaced(root, t);
      PopAllPlaced(root, PopScope(t));
    }
  }

  lemma {:induction false} PopDeepPlaced(root: Node, t: Scoped, margin: nat)
    requires ScopedOk(t) && InTree(root, t)
    ensures InTree(root, PopDeep(t, margin))
    decreases |t.scopes|
  {
    hide InTree;
    if t.scopes != [] {
      PopPlaced(root, t);
      if Level(LastScope(t)) >= |t.pos| + margin { PopDeepPlaced(root, PopScope(t), margin); }
    }
  }

  lemma {:induction false} LevelPlaced(root: Node, t: Scoped, level: nat)
    requires ScopedOk(t) && InTree(root, t)
    ensures InTree(root, ReturnToLevel(t, level))
    decreases |t.scopes|
  {
    hide InTree;
    if t.scopes != [] {
      PopPlaced(root, t);
      if |t.pos| > level { LevelPlaced(root, PopScope(t), level); }
    }
  }

  lemma OutermostPlaced(root: Node, t: Scoped)
    requires ScopedOk(t) && InTree(root, t)
    ensures InTree(root, ReturnToOutermost(t))
  {
    PopAllPlaced(root, t.(after := []));
  }

  lemma MovingPlaced(root: Node, t: Scoped)
    requires ScopedOk(t) && InTree(root, t) && t.pos != []
    ensures InTree(root, Moving(t))
  {
    hide AtDepth, Blocking, ReturnToOutermost, MementoPlaced;
    var g := Explored(t.pos);
    NextPlaced(root, t.pos);
    SiblingShortens(t.pos);
    AfterSiblingsShortens(t.pos);
    OutermostPlaced(root, t.(pos := []));
    if g.TheGroup? { AfterSiblingsShortens(BackToAncestor(t.pos, g.id)); }
  }

  lemma StepPlaced(root: Node, t: Scoped)
    requires ScopedOk(t) && InTree(root, t)
    ensures InTree(root, ScopedNext(t))
  {
    hide InTree, Moving, ReturnToOutermost;
    if t.pos != [] {
      OutermostPlaced(root, t);
      MovingPlaced(root, t);
      var r := Moving(t);
      PopDeepPlaced(root, r, 0);
      AfterForgotten(root, PopDeep(r, 0));
      PopDeepPlaced(root, if r.after != [] && |r.pos| < |r.after| then PopDeep(r, 0).(after := []) else r, 1);
    }
  }

  lemma AfterForgotten(root: Node, t: Scoped)
    requires InTree(root, t)
    ensures InTree(root, t.(after := []))
  {
  }

  /** A search that starts in the tree ends in the tree. */
  lemma {:induction false} SearchPlaced(root: Node, t: Scoped, accepts: Node -> bool)
    requires ScopedOk(t) && InTree(root, t)
    ensures InTree(root, FirstMatch(t, accepts))
    decreases |t.scopes|, t.pos != [], NodesAhead(t)
  {
    hide InTree, ScopedNext, Ahead;
    if t.pos != [] && !(Current(t.pos).Param? && accepts(Current(t.pos))) {
      StepShrinks(t);
      StepPlaced(root, t);
      SearchPlaced(root, ScopedNext(t), accepts);
    }
  }

  lemma AfterBlockingPlaced(root: Node, t: Scoped, m: Stack)
    requires ScopedOk(t) && StackOk(m) && m != [] && InTree(root, t) && Placed(root, m)
    ensures InTree(root, AfterBlocking(t, m))
  {
    hide AtDepth, ReturnToLevel, LastInScope, OneShot, Next, Undo, FrameOk;
    var next := if OneShot(Current(m)) then Next(m) else m;
    NextPlaced(root, m);
    LevelPlaced(root, t, |next|);
    if t.scopes != [] { UndoPlaced(root, m, LastScope(t)); }
  }

  lemma ShortenedPlaced(root: Node, r: Stack, s: Stack)
    requires Shortened(r, s) && Placed(root, s)
    ensures Placed(root, r)
  {
  }

  lemma AnchorShortens(m: Stack)
    requires StackOk(m) && m != []
    ensures Shortened(Anchored(m), m)
  {
    hide Blocking, InnermostBlocking;
  }

  /** Going on behind a match in the tree stays in the tree. */
  lemma AfterMatchPlaced(root: Node, t: Scoped, m: Stack)
    requires ScopedOk(t) && StackOk(m) && InTree(root, t) && Placed(root, m)
    ensures NextAfterMatch(t, m).Continues? ==> InTree(root, NextAfterMatch(t, m).t)
  {
    hide AtDepth, MementoPlaced, AfterBlocking, ReturnToLevel, Blocking, SkipAlternatives, NextSibling;
    hide Anchored, SamePosition, IsAlternative, Inhabited, Placed;
    if m != [] && !t.ignoreBlocks && Anchored(m) != [] && t.pos != [] {
      var anchor := Anchored(m);
      AnchorShortens(m);
      ShortenedPlaced(root, anchor, m);
      SkippingKeeps(anchor);
      ShortenedPlaced(root, SkipAlternatives(anchor), anchor);
      SiblingShortens(t.pos);
      ShortenedPlaced(root, NextSibling(t.pos), t.pos);
      var here := if !SamePosition(anchor, t.pos) && Blocking(Current(t.pos)) then NextSibling(t.pos) else t.pos;
      var left := t.(lastMatch := m, pos := here);
      AfterBlockingPlaced(root, left, if IsAlternative(anchor) then SkipAlternatives(anchor) else anchor);
      LevelPlaced(root, left, |anchor|);
    }
  }

  // ---- where it happens ----

  /** The innermost blocking group is the root, or no longer the node the frame below it stands at. */
  ghost predicate Stranded(m: Stack)
    requires StackOk(m)
  {
    exists k: nat :: InnermostIs(m, k) && (k == 0 || NodeAt(m[k - 1]) != m[k].parent)
  }

  /** For every position in a tree, going back empties the stack exactly when a node that does not block lies
      in the root itself, or in a group the frame below has moved away from, with no blocking group between. */
  lemma EmptiedWhereStranded(root: Node, m: Stack)
    requires Distinct(root) && StackOk(m) && m != [] && Placed(root, m)
    ensures Anchored(m) == [] <==> !Blocking(Current(m)) && Stranded(m)
  {
    hide Blocking, AtDepth, Distinct;
    EmptiedExactly(m);
    if Stranded(m) {
      var k: nat :| InnermostIs(m, k) && (k == 0 || NodeAt(m[k - 1]) != m[k].parent);
      OnStackBelow(root, m, k);
      assert !OnStack(m, m[k].parent.id);
    }
    forall k: nat | InnermostIs(m, k) && !OnStack(m, m[k].parent.id)
      ensures Stranded(m)
    {
      OnStackBelow(root, m, k);
      assert k == 0 || NodeAt(m[k - 1]) != m[k].parent;
    }
  }

  /** A group whose children are at frame k can only be current in the frame below. */
  lemma OnStackBelow(root: Node, m: Stack, k: nat)
    requires Distinct(root) && StackOk(m) && Placed(root, m) && k < |m|
    ensures OnStack(m, m[k].parent.id) <==> k > 0 && NodeAt(m[k - 1]) == m[k].parent
  {
    hide AtDepth, Distinct;
    if OnStack(m, m[k].parent.id) {
      var i :| 0 <= i < |m| && IsGroup(NodeAt(m[i]), m[k].parent.id);
      CurrentPlaced(root, m, i);
      DepthUnique(root, NodeAt(m[i]), i + 1, m[k].parent, k);
    } else if k > 0 {
      assert !IsGroup(NodeAt(m[k - 1]), m[k].parent.id);
    }
  }

  /** One argument after the other: each is searched for from where the one before led, and taken up if found. */
  function Parsed(t: Scoped, tests: seq<Node -> bool>): (r: AfterMatch)
    requires ScopedOk(t)
    ensures r.Continues? ==> ScopedOk(r.t)
    decreases |tests|
  {
    if tests == [] || t.pos == [] then Continues(t)
    else
      match NextAfterMatch(t, FirstMatch(t, tests[0]).pos)
      case EmptyStack => EmptyStack
      case Continues(r) => Parsed(r, tests[1..])
  }

  lemma {:induction false} ParsedPlaced(root: Node, t: Scoped, tests: seq<Node -> bool>)
    requires ScopedOk(t) && InTree(root, t) && Parsed(t, tests).Continues?
    ensures InTree(root, Parsed(t, tests).t)
    decreases |tests|
  {
    hide InTree, FirstMatch, NextAfterMatch;
    if tests != [] && t.pos != [] {
      SearchPlaced(root, t, tests[0]);
      var m := FirstMatch(t, tests[0]).pos;
      InTreePlaced(root, FirstMatch(t, tests[0]));
      AfterMatchPlaced(root, t, m);
      ParsedPlaced(root, NextAfterMatch(t, m).t, tests[1..]);
    }
  }

  lemma InTreePlaced(root: Node, t: Scoped)
    requires InTree(root, t)
    ensures Placed(root, t.pos)
  {
  }

  lemma StartInTree(root: Node)
    requires root.Group? && Inhabited(root)
    ensures ScopedOk(Start(root)) && InTree(root, Start(root))
  {
  }

  /** Such a run is one of those whose steps were shown to end. */
  lemma {:induction false} ParsedReaches(t: Scoped, tests: seq<Node -> bool>) returns (events: seq<Event>)
    requires ScopedOk(t) && Parsed(t, tests).Continues?
    ensures Reaches(t, events, Parsed(t, tests).t)
    decreases |tests|
  {
    hide FirstMatch, NextAfterMatch;
    if tests == [] || t.pos == [] {
      events := [];
    } else {
      var m := FirstMatch(t, tests[0]).pos;
      var rest := ParsedReaches(NextAfterMatch(t, m).t, tests[1..]);
      events := [Matched(m)] + rest;
      assert events[1..] == rest;
    }
  }

  /** In a tree without empty groups, after any arguments and for any next one, the code looks at the top of
      an empty stack exactly when the match found does not block and is stranded. */
  lemma RunEmpties(root: Node, tests: seq<Node -> bool>, t: Scoped, accepts: Node -> bool)
    requires root.Group? && Inhabited(root) && Distinct(root)
    requires ScopedOk(Start(root)) && Parsed(Start(root), tests) == Continues(t) && t.pos != []
    ensures var m := FirstMatch(t, accepts).pos;
      NextAfterMatch(t, m) == EmptyStack <==> m != [] && !t.ignoreBlocks && !Blocking(Current(m)) && Stranded(m)
  {
    hide FirstMatch, Anchored, InTree, Stranded, Distinct;
    StartInTree(root);
    ParsedPlaced(root, Start(root), tests);
    SearchPlaced(root, t, accepts);
    InTreePlaced(root, FirstMatch(t, accepts));
    var m := FirstMatch(t, accepts).pos;
    if m != [] { EmptiedWhereStranded(root, m); }
  }

  /** Where no group blocks no run gets there. */
  lemma {:induction false} NeverWithoutBlockingGroups(root: Node, t: Scoped, tests: seq<Node -> bool>)
    requires Distinct(root) && ScopedOk(t) && InTree(root, t)
    requires forall g: Node, d: nat :: g.Group? && AtDepth(root, g, d) ==> !Blocking(g)
    ensures Parsed(t, tests).Continues?
    decreases |tests|
  {
    hide InTree, FirstMatch, Blocking, AtDepth;
    if tests != [] && t.pos != [] {
      SearchPlaced(root, t, tests[0]);
      var m := FirstMatch(t, tests[0]).pos;
      InTreePlaced(root, FirstMatch(t, tests[0]));
      if m != [] {
        EmptiedWhereStranded(root, m);
        assert forall k: nat :: k < |m| ==> m[k].parent.Group? && AtDepth(root, m[k].parent, k);
      }
      AfterMatchPlaced(root, t, m);
      NeverWithoutBlockingGroups(root, NextAfterMatch(t, m).t, tests[1..]);
    }
  }

  // ---- paths ----

  /** Every frame lies in the group that is current in the frame below. */
  predicate IsPath(s: Stack)
    requires StackOk(s)
  {
    forall i :: 0 < i < |s| ==> s[i].parent == NodeAt(s[i - 1])
  }

  /** On a path it takes a root that is the only blocking group around a node that does not block. */
  lemma EmptiedByBlockingRoot(root: Node, m: Stack)
    requires Distinct(root) && StackOk(m) && m != [] && Placed(root, m) && IsPath(m)
    ensures Anchored(m) == [] <==>
      !Blocking(Current(m)) && Blocking(root) && forall i :: 0 < i < |m| ==> !Blocking(m[i].parent)
  {
    hide Blocking, Distinct;
    EmptiedWhereStranded(root, m);
    assert m[0].parent == root;
    if Blocking(root) && forall i :: 0 < i < |m| ==> !Blocking(m[i].parent) {
      assert InnermostIs(m, 0);
    }
  }

  lemma {:induction false} SiblingPath(s: Stack)
    requires StackOk(s) && IsPath(s)
    ensures IsPath(NextSibling(s))
  {
    if s != [] && Top(s).cur + 1 >= Top(s).end { SiblingPath(Rest(s)); }
  }

  /** No move leaves the paths. */
  lemma MovesKeepPaths(s: Stack, m: Move)
    requires StackOk(s) && IsPath(s)
    ensures IsPath(Moved(s, m))
  {
    match m
    case Step => SiblingPath(s);
    case Sibling => SiblingPath(s);
    case AfterSiblings => if s != [] { SiblingPath(Rest(s) + [Top(s).(cur := Top(s).end - 1)]); }
    case Ancestor(g) =>
    case LastSibling =>
  }

  /** Undoing does, exactly when the frame below the one put back stands at another group by then. */
  lemma UndoPath(s: Stack, m: Memento)
    requires StackOk(s) && MementoOk(m) && IsPath(s) && 1 <= Level(m) <= |s|
    ensures IsPath(Undo(s, m)) <==> m.level == 1 || m.frame.parent == NodeAt(s[m.level - 2])
  {
    var r := Undo(s, m);
    assert forall i :: 0 <= i < m.level - 1 ==> r[i] == s[i];
    assert r[m.level - 1] == m.frame;
  }

  // ---- runs that get there ----

  function Named(id: nat): Node -> bool {
    (n: Node) => n.id == id
  }

  /** One parameter that does not block, directly below a blocking root. */
  lemma BlockingRootRun()
    ensures var root := Group(0, true, false, false, [Param(1, false, false)]);
      Inhabited(root) && Distinct(root) && ScopedOk(Start(root)) && Parsed(Start(root), [Named(1)]) == EmptyStack
  {
    var root := Group(0, true, false, false, [Param(1, false, false)]);
    var m := Begin(root);
    assert Rest(m) == [];
    assert FirstMatch(Start(root), Named(1)) == Start(root);
  }

  /** A group whose second parameter may repeat, beside a blocking alternative; its root does not block. */
  function Repeating(): Node {
    Group(1, true, false, false, [Param(2, true, false), Param(3, false, true)])
  }

  function Inner(): Node {
    Group(5, true, false, false, [Param(6, true, false), Param(7, false, false)])
  }

  function Sample(): Node {
    Group(0, false, false, false, [Repeating(), Group(4, false, false, true, [Inner()])])
  }

  /** Child j of the first group, with the root at its child i; a path only if i is 0. */
  function InRepeating(i: nat, j: nat): Stack {
    [Frame(Sample(), i, 2), Frame(Repeating(), j, 2)]
  }

  function InInner(j: nat): Stack {
    [Frame(Sample(), 1, 2), Frame(Sample().children[1], 0, 1), Frame(Inner(), j, 2)]
  }

  const RootLeft: Memento := Point(1, Frame(Sample(), 1, 2))

  function After2(): Scoped {
    Scoped(InRepeating(0, 1), InRepeating(0, 0), InRepeating(0, 1), [RootLeft], false)
  }

  function After6(): Scoped {
    Scoped(InInner(1), InInner(0), InInner(1), [RootLeft, Point(2, Frame(Repeating(), 1, 2))], false)
  }

  function After7(): Scoped {
    Scoped(InRepeating(1, 1), InInner(1), InRepeating(1, 1), [RootLeft], false)
  }

  lemma Run2()
    ensures Inhabited(Sample()) && ScopedOk(Start(Sample()))
    ensures FirstMatch(Start(Sample()), Named(2)).pos == InRepeating(0, 0)
  {
  }

  lemma Taken2()
    ensures ScopedOk(Start(Sample())) && StackOk(InRepeating(0, 0))
    ensures NextAfterMatch(Start(Sample()), InRepeating(0, 0)) == Continues(After2())
  {
    hide AfterBlocking, SkipAlternatives, Anchored, IsAlternative, SamePosition, NextSibling;
    Anchor2();
    SavedAt2();
  }

  lemma Anchor2()
    ensures var t, m := Start(Sample()), InRepeating(0, 0);
      && ScopedOk(t) && t.pos != [] && StackOk(m) && Anchored(m) == m && !IsAlternative(m) && Blocking(Current(m))
      && !SamePosition(m, t.pos) && Blocking(Current(t.pos)) && NextSibling(t.pos) == [Frame(Sample(), 1, 2)]
  {
  }

  lemma SavedAt2()
    ensures var t, m := Start(Sample()).(lastMatch := InRepeating(0, 0), pos := [Frame(Sample(), 1, 2)]), InRepeating(0, 0);
      && ScopedOk(t) && StackOk(m)
      && AfterBlocking(t, m).(after := InRepeating(0, 1)) == After2() && After2().pos == InRepeating(0, 1)
  {
    assert Next(InRepeating(0, 0)) == InRepeating(0, 1);
  }

  /** On the way to node 6 the first group is left and its scope with it. */
  function ToInner(n: nat): Scoped
    requires n <= 3
  {
    Scoped(InInner(0)[..n], InRepeating(0, 0), [], [], false)
  }

  lemma LeavesRepeating()
    ensures ScopedOk(After2()) && After2().pos != [] && Current(After2().pos) == Param(3, false, true)
    ensures ScopedNext(After2()) == ToInner(1)
  {
    hide Moving, CheckIfLeftScope;
    MovesOut();
    assert After2().pos[0].cur + 1 != After2().pos[0].end;
    LeavesScope();
  }

  lemma MovesOut()
    ensures ScopedOk(After2()) && Moving(After2()) == After2().(pos := InInner(0)[..1])
  {
    var s := InRepeating(0, 1);
    assert Rest(s) == [s[0]] && Rest(Rest(s)) == [];
    assert !Blocking(Current(s)) && Blocking(Repeating());
    assert Explored(s) == TheGroup(1);
    assert After2().lastMatch[1].parent.id == 1;
    assert NextSibling(s) == InInner(0)[..1];
  }

  lemma LeavesScope()
    ensures ScopedOk(After2().(pos := InInner(0)[..1]))
    ensures CheckIfLeftScope(After2().(pos := InInner(0)[..1])) == ToInner(1)
  {
  }

  lemma EntersInner(n: nat)
    requires 1 <= n <= 2
    ensures ScopedOk(ToInner(n)) && ToInner(n).pos != [] && Current(ToInner(n).pos).Group? && ScopedNext(ToInner(n)) == ToInner(n + 1)
  {
    var s := InInner(0)[..n];
    assert Next(s) == InInner(0)[..n + 1];
  }

  lemma Run6()
    ensures ScopedOk(After2()) && FirstMatch(After2(), Named(6)) == ToInner(3)
    ensures StackOk(InInner(0)) && ToInner(3).pos == InInner(0)
  {
    hide ScopedNext, ToInner, After2, FirstMatch;
    LeavesRepeating();
    SearchStep(After2(), Named(6));
    EntersInner(1);
    SearchStep(ToInner(1), Named(6));
    EntersInner(2);
    SearchStep(ToInner(2), Named(6));
    FoundInner();
  }

  lemma SearchStep(t: Scoped, accepts: Node -> bool)
    requires ScopedOk(t) && t.pos != []
    ensures FirstMatch(t, accepts) ==
      if Current(t.pos).Param? && accepts(Current(t.pos)) then t else FirstMatch(ScopedNext(t), accepts)
  {
  }

  lemma FoundInner()
    ensures ToInner(3).pos == InInner(0) && StackOk(InInner(0))
    ensures ScopedOk(ToInner(3)) && FirstMatch(ToInner(3), Named(6)) == ToInner(3)
  {
  }

  lemma Taken6()
    ensures ScopedOk(After2()) && StackOk(InInner(0)) && NextAfterMatch(After2(), InInner(0)) == Continues(After6())
  {
    hide AfterBlocking, SkipAlternatives, Anchored, IsAlternative, SamePosition;
    Anchor6();
    NothingToSkip(InInner(0));
    SavedAt6();
  }

  lemma Anchor6()
    ensures StackOk(InInner(0)) && Anchored(InInner(0)) == InInner(0) && IsAlternative(InInner(0))
    ensures ScopedOk(After2()) && !SamePosition(InInner(0), After2().pos) && !Blocking(Current(After2().pos))
    ensures Blocking(Current(InInner(0)))
  {
    assert InInner(0)[1].parent.exclusive;
  }

  lemma SavedAt6()
    ensures var t := After2().(lastMatch := InInner(0));
      && ScopedOk(t) && StackOk(InInner(0))
      && AfterBlocking(t, InInner(0)).(after := InInner(1)) == After6() && After6().pos == InInner(1)
  {
    var m := InInner(0);
    assert Next(m) == InInner(1);
  }

  lemma {:induction false} NothingToSkip(s: Stack)
    requires StackOk(s) && forall i :: 0 <= i < |s| && s[i].parent.exclusive ==> s[i].end == s[i].cur + 1
    ensures SkipAlternatives(s) == s
  {
    if s != [] {
      var f := Top(s);
      assert FrameOk(f) && f.parent.Group?;
      hide FrameOk, Inhabited;
      assert SkipAlternatives(s) == SkipAlternatives(Rest(s)) + [if f.parent.exclusive then f.(end := f.cur + 1) else f];
      NothingToSkip(Rest(s));
      hide SkipAlternatives;
      assert s == Rest(s) + [f] && f == s[|s| - 1];
    }
  }

  lemma Run7()
    ensures ScopedOk(After6()) && FirstMatch(After6(), Named(7)).pos == InInner(1)
  {
  }

  lemma Taken7()
    ensures ScopedOk(After6()) && StackOk(InInner(1))
    ensures NextAfterMatch(After6(), InInner(1)) == Continues(After7())
  {
    hide AfterBlocking, SkipAlternatives, Anchored, IsAlternative, SamePosition;
    Anchor7();
    NothingToSkip(InInner(0)[..2]);
    SavedAt7();
  }

  lemma Anchor7()
    ensures var t, m, anchor := After6(), InInner(1), InInner(0)[..2];
      && ScopedOk(t) && t.pos != [] && StackOk(m) && Anchored(m) == anchor && StackOk(anchor)
      && IsAlternative(anchor) && Blocking(Current(anchor))
      && !SamePosition(anchor, t.pos) && !Blocking(Current(t.pos))
  {
    var m := InInner(1);
    assert Rest(m) == InInner(0)[..2];
    assert InInner(0)[..2][1].parent.exclusive;
  }

  lemma SavedAt7()
    ensures var t, anchor := After6().(lastMatch := InInner(1)), InInner(0)[..2];
      && ScopedOk(t) && StackOk(anchor)
      && AfterBlocking(t, anchor).(after := InRepeating(1, 1)) == After7() && After7().pos == InRepeating(1, 1)
  {
    var t, anchor := After6().(lastMatch := InInner(1)), InInner(0)[..2];
    assert Next(anchor) == InInner(0);
    assert PopScope(t).pos == InRepeating(1, 1);
  }

  lemma Run3()
    ensures ScopedOk(After7()) && FirstMatch(After7(), Named(3)).pos == InRepeating(1, 1)
    ensures StackOk(InRepeating(1, 1)) && !IsPath(InRepeating(1, 1))
    ensures NextAfterMatch(After7(), InRepeating(1, 1)) == EmptyStack
  {
    var s := InRepeating(1, 1);
    assert s[1].parent != NodeAt(s[0]);
  }

  /** Below a root that does not block: the third match goes back to a scope whose frame lies in a group the
      root has moved away from, and the fourth, in that group, empties the stack. */
  lemma StrandedRun()
    ensures var root, tests := Sample(), [Named(2), Named(6), Named(7)];
      && Inhabited(root) && Distinct(root) && !Blocking(root) && ScopedOk(Start(root))
      && Parsed(Start(root), tests) == Continues(After7()) && ScopedOk(After7())
      && !IsPath(FirstMatch(After7(), Named(3)).pos)
      && NextAfterMatch(After7(), FirstMatch(After7(), Named(3)).pos) == EmptyStack
  {
    hide FirstMatch, NextAfterMatch, Parsed;
    SampleOk();
    Run2();
    Taken2();
    Run6();
    Taken6();
    Run7();
    Taken7();
    Run3();
    assert [Named(2), Named(6), Named(7)] == [Named(2)] + [Named(6), Named(7)];
    assert [Named(6), Named(7)] == [Named(6)] + [Named(7)] && [Named(7)] == [Named(7)] + [];
    ParsedStep(Start(Sample()), Named(2), [Named(6), Named(7)], After2());
    ParsedStep(After2(), Named(6), [Named(7)], After6());
    ParsedStep(After6(), Named(7), [], After7());
  }

  lemma SampleOk()
    ensures Inhabited(Sample()) && Distinct(Sample()) && !Blocking(Sample())
  {
  }

  lemma ParsedStep(t: Scoped, test: Node -> bool, tests: seq<Node -> bool>, r: Scoped)
    requires ScopedOk(t) && t.pos != [] && NextAfterMatch(t, FirstMatch(t, test).pos) == Continues(r)
    ensures Parsed(t, [test] + tests) == Parsed(r, tests) && (tests == [] ==> Parsed(r, tests) == Continues(r))
  {
    assert ([test] + tests)[1..] == tests;
  }

  /** Two flags that may be joined, and files, which block and may repeat. */
  function FlagsAndFiles(): Node {
    Group(0, false, false, false, [Param(1, false, false), Param(2, false, false), Param(3, true, true)])
  }

  function AtChild(j: nat): Stack {
    [Frame(FlagsAndFiles(), j, 3)]
  }

  function AfterFile(): Scoped {
    Scoped(AtChild(2), AtChild(2), AtChild(2), [], false)
  }

  /** A file, and then both flags joined: they are found one after the other from the beginning, but taking up
      the first of them moves the traversal off the files, where nothing follows, and leaves no position at
      which to take up the second. */
  lemma JoinedRun()
    ensures var root := FlagsAndFiles();
      && Inhabited(root) && Distinct(root) && ScopedOk(Start(root)) && AllOk([AtChild(0), AtChild(1)])
      && Parsed(Start(root), [Named(3)]) == Continues(AfterFile())
      && ScopedOk(AfterFile()) && Replayed(AfterFile(), [AtChild(0), AtChild(1)]) == EmptyStack
  {
    hide Parsed, NextAfterMatch, FirstMatch, ScopedOk, Start, AfterFile, AtChild;
    FilesOk();
    FileFound();
    FileTaken();
    TakenOff();
    ParsedStep(Start(FlagsAndFiles()), Named(3), [], AfterFile());
    assert [Named(3)] + [] == [Named(3)];
    var ms := [AtChild(0), AtChild(1)];
    assert ms[1..] == [AtChild(1)];
    TakenUpExactly(NextAfterMatch(AfterFile(), AtChild(0)).t, AtChild(1));
  }

  lemma FilesOk()
    ensures Inhabited(FlagsAndFiles()) && Distinct(FlagsAndFiles())
    ensures StackOk(AtChild(0)) && StackOk(AtChild(1)) && AtChild(1) != []
  {
  }

  lemma FileFound()
    ensures var t := Start(FlagsAndFiles());
      ScopedOk(t) && t.pos != [] && FirstMatch(t, Named(3)).pos == AtChild(2)
  {
    hide FirstMatch, ScopedNext;
    var t := Start(FlagsAndFiles());
    FlagPassed(0);
    FlagPassed(1);
    SearchStep(t, Named(3));
    SearchStep(t.(pos := AtChild(1)), Named(3));
    SearchStep(t.(pos := AtChild(2)), Named(3));
  }

  lemma FlagPassed(j: nat)
    requires j < 2
    ensures var t := Start(FlagsAndFiles()).(pos := AtChild(j));
      && ScopedOk(t) && ScopedNext(t) == t.(pos := AtChild(j + 1)) && ScopedOk(t.(pos := AtChild(j + 1)))
  {
    assert AtChild(j)[0].cur + 1 != AtChild(j)[0].end;
  }

  lemma FileTaken()
    ensures ScopedOk(Start(FlagsAndFiles())) && ScopedOk(AfterFile()) && StackOk(AtChild(2))
    ensures NextAfterMatch(Start(FlagsAndFiles()), AtChild(2)) == Continues(AfterFile())
  {
  }

  /** A parser that starts afresh finds both flags. */
  lemma FlagsFound()
    ensures var t := Start(FlagsAndFiles()); var u := t.(lastMatch := AtChild(0), after := AtChild(0));
      && ScopedOk(t) && ScopedOk(u) && FirstMatch(t, Named(1)).pos == AtChild(0)
      && NextAfterMatch(t, AtChild(0)) == Continues(u) && FirstMatch(u, Named(2)).pos == AtChild(1)
  {
    FlagTaken();
    FlagPassedAgain();
    hide ScopedNext, NextAfterMatch, FirstMatch;
    var t := Start(FlagsAndFiles());
    var u := t.(lastMatch := AtChild(0), after := AtChild(0));
    SearchStep(t, Named(1));
    SearchStep(u, Named(2));
    SearchStep(u.(pos := AtChild(1)), Named(2));
  }

  lemma FlagTaken()
    ensures var t := Start(FlagsAndFiles());
      ScopedOk(t) && NextAfterMatch(t, AtChild(0)) == Continues(t.(lastMatch := AtChild(0), after := AtChild(0)))
  {
  }

  lemma FlagPassedAgain()
    ensures var u := Start(FlagsAndFiles()).(lastMatch := AtChild(0), after := AtChild(0));
      ScopedOk(u) && ScopedOk(u.(pos := AtChild(1))) && ScopedNext(u) == u.(pos := AtChild(1))
  {
    assert AtChild(0)[0].cur + 1 != AtChild(0)[0].end;
  }

  lemma TakenOff()
    ensures ScopedOk(AfterFile()) && StackOk(AtChild(0)) && StackOk(AtChild(1))
    ensures NextAfterMatch(AfterFile(), AtChild(0)).Continues? && NextAfterMatch(AfterFile(), AtChild(0)).t.pos == []
    ensures !NextAfterMatch(AfterFile(), AtChild(0)).t.ignoreBlocks
  {
  }
}
