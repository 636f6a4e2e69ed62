/** Depth-first traversal of a tree of command-line parameters by an explicit stack of frames, as
    functions on the stack, and what a whole traversal visits. */
module Traversal {
  /** A parameter or a group of them.  The identity stands for the address: two groups are the same
      group when their identities agree. */
  datatype Node =
    | Param(id: nat, blocks: bool, repeatable: bool)
    | Group(id: nat, blocks: bool, repeatable: bool, exclusive: bool, children: seq<Node>)

  /** Unmatched, the node holds up the traversal: so it is marked, or all of its alternatives are. */
  predicate Blocking(n: Node) {
    n.blocks || (n.Group? && n.exclusive && AllBlocking(n.children))
  }

  predicate AllBlocking(ns: seq<Node>) {
    ns == [] || (Blocking(ns[0]) && AllBlocking(ns[1..]))
  }

  /** No group in the tree is empty. */
  predicate Inhabited(n: Node) {
    n.Group? ==> n.children != [] && AllInhabited(n.children)
  }

  predicate AllInhabited(ns: seq<Node>) {
    ns == [] || (Inhabited(ns[0]) && AllInhabited(ns[1..]))
  }

  lemma {:induction false} InhabitedAt(ns: seq<Node>, i: nat)
    requires AllInhabited(ns) && i < |ns|
    ensures Inhabited(ns[i])
  {
    if i > 0 { InhabitedAt(ns[1..], i - 1); }
  }

  /** The node and everything below it, each before its children. */
  function Preorder(n: Node): (s: seq<Node>)
    ensures |s| > 0 && s[0] == n
  {
    if n.Param? then [n] else [n] + PreorderAll(n.children)
  }

  function PreorderAll(ns: seq<Node>): seq<Node> {
    if ns == [] then [] else Preorder(ns[0]) + PreorderAll(ns[1..])
  }

  // ---- frames ----

  /** A position among the children of a group, of which those before `end` are still to be visited. */
  datatype Frame = Frame(parent: Node, cur: nat, end: nat)

  predicate FrameOk(f: Frame) {
    f.parent.Group? && f.cur < f.end <= |f.parent.children| && Inhabited(f.parent)
  }

  function NodeAt(f: Frame): (n: Node)
    requires FrameOk(f)
    ensures Inhabited(n)
  {
    InhabitedAt(f.parent.children, f.cur);
    f.parent.children[f.cur]
  }

  type Stack = seq<Frame>

  predicate StackOk(s: Stack) {
    forall i :: 0 <= i < |s| ==> FrameOk(s[i])
  }

  function Top(s: Stack): Frame
    requires s != []
  {
    s[|s| - 1]
  }

  function Rest(s: Stack): (r: Stack)
    requires s != []
    ensures StackOk(s) ==> StackOk(r)
  {
    s[..|s| - 1]
  }

  function Current(s: Stack): (n: Node)
    requires s != [] && StackOk(s)
    ensures Inhabited(n)
  {
    NodeAt(Top(s))
  }

  // ---- moves ----

  /** The first child of a group. */
  function Begin(g: Node): Stack
    requires g.Group?
  {
    if g.children == [] then [] else [Frame(g, 0, |g.children|)]
  }

  function NextSibling(s: Stack): (r: Stack)
    requires StackOk(s)
    ensures StackOk(r) && |r| <= |s|
  {
    if s == [] then []
    else if Top(s).cur + 1 < Top(s).end then Rest(s) + [Top(s).(cur := Top(s).cur + 1)]
    else NextSibling(Rest(s))
  }

  /** One step of the traversal: into a group, else on to the next sibling. */
  function Next(s: Stack): (r: Stack)
    requires StackOk(s)
    ensures StackOk(r)
  {
    if s == [] then []
    else if Current(s).Group? then s + Begin(Current(s))
    else NextSibling(s)
  }

  function NextAfterSiblings(s: Stack): (r: Stack)
    requires StackOk(s)
    ensures StackOk(r)
  {
    if s == [] then [] else NextSibling(Rest(s) + [Top(s).(cur := Top(s).end - 1)])
  }

  /** Pops frames until the current node is the group g. */
  function BackToAncestor(s: Stack, g: nat): (r: Stack)
    requires StackOk(s)
    ensures StackOk(r) && r <= s
    ensures r != [] ==> Current(r).Group? && Current(r).id == g
  {
    if s == [] || (Current(s).Group? && Current(s).id == g) then s else BackToAncestor(Rest(s), g)
  }

  function SkipSiblings(s: Stack): (r: Stack)
    requires StackOk(s)
    ensures StackOk(r)
  {
    if s == [] then [] else Rest(s) + [Top(s).(end := Top(s).cur + 1)]
  }

  /** In every exclusive group the current alternative becomes the last. */
  function SkipAlternatives(s: Stack): (r: Stack)
    requires StackOk(s)
    ensures StackOk(r) && |r| == |s|
  {
    if s == [] then []
    else SkipAlternatives(Rest(s)) + [if Top(s).parent.exclusive then Top(s).(end := Top(s).cur + 1) else Top(s)]
  }

  /** Where the frame list stood at some depth. */
  datatype Memento = Nowhere | Point(level: nat, frame: Frame)

  function Level(m: Memento): nat {
    if m.Point? then m.level else 0
  }

  predicate MementoOk(m: Memento) {
    m.Point? ==> m.level >= 1 && FrameOk(m.frame)
  }

  function UndoPoint(s: Stack): Memento {
    if s == [] then Nowhere else Point(|s|, Top(s))
  }

  function Undo(s: Stack, m: Memento): (r: Stack)
    requires StackOk(s) && MementoOk(m)
    ensures StackOk(r)
  {
    if Level(m) < 1 then s
    else if Level(m) <= |s| then s[..m.level - 1] + [m.frame]
    else if s == [] && m.level == 1 then [m.frame]
    else s
  }

  // ---- what is still to be visited ----

  /** The nodes that follow the current one and everything below it. */
  function Following(s: Stack): seq<Node>
    requires StackOk(s)
  {
    if s == [] then []
    else PreorderAll(Top(s).parent.children[Top(s).cur + 1..Top(s).end]) + Following(Rest(s))
  }

  /** The nodes still to be visited, the current one first. */
  function Ahead(s: Stack): seq<Node>
    requires StackOk(s)
  {
    if s == [] then [] else Preorder(Current(s)) + Following(s)
  }

  /** The siblings after position `cur`, one at a time. */
  lemma SiblingsAfter(f: Frame)
    requires FrameOk(f) && f.cur + 1 < f.end
    ensures PreorderAll(f.parent.children[f.cur + 1..f.end])
         == Preorder(f.parent.children[f.cur + 1]) + PreorderAll(f.parent.children[f.cur + 2..f.end])
  {
    var tail := f.parent.children[f.cur + 1..f.end];
    assert tail[1..] == f.parent.children[f.cur + 2..f.end];
  }

  /** Going to the next sibling skips what is below the current node and nothing else. */
  lemma {:induction false} NextSiblingAhead(s: Stack)
    requires StackOk(s)
    ensures Ahead(NextSibling(s)) == Following(s)
  {
    hide Preorder, PreorderAll, Inhabited, FrameOk;
    if s != [] {
      var f := Top(s);
      if f.cur + 1 < f.end {
        var r := NextSibling(s);
        SiblingsAfter(f);
        assert Rest(r) == Rest(s) && Top(r) == f.(cur := f.cur + 1);
      } else {
        NextSiblingAhead(Rest(s));
        NoSiblings(f);
      }
    }
  }

  lemma NoSiblings(f: Frame)
    requires FrameOk(f) && f.cur + 1 >= f.end
    ensures f.cur + 1 == f.end && PreorderAll(f.parent.children[f.cur + 1..f.end]) == []
  {
  }

  lemma BeginAhead(g: Node)
    requires g.Group? && Inhabited(g)
    ensures Begin(g) != [] && StackOk(Begin(g)) && Ahead(Begin(g)) == PreorderAll(g.children)
  {
    var s := Begin(g);
    assert g.children[1..|g.children|] == g.children[1..];
    assert Following(Rest(s)) == [];
  }

  lemma DescendAhead(s: Stack, g: Node)
    requires StackOk(s) && g.Group? && Inhabited(g)
    ensures StackOk(s + Begin(g)) && Ahead(s + Begin(g)) == PreorderAll(g.children) + Following(s)
  {
    var f := Frame(g, 0, |g.children|);
    assert Rest(s + [f]) == s && Top(s + [f]) == f;
    assert g.children[1..|g.children|] == g.children[1..];
  }

  /** One step visits the current node and leaves the others, in order. */
  lemma NextAhead(s: Stack)
    requires StackOk(s) && s != []
    ensures Ahead(s) == [Current(s)] + Ahead(Next(s))
  {
    var n := Current(s);
    if n.Group? {
      DescendAhead(s, n);
    } else {
      NextSiblingAhead(s);
    }
  }

  /** k steps. */
  function Steps(s: Stack, k: nat): (r: Stack)
    requires StackOk(s)
    ensures StackOk(r)
    decreases k
  {
    if k == 0 then s else Steps(Next(s), k - 1)
  }

  lemma Over()
    ensures Ahead([]) == [] && Next([]) == []
  {
  }

  /** The k-th node visited is the k-th node ahead, and the traversal ends when all are visited. */
  lemma {:induction false} VisitsAhead(s: Stack, k: nat)
    requires StackOk(s)
    ensures k < |Ahead(s)| ==> Steps(s, k) != [] && Current(Steps(s, k)) == Ahead(s)[k]
    ensures k >= |Ahead(s)| ==> Steps(s, k) == []
    decreases k
  {
    hide Ahead, Next, FrameOk;
    if s == [] {
      Over();
      if k > 0 { VisitsAhead([], k - 1); }
    } else {
      NextAhead(s);
      if k > 0 { VisitsAhead(Next(s), k - 1); }
    }
  }

  /** From the first child of a group, stepping visits every node below the group exactly once, in
      preorder, and then the traversal is over. */
  lemma VisitsPreorder(g: Node, k: nat)
    requires g.Group? && Inhabited(g)
    ensures Steps(Begin(g), k) == [] <==> k >= |PreorderAll(g.children)|
    ensures k < |PreorderAll(g.children)| ==> Current(Steps(Begin(g), k)) == PreorderAll(g.children)[k]
  {
    BeginAhead(g);
    VisitsAhead(Begin(g), k);
  }

  // ---- undoing ----

  /** s has not left the level of s0: the frames below that level are those of s0. */
  predicate WithinLevel(s0: Stack, s: Stack) {
    s0 != [] && |s| >= |s0| && s[..|s0| - 1] == s0[..|s0| - 1]
  }

  lemma {:induction false} NextSiblingWithin(s0: Stack, s: Stack)
    requires StackOk(s) && WithinLevel(s0, s) && |NextSibling(s)| >= |s0|
    ensures WithinLevel(s0, NextSibling(s))
  {
    if Top(s).cur + 1 >= Top(s).end && |s| > |s0| {
      assert Rest(s)[..|s0| - 1] == s[..|s0| - 1];
      NextSiblingWithin(s0, Rest(s));
    }
  }

  datatype Move = Step | Sibling | AfterSiblings | Ancestor(g: nat) | LastSibling

  function Moved(s: Stack, m: Move): (r: Stack)
    requires StackOk(s)
    ensures StackOk(r)
  {
    match m
    case Step => Next(s)
    case Sibling => NextSibling(s)
    case AfterSiblings => NextAfterSiblings(s)
    case Ancestor(g) => BackToAncestor(s, g)
    case LastSibling => SkipSiblings(s)
  }

  /** The moves one after the other never leave the given depth. */
  predicate StaysAtOrBelow(s: Stack, moves: seq<Move>, depth: nat)
    requires StackOk(s)
    decreases |moves|
  {
    |s| >= depth && (moves == [] || StaysAtOrBelow(Moved(s, moves[0]), moves[1..], depth))
  }

  function Run(s: Stack, moves: seq<Move>): (r: Stack)
    requires StackOk(s)
    ensures StackOk(r)
    decreases |moves|
  {
    if moves == [] then s else Run(Moved(s, moves[0]), moves[1..])
  }

  lemma MoveWithin(s0: Stack, s: Stack, m: Move)
    requires StackOk(s) && WithinLevel(s0, s) && |Moved(s, m)| >= |s0|
    ensures WithinLevel(s0, Moved(s, m))
  {
    match m
    case Step =>
      if !Current(s).Group? { NextSiblingWithin(s0, s); }
    case Sibling => NextSiblingWithin(s0, s);
    case AfterSiblings =>
      var last := Rest(s) + [Top(s).(cur := Top(s).end - 1)];
      assert last[..|s0| - 1] == s[..|s0| - 1];
      NextSiblingWithin(s0, last);
    case Ancestor(g) =>
    case LastSibling =>
  }

  lemma {:induction false} RunWithin(s0: Stack, s: Stack, moves: seq<Move>)
    requires StackOk(s) && WithinLevel(s0, s) && StaysAtOrBelow(s, moves, |s0|)
    ensures WithinLevel(s0, Run(s, moves))
    decreases |moves|
  {
    if moves != [] {
      MoveWithin(s0, s, moves[0]);
      RunWithin(s0, Moved(s, moves[0]), moves[1..]);
    }
  }

  /** Undoing restores the exact stack after any moves that never leave its level. */
  lemma UndoRestores(s: Stack, moves: seq<Move>)
    requires StackOk(s) && s != [] && StaysAtOrBelow(s, moves, |s|)
    ensures Undo(Run(s, moves), UndoPoint(s)) == s
  {
    hide Run, StaysAtOrBelow, FrameOk;
    RunWithin(s, s, moves);
    assert s == Rest(s) + [Top(s)];
  }
}
