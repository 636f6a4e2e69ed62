/** The traversers as objects: a stack of frames changed step by step, and the scoped traverser on top of
    it with its saved scopes. */
module DepthFirstTraversers {
  import opened ScopedTraversal
  import opened Traversal

  class DepthFirstTraverser {
    var stack: Stack

    constructor (g: Node)
      requires g.Group? && Inhabited(g)
      ensures StackOk(stack) && stack == Begin(g)
    {
      stack := Begin(g);
    }

    constructor Copy(s: Stack)
      ensures stack == s
    {
      stack := s;
    }

    method Increment()
      requires StackOk(stack)
      modifies this
      ensures StackOk(stack) && stack == Traversal.Next(old(stack))
    {
      if stack == [] { return; }
      var n := Current(stack);
      if n.Group? {
        stack := stack + [Frame(n, 0, |n.children|)];
      } else {
        NextSibling();
      }
    }

    method NextSibling()
      requires StackOk(stack)
      modifies this
      ensures StackOk(stack) && stack == Traversal.NextSibling(old(stack))
    {
      if stack == [] { return; }
      Bump();
      while Top(stack).cur == Top(stack).end
        invariant stack != [] && StackOk(Rest(stack)) && Top(stack).cur <= Top(stack).end
        invariant Top(stack).cur < Top(stack).end ==> StackOk(stack) && stack == Traversal.NextSibling(old(stack))
        invariant Top(stack).cur == Top(stack).end ==>
          Traversal.NextSibling(Rest(stack)) == Traversal.NextSibling(old(stack))
        decreases |stack|
      {
        stack := Rest(stack);
        if stack == [] { return; }
        Bump();
      }
    }

    /** Moves the top frame one on, which may be past its end. */
    method Bump()
      requires stack != [] && StackOk(stack)
      modifies this
      ensures stack == Rest(old(stack)) + [Top(old(stack)).(cur := Top(old(stack)).cur + 1)]
    {
      stack := Rest(stack) + [Top(stack).(cur := Top(stack).cur + 1)];
    }

    method NextAfterSiblings()
      requires StackOk(stack)
      modifies this
      ensures StackOk(stack) && stack == Traversal.NextAfterSiblings(old(stack))
    {
      if stack == [] { return; }
      stack := Rest(stack) + [Top(stack).(cur := Top(stack).end - 1)];
      NextSibling();
    }

    method BackToAncestor(g: nat)
      requires StackOk(stack)
      modifies this
      ensures StackOk(stack) && stack == Traversal.BackToAncestor(old(stack), g)
    {
      while stack != []
        invariant StackOk(stack) && Traversal.BackToAncestor(stack, g) == Traversal.BackToAncestor(old(stack), g)
        decreases |stack|
      {
        if Current(stack).Group? && Current(stack).id == g { return; }
        stack := Rest(stack);
      }
    }

    method SkipAlternatives()
      requires StackOk(stack)
      modifies this
      ensures StackOk(stack) && stack == Traversal.SkipAlternatives(old(stack))
    {
      ghost var all := stack;
      for i := 0 to |stack|
        invariant |stack| == |all| && StackOk(stack)
        invariant stack[..i] == Traversal.SkipAlternatives(all[..i]) && stack[i..] == all[i..]
      {
        var f := stack[i];
        assert all[i..][1..] == all[i + 1..] && stack[i..][1..] == stack[i + 1..];
        assert all[i..][0] == all[i] && Rest(all[..i + 1]) == all[..i];
        if f.parent.exclusive && f.cur < f.end {
          stack := stack[i := f.(end := f.cur + 1)];
        }
        assert stack[..i + 1] == stack[..i] + [stack[i]];
      }
      assert all[..|all|] == all && stack[..|all|] == stack;
    }

    method IsLastInPath() returns (last: bool)
      requires StackOk(stack)
      ensures last == LastInPath(stack)
    {
      if stack == [] { return false; }
      for i := 0 to |stack|
        invariant forall k :: 0 <= k < i ==> stack[k].cur + 1 == stack[k].end
      {
        if stack[i].cur + 1 != stack[i].end { return false; }
      }
      last := !Current(stack).Group?;
    }

    method OutermostBlockingGroupFullyExplored() returns (g: Ancestor)
      requires StackOk(stack)
      ensures g == Explored(stack)
    {
      g := NoGroup;
      var i: nat := |stack|;
      assert stack[..i] == stack;
      while i > 0
        invariant i <= |stack|
        invariant Explored(stack) == if Explored(stack[..i]).TheGroup? then Explored(stack[..i]) else g
        decreases i
      {
        i := i - 1;
        assert Rest(stack[..i + 1]) == stack[..i];
        if stack[i].cur + 1 == stack[i].end {
          if Blocking(stack[i].parent) { g := TheGroup(stack[i].parent.id); }
        } else {
          return;
        }
      }
    }

    method InnermostBlockingGroup() returns (g: Ancestor)
      requires StackOk(stack)
      ensures g == InnermostBlocking(stack)
    {
      var i: nat := |stack|;
      assert stack[..i] == stack;
      while i > 0
        invariant i <= |stack| && InnermostBlocking(stack) == InnermostBlocking(stack[..i])
        decreases i
      {
        i := i - 1;
        assert Rest(stack[..i + 1]) == stack[..i];
        if Blocking(stack[i].parent) { return TheGroup(stack[i].parent.id); }
      }
      g := NoGroup;
    }

    method Undo(m: Memento)
      requires StackOk(stack) && MementoOk(m)
      modifies this
      ensures StackOk(stack) && stack == Traversal.Undo(old(stack), m)
    {
      if Level(m) < 1 { return; }
      if m.level <= |stack| {
        stack := stack[..m.level];
        stack := stack[m.level - 1 := m.frame];
      } else if stack == [] && m.level == 1 {
        stack := [m.frame];
      }
    }
  }

  class ScopedDfsTraverser {
    const pos: DepthFirstTraverser
    var lastMatch: Stack
    var posAfterLastMatch: Stack
    var scopes: seq<Memento>
    var ignoreBlocks: bool

    ghost function State(): Scoped
      reads this, pos
    {
      Scoped(pos.stack, lastMatch, posAfterLastMatch, scopes, ignoreBlocks)
    }

    constructor (root: Node)
      requires root.Group? && Inhabited(root)
      ensures fresh(pos) && State() == Start(root) && ScopedOk(State())
    {
      pos := new DepthFirstTraverser(root);
      lastMatch, posAfterLastMatch, scopes, ignoreBlocks := [], [], [], false;
    }

    method IgnoreBlocking(yes: bool)
      modifies this
      ensures State() == old(State()).(ignoreBlocks := yes)
    {
      ignoreBlocks := yes;
    }

    predicate Matched()
      reads this, pos
    {
      SamePosition(pos.stack, lastMatch)
    }

    /** Goes back to the scope saved last. */
    method UndoLast()
      requires ScopedOk(State()) && scopes != []
      modifies this, pos
      ensures ScopedOk(State()) && State() == PopScope(old(State()))
    {
      pos.Undo(scopes[|scopes| - 1]);
      scopes := scopes[..|scopes| - 1];
    }

    method ReturnToOutermostScope()
      requires ScopedOk(State())
      modifies this, pos
      ensures ScopedOk(State()) && State() == ReturnToOutermost(old(State()))
    {
      hide Traversal.Undo;
      posAfterLastMatch := [];
      if scopes == [] {
        pos.stack := [];
        return;
      }
      while scopes != [] && (pos.stack == [] || |pos.stack| >= 1)
        invariant ScopedOk(State()) && PopAll(State()) == PopAll(old(State()).(after := []))
        decreases |scopes|
      {
        UndoLast();
      }
      // every scope was gone back through: nothing is left to discard
      assert scopes == [];
    }

    method ReturnTo(level: nat)
      requires ScopedOk(State())
      modifies this, pos
      ensures ScopedOk(State()) && State() == ReturnToLevel(old(State()), level)
    {
      if |pos.stack| <= level { return; }
      while scopes != [] && |pos.stack| > level
        invariant ScopedOk(State()) && ReturnToLevel(State(), level) == ReturnToLevel(old(State()), level)
        decreases |scopes|
      {
        UndoLast();
      }
    }

    /** Goes back through the scopes no higher than the position, and forgets where the match led. */
    method LeaveMatch()
      requires ScopedOk(State())
      modifies this, pos
      ensures ScopedOk(State()) && State() == PopDeep(old(State()), 0).(after := [])
    {
      hide Traversal.Undo;
      while scopes != [] && Level(scopes[|scopes| - 1]) >= |pos.stack|
        invariant ScopedOk(State()) && PopDeep(State(), 0) == PopDeep(old(State()), 0)
        decreases |scopes|
      {
        UndoLast();
      }
      posAfterLastMatch := [];
    }

    method CheckIfLeftScope()
      requires ScopedOk(State())
      modifies this, pos
      ensures ScopedOk(State()) && State() == ScopedTraversal.CheckIfLeftScope(old(State()))
    {
      hide Traversal.Undo;
      if posAfterLastMatch != [] {
        if |pos.stack| < |posAfterLastMatch| {
          LeaveMatch();
        }
      }
      LeaveScopes();
    }

    /** Goes back through the scopes deeper than the position. */
    method LeaveScopes()
      requires ScopedOk(State())
      modifies this, pos
      ensures ScopedOk(State()) && State() == PopDeep(old(State()), 1)
    {
      hide Traversal.Undo;
      ghost var t := State();
      while scopes != [] && Level(scopes[|scopes| - 1]) > |pos.stack|
        invariant ScopedOk(State()) && PopDeep(State(), 1) == PopDeep(t, 1)
        decreases |scopes|
      {
        UndoLast();
      }
    }

    method Increment()
      requires ScopedOk(State())
      modifies this, pos
      ensures ScopedOk(State()) && State() == ScopedNext(old(State()))
    {
      hide ScopedTraversal.CheckIfLeftScope, ReturnToOutermost, Traversal.Next, Blocking, Explored;
      if pos.stack == [] { return; }
      var last := pos.IsLastInPath();
      if last {
        ReturnToOutermostScope();
        return;
      }
      Move();
      CheckIfLeftScope();
    }

    method Move()
      requires ScopedOk(State()) && pos.stack != []
      modifies this, pos
      ensures ScopedOk(State()) && State() == Moving(old(State()))
    {
      hide ReturnToOutermost, Traversal.Next, Blocking, Explored, Traversal.NextSibling, Traversal.NextAfterSiblings;
      if ignoreBlocks || Matched() {
        pos.Increment();
      } else if !Current(pos.stack).Group? {
        var g := pos.OutermostBlockingGroupFullyExplored();
        if g.TheGroup? && !Inside(lastMatch, g.id) {
          pos.BackToAncestor(g.id);
          pos.NextAfterSiblings();
          if pos.stack == [] { ReturnToOutermostScope(); }
        } else if Blocking(Current(pos.stack)) {
          if Top(pos.stack).parent.exclusive {
            pos.NextSibling();
          } else {
            pos.NextAfterSiblings();
          }
          if pos.stack == [] { ReturnToOutermostScope(); }
        } else {
          pos.Increment();
        }
      } else {
        pos.Increment();
      }
    }

    /** Takes up the search behind a match; false if the code would look at the top of an empty stack. */
    method NextAfterMatch(m: Stack) returns (defined: bool)
      requires ScopedOk(State()) && StackOk(m)
      modifies this, pos
      ensures defined <==> ScopedTraversal.NextAfterMatch(old(State()), m).Continues?
      ensures defined ==> ScopedOk(State()) && ScopedTraversal.NextAfterMatch(old(State()), m) == Continues(State())
    {
      hide Traversal.Next, Blocking, InnermostBlocking, Traversal.NextSibling, Anchored, AfterBlocking;
      hide SamePosition, IsAlternative, ReturnToLevel, Traversal.SkipAlternatives;
      if m == [] || ignoreBlocks { return true; }
      lastMatch := m;
      var found := TakenBack(m);
      if found.stack == [] || pos.stack == [] { return false; }
      if !SamePosition(found.stack, pos.stack) && Blocking(Current(pos.stack)) {
        pos.NextSibling();
      }
      if Blocking(Current(found.stack)) {
        if IsAlternative(found.stack) { found.SkipAlternatives(); }
        AfterBlockingMatch(found);
      } else if |found.stack| < |pos.stack| {
        ReturnTo(|found.stack|);
      }
      posAfterLastMatch := pos.stack;
      defined := true;
    }

    /** The match, gone back to its innermost blocking group unless it blocks itself. */
    method TakenBack(m: Stack) returns (found: DepthFirstTraverser)
      requires StackOk(m) && m != []
      ensures fresh(found) && StackOk(found.stack) && found.stack == Anchored(m)
    {
      hide Blocking, InnermostBlocking, Traversal.BackToAncestor;
      found := new DepthFirstTraverser.Copy(m);
      if !Blocking(Current(m)) {
        var g := found.InnermostBlockingGroup();
        if g.TheGroup? { found.BackToAncestor(g.id); }
      }
    }

    method AfterBlockingMatch(found: DepthFirstTraverser)
      requires ScopedOk(State()) && StackOk(found.stack) && found.stack != [] && found != pos
      modifies this, pos, found
      ensures ScopedOk(State()) && State() == AfterBlocking(old(State()), old(found.stack))
    {
      hide Traversal.Undo, ReturnToLevel, LastInScope, Traversal.Next;
      var m := found.stack;
      var n := Current(m);
      if LastInScope(scopes, m) {
        pos.stack := m;
        if OneShot(n) && scopes != [] {
          pos.Undo(scopes[|scopes| - 1]);
        }
      } else {
        if OneShot(n) { found.Increment(); }
        if |found.stack| > |pos.stack| {
          scopes := scopes + [UndoPoint(pos.stack)];
          pos.stack := found.stack;
        } else if |found.stack| < |pos.stack| {
          ReturnTo(|found.stack|);
        } else {
          pos.stack := found.stack;
        }
      }
    }

    /** Searches for the first parameter a test accepts; the search always ends. */
    method FindMatch(accepts: Node -> bool)
      requires ScopedOk(State())
      modifies this, pos
      ensures ScopedOk(State()) && State() == FirstMatch(old(State()), accepts)
      ensures pos.stack != [] ==> Current(pos.stack).Param? && accepts(Current(pos.stack))
    {
      hide ScopedNext, Ahead;
      while pos.stack != []
        invariant ScopedOk(State()) && FirstMatch(State(), accepts) == FirstMatch(old(State()), accepts)
        decreases |scopes|, pos.stack != [], NodesAhead(State())
      {
        if Current(pos.stack).Param? {
          if accepts(Current(pos.stack)) { return; }
        }
        StepShrinks(State());
        Increment();
      }
    }
  }
}
