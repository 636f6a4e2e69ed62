/** The implicit grammar of wildcard patterns: sets and alternative groups are recognised by scanning
    ahead for their ends.  Every scan is a loop over the pattern and, beside it, a recursive function;
    positions index one pattern, of which [p, pend) is under consideration. */
module WildcardSyntax {
  /** The characters with a meaning, and which constructs are enabled. */
  datatype Cards<C> = Cards(
    anything: C, single: C, escape: C,
    setEnabled: bool, setOpen: C, setClose: C, setNot: C,
    altEnabled: bool, altOpen: C, altClose: C, altOr: C)

  /** A position, or an exception. */
  datatype Pos = At(pos: nat) | Throws

  datatype SetState = SetStart | NotOrFirst | First | Next
  datatype AltState = AltStart | AltNext | AltEscape

  // ---- sets ----

  function IsSet<C(==)>(pat: seq<C>, p: nat, pend: nat, c: Cards<C>, state: SetState): bool
    requires p <= pend <= |pat|
    decreases pend - p
  {
    c.setEnabled && p != pend &&
    match state
    case SetStart => pat[p] == c.setOpen && IsSet(pat, p + 1, pend, c, NotOrFirst)
    case NotOrFirst => IsSet(pat, p + 1, pend, c, if pat[p] == c.setNot then First else Next)
    case First => IsSet(pat, p + 1, pend, c, Next)
    case Next => pat[p] == c.setClose || IsSet(pat, p + 1, pend, c, Next)
  }

  function SetEnd<C(==)>(pat: seq<C>, p: nat, pend: nat, c: Cards<C>, state: SetState): (r: Pos)
    requires p <= pend <= |pat|
    ensures r.At? <==> IsSet(pat, p, pend, c, state)
    ensures r.At? ==> p < r.pos <= pend
    decreases pend - p
  {
    if !c.setEnabled || p == pend then Throws
    else
      match state
      case SetStart => if pat[p] == c.setOpen then SetEnd(pat, p + 1, pend, c, NotOrFirst) else Throws
      case NotOrFirst => SetEnd(pat, p + 1, pend, c, if pat[p] == c.setNot then First else Next)
      case First => SetEnd(pat, p + 1, pend, c, Next)
      case Next => if pat[p] == c.setClose then At(p + 1) else SetEnd(pat, p + 1, pend, c, Next)
  }

  method IsSetLoop<C(==)>(pat: seq<C>, p0: nat, pend: nat, c: Cards<C>, state0: SetState) returns (r: bool)
    requires p0 <= pend <= |pat|
    ensures r == IsSet(pat, p0, pend, c, state0)
  {
    if !c.setEnabled { return false; }
    var p, state := p0, state0;
    while p != pend
      invariant p0 <= p <= pend && IsSet(pat, p, pend, c, state) == IsSet(pat, p0, pend, c, state0)
      decreases pend - p
    {
      match state {
        case SetStart =>
          if pat[p] != c.setOpen { return false; }
          state := NotOrFirst;
        case NotOrFirst =>
          if pat[p] == c.setNot { state := First; } else { state := Next; }
        case First =>
          state := Next;
        case Next =>
          if pat[p] == c.setClose { return true; }
      }
      p := p + 1;
    }
    r := false;
  }

  method SetEndLoop<C(==)>(pat: seq<C>, p0: nat, pend: nat, c: Cards<C>, state0: SetState) returns (r: Pos)
    requires p0 <= pend <= |pat|
    ensures r == SetEnd(pat, p0, pend, c, state0)
  {
    if !c.setEnabled { return Throws; }
    var p, state := p0, state0;
    while p != pend
      invariant p0 <= p <= pend && SetEnd(pat, p, pend, c, state) == SetEnd(pat, p0, pend, c, state0)
      decreases pend - p
    {
      match state {
        case SetStart =>
          if pat[p] != c.setOpen { return Throws; }
          state := NotOrFirst;
        case NotOrFirst =>
          if pat[p] == c.setNot { state := First; } else { state := Next; }
        case First =>
          state := Next;
        case Next =>
          if pat[p] == c.setClose { return At(p + 1); }
      }
      p := p + 1;
    }
    r := Throws;
  }

  /** Where the members of a set whose text starts at p begin, past a leading "not". */
  function Members<C(==)>(pat: seq<C>, p: nat, c: Cards<C>): nat
    requires p < |pat|
  {
    if pat[p] == c.setNot then p + 1 else p
  }

  lemma {:induction false} NextClose<C>(pat: seq<C>, p: nat, pend: nat, c: Cards<C>)
    requires p <= pend <= |pat| && c.setEnabled
    ensures IsSet(pat, p, pend, c, Next) <==> exists k :: p <= k < pend && pat[k] == c.setClose
    ensures var e := SetEnd(pat, p, pend, c, Next);
      e.At? ==> pat[e.pos - 1] == c.setClose && forall k :: p <= k < e.pos - 1 ==> pat[k] != c.setClose
    decreases pend - p
  {
    if p < pend { NextClose(pat, p + 1, pend, c); }
  }

  /** A set is recognised exactly when a closing character follows its first member, which may itself be
      one; the first such character ends it. */
  lemma SetIsFirstClose<C>(pat: seq<C>, p: nat, pend: nat, c: Cards<C>)
    requires p < pend <= |pat| && c.setEnabled
    ensures IsSet(pat, p, pend, c, NotOrFirst) <==>
      exists k :: Members(pat, p, c) < k < pend && pat[k] == c.setClose
    ensures var e := SetEnd(pat, p, pend, c, NotOrFirst);
      e.At? ==>
        && Members(pat, p, c) < e.pos - 1 && pat[e.pos - 1] == c.setClose
        && forall k :: Members(pat, p, c) < k < e.pos - 1 ==> pat[k] != c.setClose
  {
    var m := Members(pat, p, c);
    if m + 1 <= pend {
      NextClose(pat, m + 1, pend, c);
    }
    if m < pend {
      assert IsSet(pat, p, pend, c, NotOrFirst) == IsSet(pat, m + 1, pend, c, Next);
      assert SetEnd(pat, p, pend, c, NotOrFirst) == SetEnd(pat, m + 1, pend, c, Next);
    }
  }

  /** Recognition of a set depends on the end of the pattern only through whether the set fits. */
  lemma {:induction false} SetUnderShorterEnd<C>(pat: seq<C>, p: nat, e: nat, pend: nat, c: Cards<C>, state: SetState)
    requires p <= e <= pend <= |pat|
    ensures SetEnd(pat, p, e, c, state) ==
      var r := SetEnd(pat, p, pend, c, state); if r.At? && r.pos <= e then r else Throws
    decreases pend - p
  {
    if p < e && c.setEnabled {
      var next := match state
        case SetStart => NotOrFirst
        case NotOrFirst => if pat[p] == c.setNot then First else Next
        case First => Next
        case Next => Next;
      SetUnderShorterEnd(pat, p + 1, e, pend, c, next);
    }
  }

  // ---- alternative groups ----

  /** A set that opens at p is recognised under pend. */
  function SetAt<C(==)>(pat: seq<C>, p: nat, pend: nat, c: Cards<C>): bool
    requires p < pend <= |pat|
  {
    c.setEnabled && pat[p] == c.setOpen && IsSet(pat, p + 1, pend, c, NotOrFirst)
  }

  function IsAlt<C(==)>(pat: seq<C>, p: nat, pend: nat, c: Cards<C>, state: AltState, depth: int): bool
    requires p <= pend <= |pat|
    decreases pend - p
  {
    c.altEnabled && p != pend &&
    match state
    case AltStart => pat[p] == c.altOpen && IsAlt(pat, p + 1, pend, c, AltNext, depth + 1)
    case AltEscape => IsAlt(pat, p + 1, pend, c, AltNext, depth)
    case AltNext =>
      if pat[p] == c.escape then IsAlt(pat, p + 1, pend, c, AltEscape, depth)
      else if SetAt(pat, p, pend, c) then IsAlt(pat, SetEnd(pat, p + 1, pend, c, NotOrFirst).pos, pend, c, AltNext, depth)
      else if pat[p] == c.altOpen then IsAlt(pat, p + 1, pend, c, AltNext, depth + 1)
      else if pat[p] == c.altClose then depth == 1 || IsAlt(pat, p + 1, pend, c, AltNext, depth - 1)
      else IsAlt(pat, p + 1, pend, c, AltNext, depth)
  }

  function AltEnd<C(==)>(pat: seq<C>, p: nat, pend: nat, c: Cards<C>, state: AltState, depth: int): (r: Pos)
    requires p <= pend <= |pat|
    ensures r.At? <==> IsAlt(pat, p, pend, c, state, depth)
    ensures r.At? ==> p < r.pos <= pend
    decreases pend - p
  {
    if !c.altEnabled || p == pend then Throws
    else
      match state
      case AltStart => if pat[p] == c.altOpen then AltEnd(pat, p + 1, pend, c, AltNext, depth + 1) else Throws
      case AltEscape => AltEnd(pat, p + 1, pend, c, AltNext, depth)
      case AltNext =>
        if pat[p] == c.escape then AltEnd(pat, p + 1, pend, c, AltEscape, depth)
        else if SetAt(pat, p, pend, c) then AltEnd(pat, SetEnd(pat, p + 1, pend, c, NotOrFirst).pos, pend, c, AltNext, depth)
        else if pat[p] == c.altOpen then AltEnd(pat, p + 1, pend, c, AltNext, depth + 1)
        else if pat[p] == c.altClose then
          if depth == 1 then At(p + 1) else AltEnd(pat, p + 1, pend, c, AltNext, depth - 1)
        else AltEnd(pat, p + 1, pend, c, AltNext, depth)
  }

  /** The end of the first alternative: its "or", or the group's close. */
  function AltSubEnd<C(==)>(pat: seq<C>, p: nat, pend: nat, c: Cards<C>, state: AltState, depth: int): (r: Pos)
    requires p <= pend <= |pat| && state != AltStart
    ensures r.At? ==> p <= r.pos < pend
    decreases pend - p
  {
    if !c.altEnabled || p == pend then Throws
    else if state == AltEscape then AltSubEnd(pat, p + 1, pend, c, AltNext, depth)
    else if pat[p] == c.escape then AltSubEnd(pat, p + 1, pend, c, AltEscape, depth)
    else if SetAt(pat, p, pend, c) then AltSubEnd(pat, SetEnd(pat, p + 1, pend, c, NotOrFirst).pos, pend, c, AltNext, depth)
    else if pat[p] == c.altOpen then AltSubEnd(pat, p + 1, pend, c, AltNext, depth + 1)
    else if pat[p] == c.altClose then
      if depth == 1 then At(p) else AltSubEnd(pat, p + 1, pend, c, AltNext, depth - 1)
    else if pat[p] == c.altOr then
      if depth == 1 then At(p) else AltSubEnd(pat, p + 1, pend, c, AltNext, depth)
    else AltSubEnd(pat, p + 1, pend, c, AltNext, depth)
  }

  method IsAltLoop<C(==)>(pat: seq<C>, p0: nat, pend: nat, c: Cards<C>, state0: AltState, depth0: int) returns (r: bool)
    requires p0 <= pend <= |pat|
    ensures r == IsAlt(pat, p0, pend, c, state0, depth0)
  {
    if !c.altEnabled { return false; }
    var p, state, depth := p0, state0, depth0;
    while p != pend
      invariant p0 <= p <= pend && IsAlt(pat, p, pend, c, state, depth) == IsAlt(pat, p0, pend, c, state0, depth0)
      decreases pend - p
    {
      match state {
        case AltStart =>
          if pat[p] != c.altOpen { return false; }
          state := AltNext;
          depth := depth + 1;
        case AltNext =>
          var opens := false;
          if c.setEnabled && pat[p] == c.setOpen { opens := IsSetLoop(pat, p + 1, pend, c, NotOrFirst); }
          if pat[p] == c.escape {
            state := AltEscape;
          } else if opens {
            var e := SetEndLoop(pat, p + 1, pend, c, NotOrFirst);
            p := e.pos - 1;
          } else if pat[p] == c.altOpen {
            depth := depth + 1;
          } else if pat[p] == c.altClose {
            depth := depth - 1;
            if depth == 0 { return true; }
          }
        case AltEscape =>
          state := AltNext;
      }
      p := p + 1;
    }
    r := false;
  }

  method AltEndLoop<C(==)>(pat: seq<C>, p0: nat, pend: nat, c: Cards<C>, state0: AltState, depth0: int) returns (r: Pos)
    requires p0 <= pend <= |pat|
    ensures r == AltEnd(pat, p0, pend, c, state0, depth0)
  {
    if !c.altEnabled { return Throws; }
    var p, state, depth := p0, state0, depth0;
    while p != pend
      invariant p0 <= p <= pend && AltEnd(pat, p, pend, c, state, depth) == AltEnd(pat, p0, pend, c, state0, depth0)
      decreases pend - p
    {
      match state {
        case AltStart =>
          if pat[p] != c.altOpen { return Throws; }
          state := AltNext;
          depth := depth + 1;
        case AltNext =>
          var opens := false;
          if c.setEnabled && pat[p] == c.setOpen { opens := IsSetLoop(pat, p + 1, pend, c, NotOrFirst); }
          if pat[p] == c.escape {
            state := AltEscape;
          } else if opens {
            var e := SetEndLoop(pat, p + 1, pend, c, NotOrFirst);
            p := e.pos - 1;
          } else if pat[p] == c.altOpen {
            depth := depth + 1;
          } else if pat[p] == c.altClose {
            depth := depth - 1;
            if depth == 0 { return At(p + 1); }
          }
        case AltEscape =>
          state := AltNext;
      }
      p := p + 1;
    }
    r := Throws;
  }

  method AltSubEndLoop<C(==)>(pat: seq<C>, p0: nat, pend: nat, c: Cards<C>, state0: AltState, depth0: int) returns (r: Pos)
    requires p0 <= pend <= |pat| && state0 != AltStart
    ensures r == AltSubEnd(pat, p0, pend, c, state0, depth0)
  {
    if !c.altEnabled { return Throws; }
    var p, state, depth := p0, state0, depth0;
    while p != pend
      invariant p0 <= p <= pend && state != AltStart
      invariant AltSubEnd(pat, p, pend, c, state, depth) == AltSubEnd(pat, p0, pend, c, state0, depth0)
      decreases pend - p
    {
      if state == AltNext {
        var opens := false;
        if c.setEnabled && pat[p] == c.setOpen { opens := IsSetLoop(pat, p + 1, pend, c, NotOrFirst); }
        if pat[p] == c.escape {
          state := AltEscape;
        } else if opens {
          var e := SetEndLoop(pat, p + 1, pend, c, NotOrFirst);
          p := e.pos - 1;
        } else if pat[p] == c.altOpen {
          depth := depth + 1;
        } else if pat[p] == c.altClose {
          depth := depth - 1;
          if depth == 0 { return At(p); }
        } else if pat[p] == c.altOr {
          if depth == 1 { return At(p); }
        }
      } else {
        state := AltNext;
      }
      p := p + 1;
    }
    r := Throws;
  }

  // ---- recognition under the shorter ends passed down ----

  lemma SetAtShorter<C>(pat: seq<C>, p: nat, e: nat, pend: nat, c: Cards<C>)
    requires p < e <= pend <= |pat|
    ensures SetAt(pat, p, e, c) <==> SetAt(pat, p, pend, c) && SetEnd(pat, p + 1, pend, c, NotOrFirst).pos <= e
    ensures SetAt(pat, p, e, c) ==>
      SetEnd(pat, p + 1, e, c, NotOrFirst) == SetEnd(pat, p + 1, pend, c, NotOrFirst)
  {
    SetUnderShorterEnd(pat, p + 1, e, pend, c, NotOrFirst);
  }

  /** A group that fits below e is recognised there with the same end. */
  lemma {:induction false} AltUnderShorterEnd<C>(pat: seq<C>, p: nat, e: nat, pend: nat, c: Cards<C>, state: AltState, depth: int)
    requires p <= e <= pend <= |pat|
    requires AltEnd(pat, p, pend, c, state, depth).At? && AltEnd(pat, p, pend, c, state, depth).pos <= e
    ensures AltEnd(pat, p, e, c, state, depth) == AltEnd(pat, p, pend, c, state, depth)
    decreases pend - p
  {
    if state != AltNext {
      AltUnderShorterEnd(pat, p + 1, e, pend, c, AltNext, if state == AltStart then depth + 1 else depth);
    } else if pat[p] == c.escape {
      AltUnderShorterEnd(pat, p + 1, e, pend, c, AltEscape, depth);
    } else {
      SetAtShorter(pat, p, e, pend, c);
      if SetAt(pat, p, pend, c) {
        AltUnderShorterEnd(pat, SetEnd(pat, p + 1, pend, c, NotOrFirst).pos, e, pend, c, AltNext, depth);
      } else if pat[p] != c.altOpen && pat[p] == c.altClose && depth == 1 {
      } else {
        AltUnderShorterEnd(pat, p + 1, e, pend, c, AltNext,
          if pat[p] == c.altOpen then depth + 1 else if pat[p] == c.altClose then depth - 1 else depth);
      }
    }
  }

  /** p stands at the start of an alternative of a group that ends at e. */
  ghost predicate InGroup<C>(pat: seq<C>, p: nat, e: nat, c: Cards<C>) {
    p <= e <= |pat| && AltEnd(pat, p, e, c, AltNext, 1) == At(e)
  }

  /** Scanning up to the group's end finds the end of the first alternative: the group's close, or an "or"
      after which another alternative of the same group starts. */
  lemma {:induction false} SubEndFound<C>(pat: seq<C>, p: nat, e: nat, c: Cards<C>, state: AltState, depth: int)
    requires p <= e <= |pat| && state != AltStart && depth >= 1
    requires AltEnd(pat, p, e, c, state, depth) == At(e)
    ensures var r := AltSubEnd(pat, p, e, c, state, depth);
      r.At? && (r.pos + 1 == e || InGroup(pat, r.pos + 1, e, c))
    decreases e - p
  {
    if state == AltEscape {
      SubEndFound(pat, p + 1, e, c, AltNext, depth);
    } else if pat[p] == c.escape {
      SubEndFound(pat, p + 1, e, c, AltEscape, depth);
    } else if SetAt(pat, p, e, c) {
      SubEndFound(pat, SetEnd(pat, p + 1, e, c, NotOrFirst).pos, e, c, AltNext, depth);
    } else if pat[p] == c.altOpen {
      SubEndFound(pat, p + 1, e, c, AltNext, depth + 1);
    } else if pat[p] == c.altClose {
      if depth > 1 { SubEndFound(pat, p + 1, e, c, AltNext, depth - 1); }
    } else if pat[p] == c.altOr && depth == 1 {
    } else {
      SubEndFound(pat, p + 1, e, c, AltNext, depth);
    }
  }

  /** Inside a nested group at depth d - 1, scanning for the end of the enclosing alternative first passes
      the nested group's end. */
  lemma {:induction false} NestedEnd<C>(pat: seq<C>, x: nat, e: nat, c: Cards<C>, state: AltState, depth: int)
    requires x <= e <= |pat| && state != AltStart && depth >= 2 && AltSubEnd(pat, x, e, c, state, depth).At?
    ensures var b, y := AltSubEnd(pat, x, e, c, state, depth).pos, AltEnd(pat, x, e, c, state, depth - 1);
      y.At? && y.pos <= b && AltSubEnd(pat, y.pos, e, c, AltNext, 1) == At(b)
    decreases e - x
  {
    if state == AltEscape {
      NestedEnd(pat, x + 1, e, c, AltNext, depth);
    } else if pat[x] == c.escape {
      NestedEnd(pat, x + 1, e, c, AltEscape, depth);
    } else if SetAt(pat, x, e, c) {
      NestedEnd(pat, SetEnd(pat, x + 1, e, c, NotOrFirst).pos, e, c, AltNext, depth);
    } else if pat[x] == c.altOpen {
      NestedEnd(pat, x + 1, e, c, AltNext, depth + 1);
    } else if pat[x] == c.altClose {
      if depth > 2 { NestedEnd(pat, x + 1, e, c, AltNext, depth - 1); }
    } else {
      NestedEnd(pat, x + 1, e, c, AltNext, depth);
    }
  }

  /** What is recognised in an alternative under the end of its group is recognised, with the same end,
      under the alternative's own end b; and b is still found from there on. */
  lemma RecognisedBelow<C>(pat: seq<C>, x: nat, e: nat, c: Cards<C>)
    requires x < e <= |pat| && pat[x] != c.escape && AltSubEnd(pat, x, e, c, AltNext, 1).At?
    ensures var b := AltSubEnd(pat, x, e, c, AltNext, 1).pos;
      x < b ==> (SetAt(pat, x, b, c) <==> SetAt(pat, x, e, c))
    ensures var b := AltSubEnd(pat, x, e, c, AltNext, 1).pos;
      SetAt(pat, x, e, c) ==>
        && x < b
        && SetEnd(pat, x + 1, b, c, NotOrFirst) == SetEnd(pat, x + 1, e, c, NotOrFirst)
        && AltSubEnd(pat, SetEnd(pat, x + 1, b, c, NotOrFirst).pos, e, c, AltNext, 1) == At(b)
    ensures var b := AltSubEnd(pat, x, e, c, AltNext, 1).pos;
      !SetAt(pat, x, e, c) && pat[x] == c.altOpen ==>
        && x < b
        && AltEnd(pat, x + 1, b, c, AltNext, 1).At?
        && AltEnd(pat, x + 1, b, c, AltNext, 1) == AltEnd(pat, x + 1, e, c, AltNext, 1)
        && AltSubEnd(pat, AltEnd(pat, x + 1, b, c, AltNext, 1).pos, e, c, AltNext, 1) == At(b)
  {
    var b := AltSubEnd(pat, x, e, c, AltNext, 1).pos;
    if x < b {
      SetAtShorter(pat, x, b, e, c);
    }
    if !SetAt(pat, x, e, c) && pat[x] == c.altOpen {
      NestedEnd(pat, x + 1, e, c, AltNext, 2);
      AltUnderShorterEnd(pat, x + 1, b, e, c, AltNext, 1);
    }
  }
}
