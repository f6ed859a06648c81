/** What the insertion dispatch and the evaluator promise about a
    well-formed tree: where the open-bracket scan looks, where a new node
    can land, when the rotation dereferences a null parent, and when an
    evaluation succeeds. */
module Properties {
  import opened Nodes
  import opened ArenaModel
  import opened Dispatch
  import opened Spine

  lemma {:induction false} HasOpenFinds(a: Arena, i: nat) returns (j: nat)
    requires WellFormed(a) && i < |a.kind| && HasOpen(a, i)
    ensures j < |a.kind| && Below(a, j, i) && OpenAt(a, j)
    decreases a.bound - a.depth[i]
  {
    if OpenAt(a, i) {
      j := i;
    } else {
      var k :| 0 <= k < |a.childs[i]| && (ChildDeeper(a, i, k); HasOpen(a, a.childs[i][k]));
      ChildDeeper(a, i, k);
      var c := a.childs[i][k];
      j := HasOpenFinds(a, c);
      BelowChild(a, j, c, i);
    }
  }

  lemma {:induction false} OpenAbove(a: Arena, y: nat, x: nat)
    requires WellFormed(a) && y < |a.kind| && x < |a.kind|
    requires HasOpen(a, y) && Below(a, y, x)
    ensures HasOpen(a, x)
    decreases a.depth[y]
  {
    if y != x {
      var q := a.parent[y];
      var k :| 0 <= k < |a.childs[q]| && a.childs[q][k] == y;
      ChildDeeper(a, q, k);
      assert HasOpen(a, a.childs[q][k]);
      OpenAbove(a, q, x);
    }
  }

  /** `hasOpenLeftBracket(i)` holds exactly when the subtree of `i`, `i`
      included, holds a `(` that is still waiting for its `)`. */
  lemma HasOpenIff(a: Arena, i: nat)
    requires WellFormed(a) && i < |a.kind|
    ensures HasOpen(a, i) <==>
              exists j :: 0 <= j < |a.kind| && Below(a, j, i) && OpenAt(a, j)
  {
    if HasOpen(a, i) {
      var j := HasOpenFinds(a, i);
    }
    if j :| 0 <= j < |a.kind| && Below(a, j, i) && OpenAt(a, j) {
      assert HasOpen(a, j);
      OpenAbove(a, j, i);
    }
  }

  /** The rotation dereferences a null `parentNode` only at a node with no
      parent, never for a `)` and never for a value. */
  lemma {:induction false} LocateNullParent(a: Arena, i: nat, n: nat)
    requires WellFormed(a) && i < |a.kind| && n < |a.kind|
    ensures Locate(a, i, n).NullParent? ==>
              a.parent[i] < 0 && !a.kind[n].RightBracket? && !a.kind[n].Value?
              && (a.kind[i].LeftBracket? ==> a.attached[i])
    decreases a.bound - a.depth[i], 1
  {
    match a.kind[i]
    case RightBracket =>
    case LeftBracket =>
      // A child always has a parent, so descending never meets the null
      // pointer: only a closed bracket with no parent can reach it.
      if a.kind[n] == RightBracket {
        if !a.attached[i] && a.childs[i] != [] {
          ChildDeeper(a, i, 0);
          LocateNullParent(a, a.childs[i][0], n);
        }
      } else if a.childs[i] == [] {
      } else if a.attached[i] {
        GenericNullParent(a, i, n);
      } else {
        ChildDeeper(a, i, 0);
        LocateNullParent(a, a.childs[i][0], n);
      }
    case _ =>
      GenericNullParent(a, i, n);
  }

  lemma {:induction false} GenericNullParent(a: Arena, i: nat, n: nat)
    requires WellFormed(a) && i < |a.kind| && n < |a.kind|
    requires !a.kind[i].RightBracket?
    requires a.kind[i].LeftBracket? ==> a.attached[i] && !a.kind[n].RightBracket?
    ensures Generic(a, i, n).NullParent? ==>
              a.parent[i] < 0 && !a.kind[n].RightBracket? && !a.kind[n].Value?
    decreases a.bound - a.depth[i], 0
  {
    if HasOpen(a, i) || (!(Precedence(a.kind[n]) >= Precedence(a.kind[i]) && !a.kind[n].Value?) && IsFull(a, i)) {
      var k := |a.childs[i]| - 1;
      ChildDeeper(a, i, k);
      LocateNullParent(a, a.childs[i][k], n);
    }
  }

  /** From the top of a line's tree the only crash is an operator arriving
      after the outer `(` was closed: the sequence `)` then `+` at the
      root. */
  lemma NullDerefOnlyAtClosedRoot(a: Arena, i: nat, n: nat)
    requires Insertable(a, i, n)
    ensures Locate(a, i, n).NullParent? ==>
              i == 0 && a.attached[0] && !a.kind[n].RightBracket? && !a.kind[n].Value?
  {
    LocateNullParent(a, i, n);
    if i != 0 {
      assert IsLastChild(a, i);
    } else {
      assert a.kind[0] == LeftBracket;
    }
  }

  /** The converse under the frontier: once the outer `(` is closed, every
      operator or `(` inserted at the root reaches the null dereference. */
  lemma ClosedRootCrashes(a: Arena, n: nat)
    requires Insertable(a, 0, n) && Frontier(a) && a.attached[0]
    requires !a.kind[n].RightBracket? && !a.kind[n].Value?
    ensures Locate(a, 0, n) == NullParent
  {
    BracketArity(a, 0);
    OpenOnlyLast(a, 0);
    ChildDeeper(a, 0, |a.childs[0]| - 1);
    assert ArityOk(a, Last(a.childs[0]));
  }

  /** Where an inserted node lands: an action always names a node of the
      subtree of `i`. A rotation happens above a node with a parent, no
      open bracket below it and a rank no looser than the new operator's;
      an operand goes to an operator or empty open `(` with a free slot;
      a `)` goes only to an open `(`. */
  ghost predicate Lands(a: Arena, i: nat, n: nat, act: Action)
    requires WellFormed(a) && i < |a.kind| && n < |a.kind|
  {
    match act
    case Rotate(x) =>
      x < |a.kind| && Below(a, x, i) && OnSpine(a, x, i)
      && 0 <= a.parent[x] && !HasOpen(a, x) && !a.kind[x].RightBracket?
      && !a.kind[n].Value? && !a.kind[n].RightBracket?
      && Precedence(a.kind[n]) >= Precedence(a.kind[x])
    case Append(x) =>
      x < |a.kind| && Below(a, x, i) && OnSpine(a, x, i)
      && !a.kind[n].RightBracket? && (a.childs[x] == [] || !HasOpen(a, x))
      && ((IsBinary(a.kind[x]) && |a.childs[x]| < 2)
          || (a.kind[x].LeftBracket? && !a.attached[x] && a.childs[x] == []))
    case Close(x) =>
      x < |a.kind| && Below(a, x, i) && OnSpine(a, x, i)
      && a.kind[n].RightBracket? && a.kind[x].LeftBracket? && !a.attached[x]
    case Reject => true
    case NullParent => true
  }

  /** Descending one level into the last child keeps the landing place
      inside the subtree and on its spine. */
  lemma LandsUp(a: Arena, i: nat, c: nat, n: nat, act: Action)
    requires WellFormed(a) && i < |a.kind| && c < |a.kind| && n < |a.kind|
    requires a.parent[c] == i && a.childs[i] != [] && Last(a.childs[i]) == c
    requires Lands(a, c, n, act)
    ensures Lands(a, i, n, act)
  {
    match act
    case Rotate(x) => BelowChild(a, x, c, i); SpineUp(a, x, c, i);
    case Append(x) => BelowChild(a, x, c, i); SpineUp(a, x, c, i);
    case Close(x) => BelowChild(a, x, c, i); SpineUp(a, x, c, i);
    case Reject =>
    case NullParent =>
  }

  lemma {:induction false} LocateLands(a: Arena, i: nat, n: nat)
    requires WellFormed(a) && i < |a.kind| && n < |a.kind| && 0 < n
    requires a.parent[n] == -1
    ensures Lands(a, i, n, Locate(a, i, n))
    decreases a.bound - a.depth[i], 1
  {
    match a.kind[i]
    case RightBracket =>
    case LeftBracket =>
      BracketArity(a, i);
      if a.kind[n] == RightBracket {
        if !a.attached[i] && a.childs[i] != [] {
          ChildDeeper(a, i, 0);
          var c := a.childs[i][0];
          assert Last(a.childs[i]) == c;
          LocateLands(a, c, n);
          if Locate(a, c, n) != Reject {
            LandsUp(a, i, c, n, Locate(a, c, n));
          }
        }
      } else if a.childs[i] == [] {
      } else if a.attached[i] {
        GenericLands(a, i, n);
      } else {
        ChildDeeper(a, i, 0);
        var c := a.childs[i][0];
        assert Last(a.childs[i]) == c;
        LocateLands(a, c, n);
        LandsUp(a, i, c, n, Locate(a, c, n));
      }
    case _ =>
      GenericLands(a, i, n);
  }

  lemma {:induction false} GenericLands(a: Arena, i: nat, n: nat)
    requires WellFormed(a) && i < |a.kind| && n < |a.kind| && 0 < n
    requires a.parent[n] == -1
    requires !a.kind[i].RightBracket?
    requires a.kind[i].LeftBracket? ==> a.attached[i] && !a.kind[n].RightBracket?
    ensures Lands(a, i, n, Generic(a, i, n))
    decreases a.bound - a.depth[i], 0
  {
    assert ArityOk(a, i);
    if HasOpen(a, i) || (!(Precedence(a.kind[n]) >= Precedence(a.kind[i]) && !a.kind[n].Value?) && IsFull(a, i)) {
      var k := |a.childs[i]| - 1;
      ChildDeeper(a, i, k);
      var c := a.childs[i][k];
      LocateLands(a, c, n);
      LandsUp(a, i, c, n, Locate(a, c, n));
    }
  }

  /** Every node of the subtree of `i` is complete: each operator has both
      operands and each `(` has its `)`. */
  ghost predicate Complete(a: Arena, i: nat)
    requires WellFormed(a) && i < |a.kind|
  {
    forall j :: 0 <= j < |a.kind| && Below(a, j, i) ==>
      (IsBinary(a.kind[j]) ==> |a.childs[j]| == 2) && (a.kind[j].LeftBracket? ==> a.attached[j])
  }

  /** A leaf has only itself in its subtree. */
  lemma BelowLeaf(a: Arena, j: nat, x: nat)
    requires WellFormed(a) && j < |a.kind| && x < |a.kind| && a.childs[x] == []
    requires Below(a, j, x)
    ensures j == x
  {
    if j != x {
      var k := BelowSomeChild(a, j, x);
    }
  }

  /** Completeness of a subtree follows to the subtree of each child. */
  lemma CompleteChild(a: Arena, i: nat, k: nat)
    requires WellFormed(a) && i < |a.kind| && k < |a.childs[i]| && Complete(a, i)
    ensures a.childs[i][k] < |a.kind| && Complete(a, a.childs[i][k])
  {
    ChildDeeper(a, i, k);
    var c := a.childs[i][k];
    forall j | 0 <= j < |a.kind| && Below(a, j, c)
      ensures Below(a, j, i)
    {
      BelowChild(a, j, c, i);
    }
  }

  lemma {:induction false} EvalOkComplete(a: Arena, i: nat, ops: Ops)
    requires WellFormed(a) && i < |a.kind| && Eval(a, i, ops).Ok?
    ensures Complete(a, i)
    decreases a.bound - a.depth[i]
  {
    assert ArityOk(a, i);
    forall j | 0 <= j < |a.kind| && Below(a, j, i)
      ensures (IsBinary(a.kind[j]) ==> |a.childs[j]| == 2) && (a.kind[j].LeftBracket? ==> a.attached[j])
    {
      if j != i {
        var k := BelowSomeChild(a, j, i);
        ChildDeeper(a, i, k);
        var c := a.childs[i][k];
        if a.kind[c].RightBracket? {
          assert ArityOk(a, c);
          BelowLeaf(a, j, c);
        } else {
          EvalChildOk(a, i, k, ops);
          EvalOkComplete(a, c, ops);
        }
      }
    }
  }

  /** A child that is not a `)` of a node that evaluates is itself
      evaluated, and successfully. */
  lemma EvalChildOk(a: Arena, i: nat, k: nat, ops: Ops)
    requires WellFormed(a) && i < |a.kind| && k < |a.childs[i]| && Eval(a, i, ops).Ok?
    requires a.kind[a.childs[i][k]] != RightBracket
    ensures a.childs[i][k] < |a.kind| && Eval(a, a.childs[i][k], ops).Ok?
  {
    assert ArityOk(a, i);
    ChildDeeper(a, i, k);
    if a.kind[i].LeftBracket? {
      assert k == 0;
    } else if k == 1 {
      ChildDeeper(a, i, 0);
    }
  }

  lemma {:induction false} CompleteEvalOk(a: Arena, i: nat, ops: Ops)
    requires WellFormed(a) && i < |a.kind| && Complete(a, i)
    ensures Eval(a, i, ops).Ok?
    decreases a.bound - a.depth[i]
  {
    assert Below(a, i, i);
    assert ArityOk(a, i);
    if IsBinary(a.kind[i]) {
      CompleteChild(a, i, 0);
      CompleteEvalOk(a, a.childs[i][0], ops);
      CompleteChild(a, i, 1);
      CompleteEvalOk(a, a.childs[i][1], ops);
    } else if a.kind[i].LeftBracket? {
      CompleteChild(a, i, 0);
      if a.kind[a.childs[i][0]] != RightBracket {
        CompleteEvalOk(a, a.childs[i][0], ops);
      }
    }
  }

  /** `getValue` returns a number exactly when every operator of the
      subtree has both operands and every `(` of it has been closed. */
  lemma EvalOkIffComplete(a: Arena, i: nat, ops: Ops)
    requires WellFormed(a) && i < |a.kind|
    ensures Eval(a, i, ops).Ok? <==> Complete(a, i)
  {
    if Eval(a, i, ops).Ok? {
      EvalOkComplete(a, i, ops);
    }
    if Complete(a, i) {
      CompleteEvalOk(a, i, ops);
    }
  }

  /** A `(` still waiting for its `)` throws `")" expected`. */
  lemma OpenBracketThrows(a: Arena, i: nat, ops: Ops)
    requires WellFormed(a) && i < |a.kind| && OpenAt(a, i)
    ensures Eval(a, i, ops) == Err(ParenExpected)
  {
    if a.childs[i] != [] {
      BracketArity(a, i);
      assert a.childs[i][0] == Last(a.childs[i]);
    }
  }

  /** A closed `(` yields the value of the expression it encloses, and an
      empty pair `()` yields 0. */
  lemma ClosedBracketValue(a: Arena, i: nat, ops: Ops)
    requires WellFormed(a) && i < |a.kind| && a.kind[i].LeftBracket? && a.attached[i]
    ensures a.childs[i] != [] && a.childs[i][0] < |a.kind|
    ensures Eval(a, i, ops) == Eval(a, a.childs[i][0], ops)
    ensures |a.childs[i]| == 1 ==> Eval(a, i, ops) == Ok(0.0)
  {
    BracketArity(a, i);
    ChildDeeper(a, i, 0);
  }

  /** Under the frontier only the last child can hold an open bracket, so
      the scan of `i` comes down to `i` itself and its last child. */
  lemma OpenOnlyLast(a: Arena, i: nat)
    requires WellFormed(a) && Frontier(a) && i < |a.kind| && a.childs[i] != []
    ensures Last(a.childs[i]) < |a.kind|
    ensures forall k :: 0 <= k < |a.childs[i]| - 1 ==> a.childs[i][k] < |a.kind| && !HasOpen(a, a.childs[i][k])
    ensures HasOpen(a, i) <==> OpenAt(a, i) || HasOpen(a, Last(a.childs[i]))
  {
    ChildDeeper(a, i, |a.childs[i]| - 1);
    forall k | 0 <= k < |a.childs[i]| - 1
      ensures a.childs[i][k] < |a.kind| && !HasOpen(a, a.childs[i][k])
    {
      ChildDeeper(a, i, k);
    }
  }

  /** Under the frontier, a `)` offered at `i` is refused exactly when no
      bracket of the subtree of `i` is open. */
  lemma {:induction false} RefusedIffNoneOpen(a: Arena, i: nat, n: nat)
    requires WellFormed(a) && Frontier(a) && i < |a.kind| && n < |a.kind|
    requires a.kind[n].RightBracket?
    ensures Locate(a, i, n) == Reject <==> !HasOpen(a, i)
    decreases a.bound - a.depth[i], 1
  {
    assert ArityOk(a, i);
    match a.kind[i]
    case RightBracket =>
    case LeftBracket =>
      BracketArity(a, i);
      if a.attached[i] {
        OpenOnlyLast(a, i);
        assert ArityOk(a, Last(a.childs[i]));
      } else if a.childs[i] != [] {
        ChildDeeper(a, i, 0);
        RefusedIffNoneOpen(a, a.childs[i][0], n);
      }
    case _ =>
      GenericRefusedIffNoneOpen(a, i, n);
  }

  lemma {:induction false} GenericRefusedIffNoneOpen(a: Arena, i: nat, n: nat)
    requires WellFormed(a) && Frontier(a) && i < |a.kind| && n < |a.kind|
    requires a.kind[n].RightBracket? && !IsBracket(a.kind[i])
    ensures Generic(a, i, n) == Reject <==> !HasOpen(a, i)
    decreases a.bound - a.depth[i], 0
  {
    assert ArityOk(a, i);
    assert Precedence(a.kind[n]) < Precedence(a.kind[i]);
    if a.childs[i] != [] {
      OpenOnlyLast(a, i);
      ChildDeeper(a, i, |a.childs[i]| - 1);
      RefusedIffNoneOpen(a, Last(a.childs[i]), n);
    }
  }

  /** Under the frontier, a `)` closes a `(` that holds no open bracket
      inside it: the innermost open one. */
  lemma {:induction false} CloseInnermost(a: Arena, i: nat, n: nat)
    requires WellFormed(a) && Frontier(a) && i < |a.kind| && n < |a.kind|
    requires a.kind[n].RightBracket?
    ensures Locate(a, i, n).Close? ==>
              var x := Locate(a, i, n).at;
              x < |a.kind| && forall k :: 0 <= k < |a.childs[x]| ==> a.childs[x][k] < |a.kind| && !HasOpen(a, a.childs[x][k])
    decreases a.bound - a.depth[i], 1
  {
    match a.kind[i]
    case RightBracket =>
    case LeftBracket =>
      BracketArity(a, i);
      if !a.attached[i] && a.childs[i] != [] {
        ChildDeeper(a, i, 0);
        RefusedIffNoneOpen(a, a.childs[i][0], n);
        CloseInnermost(a, a.childs[i][0], n);
      }
    case _ =>
      GenericCloseInnermost(a, i, n);
  }

  lemma {:induction false} GenericCloseInnermost(a: Arena, i: nat, n: nat)
    requires WellFormed(a) && Frontier(a) && i < |a.kind| && n < |a.kind|
    requires a.kind[n].RightBracket? && !IsBracket(a.kind[i])
    ensures Generic(a, i, n).Close? ==>
              var x := Generic(a, i, n).at;
              x < |a.kind| && forall k :: 0 <= k < |a.childs[x]| ==> a.childs[x][k] < |a.kind| && !HasOpen(a, a.childs[x][k])
    decreases a.bound - a.depth[i], 0
  {
    if a.childs[i] != [] {
      ChildDeeper(a, i, |a.childs[i]| - 1);
      CloseInnermost(a, Last(a.childs[i]), n);
    }
  }

  /** A `(` keeps an arriving `)` for itself exactly when it is open and
      no bracket inside it is. */
  lemma ClosesItselfIff(a: Arena, i: nat, n: nat)
    requires WellFormed(a) && Frontier(a) && i < |a.kind| && 0 < n < |a.kind|
    requires a.parent[n] == -1 && a.kind[n].RightBracket? && a.kind[i].LeftBracket?
    ensures Locate(a, i, n) == Close(i) <==>
              !a.attached[i] && forall k :: 0 <= k < |a.childs[i]| ==> a.childs[i][k] < |a.kind| && !HasOpen(a, a.childs[i][k])
  {
    BracketArity(a, i);
    if !a.attached[i] && a.childs[i] != [] {
      ChildDeeper(a, i, 0);
      var c := a.childs[i][0];
      RefusedIffNoneOpen(a, c, n);
      LocateLands(a, c, n);
      NotBelowChild(a, i, 0);
    }
  }

  /** Inserting a node at the root keeps the frontier. With it, every `)`
      of a line closes the innermost open bracket. */
  lemma FrontierKept(a: Arena, n: nat)
    requires Insertable(a, 0, n) && Frontier(a)
    ensures WellFormed(Applied(a, Locate(a, 0, n), n))
    ensures Frontier(Applied(a, Locate(a, 0, n), n))
  {
    LocateLands(a, 0, n);
    match Locate(a, 0, n)
    case Append(x) =>
      AttachedWellFormed(a, x, n);
      AttachedFrontier(a, Attached(a, x, n), x, n);
    case Close(x) =>
      ClosedWellFormed(a, x, n);
      CloseInnermost(a, 0, n);
      BracketArity(a, x);
      if a.childs[x] != [] {
        ChildDeeper(a, x, 0);
      }
      ClosedFrontier(a, Closed(a, x, n), x, n);
    case Rotate(x) =>
      SpineParent(a, x);
      RotatedWellFormed(a, x, n);
      RotatedFrontier(a, Rotated(a, x, n), x, n);
    case Reject =>
    case NullParent =>
  }
}
