/** How the insertion rules group operators: an operator of equal or
    looser rank is rotated above the operation built so far, a tighter one
    passes the operation by and is rotated above its numeric right operand,
    and an empty `(` takes any first token. */
module Grouping {
  import opened Nodes
  import opened ArenaModel
  import opened Dispatch

  /** The line so far is a single complete operation `x` directly under
      the open root, with no open bracket inside it. */
  ghost predicate OneOperation(a: Arena, x: nat)
    requires WellFormed(a)
  {
    x < |a.kind| && a.kind[0] == LeftBracket && !a.attached[0] && a.childs[0] == [x]
    && IsBinary(a.kind[x]) && |a.childs[x]| == 2 && !HasOpen(a, x)
  }

  /** An operator whose rank is no tighter than that of `x` is rotated
      above `x`: `x` becomes its first operand. With equal ranks this is
      left association, so `2^3^2` groups as `(2^3)^2`. */
  lemma LooserRotatesAbove(a: Arena, x: nat, n: nat)
    requires Insertable(a, 0, n) && 0 < n && OneOperation(a, x)
    requires IsBinary(a.kind[n]) && Precedence(a.kind[n]) >= Precedence(a.kind[x])
    ensures Locate(a, 0, n) == Rotate(x)
    ensures var b := Applied(a, Rotate(x), n);
            b.childs[0] == [n] && b.childs[n] == [x] && b.parent[x] == n && b.childs[x] == a.childs[x]
  {
    assert a.childs[0][0] == x;
    assert a.parent[x] == 0;
    assert Locate(a, 0, n) == Locate(a, x, n) == Generic(a, x, n);
    RotatedShape(a, x, n);
  }

  /** An operator that binds tighter than `x` passes `x` by and is rotated
      above its second operand when that is a number: `2+3*4` groups as
      `2+(3*4)`. */
  lemma TighterTakesRightOperand(a: Arena, x: nat, n: nat)
    requires Insertable(a, 0, n) && 0 < n && OneOperation(a, x)
    requires a.childs[x][1] < |a.kind| && a.kind[a.childs[x][1]].Value?
    requires IsBinary(a.kind[n]) && Precedence(a.kind[n]) < Precedence(a.kind[x])
    ensures Locate(a, 0, n) == Rotate(a.childs[x][1])
    ensures var y := a.childs[x][1];
            var b := Applied(a, Rotate(y), n);
            b.childs[0] == [x] && b.childs[x] == [a.childs[x][0], n] && b.childs[n] == [y] && b.parent[n] == x
  {
    var y := a.childs[x][1];
    assert a.childs[0][0] == x && a.parent[x] == 0;
    assert a.parent[y] == x;
    assert ArityOk(a, y);
    assert !HasOpen(a, y) by {
      assert a.childs[y] == [];
    }
    assert Locate(a, 0, n) == Locate(a, x, n) == Generic(a, x, n);
    assert IsFull(a, x) && Last(a.childs[x]) == y;
    assert Generic(a, x, n) == Locate(a, y, n);
    assert Precedence(a.kind[n]) >= Precedence(a.kind[y]);
    assert Locate(a, y, n) == Generic(a, y, n) == Rotate(y);
    RotatedShape(a, y, n);
  }

  /** An empty `(` takes the first token as its first child whatever it
      is, short of a `)`: in `-5+3` the `-` becomes the root's child and
      the `5` its only operand. */
  lemma EmptyBracketTakesAny(a: Arena, i: nat, n: nat)
    requires WellFormed(a) && i < |a.kind| && n < |a.kind| && Detached(a, n) && i != n
    requires a.kind[i].LeftBracket? && a.childs[i] == [] && !a.kind[n].RightBracket?
    ensures Locate(a, i, n) == Append(i)
    ensures Applied(a, Append(i), n).childs[i] == [n]
  {
    AttachedShape(a, i, n);
  }

  /** A number offered to an operator that has no operand yet becomes its
      first operand. */
  lemma OperandFillsEmptyOperator(a: Arena, i: nat, n: nat)
    requires WellFormed(a) && i < |a.kind| && n < |a.kind| && Detached(a, n) && i != n
    requires IsBinary(a.kind[i]) && a.childs[i] == [] && a.kind[n].Value?
    ensures Locate(a, i, n) == Append(i)
    ensures Applied(a, Append(i), n).childs[i] == [n]
  {
    assert !HasOpen(a, i);
    AttachedShape(a, i, n);
  }

  /** An operator with fewer than two operands throws `out_of_range` once
      its first operand, if any, evaluates. */
  lemma ShortOperatorThrows(a: Arena, i: nat, ops: Ops)
    requires WellFormed(a) && i < |a.kind| && IsBinary(a.kind[i]) && |a.childs[i]| < 2
    requires a.childs[i] != [] ==> a.childs[i][0] < |a.kind| && Eval(a, a.childs[i][0], ops).Ok?
    ensures Eval(a, i, ops) == Err(OutOfRange)
  {
  }
}
