/** The bracket frontier of a tree. An open `(` can only lie on the
    rightmost spine: no child other than a node's last holds one in its
    subtree. Each of the three pointer surgeries keeps this when it is
    applied where the insertion rules apply it, which is why a `)` always
    finds the innermost open bracket. */
module Spine {
  import opened Nodes
  import opened ArenaModel
  import opened Dispatch

  /** No child other than the last one holds an open bracket. */
  ghost predicate Frontier(a: Arena)
    requires WellFormed(a)
  {
    forall j, k :: 0 <= j < |a.kind| && 0 <= k < |a.childs[j]| - 1 ==> !HasOpen(a, a.childs[j][k])
  }

  /** Walking up from `x` to `i` passes through last children only. */
  ghost predicate OnSpine(a: Arena, x: nat, i: nat)
    requires Sized(a) && x < |a.kind|
    decreases a.depth[x]
  {
    if x == i then true
    else if a.parent[x] < 0 || a.depth[a.parent[x]] >= a.depth[x] then false
    else a.childs[a.parent[x]] != [] && Last(a.childs[a.parent[x]]) == x && OnSpine(a, a.parent[x], i)
  }

  /** A spine path to a last child extends to that child's parent. */
  lemma {:induction false} SpineUp(a: Arena, x: nat, c: nat, i: nat)
    requires WellFormed(a) && x < |a.kind| && c < |a.kind| && i < |a.kind|
    requires OnSpine(a, x, c) && a.parent[c] == i && a.childs[i] != [] && Last(a.childs[i]) == c
    ensures OnSpine(a, x, i)
    decreases a.depth[x]
  {
    assert c in a.childs[i];
    if x != c && x != i {
      SpineUp(a, a.parent[x], c, i);
    }
  }

  /** An open bracket below a child is an open bracket below its parent. */
  lemma OpenUp(a: Arena, y: nat, k: nat)
    requires WellFormed(a) && y < |a.kind| && k < |a.childs[y]|
    ensures a.childs[y][k] < |a.kind|
    ensures HasOpen(a, a.childs[y][k]) ==> HasOpen(a, y)
  {
    ChildDeeper(a, y, k);
    if HasOpen(a, a.childs[y][k]) {
      assert 0 <= k < |a.childs[y]| && (ChildDeeper(a, y, k); HasOpen(a, a.childs[y][k]));
    }
  }

  /** A node does not lie below its own child. */
  lemma NotBelowChild(a: Arena, x: nat, k: nat)
    requires WellFormed(a) && x < |a.kind| && k < |a.childs[x]|
    ensures a.childs[x][k] < |a.kind| && !Below(a, x, a.childs[x][k])
  {
    ChildDeeper(a, x, k);
    if Below(a, x, a.childs[x][k]) {
      BelowDeeper(a, x, a.childs[x][k]);
    }
  }

  /** Every node on the path from a spine node up to the root, other
      than the root, is the last child of its parent. */
  lemma {:induction false} SpineAncestorLast(a: Arena, x: nat, y: nat)
    requires WellFormed(a) && x < |a.kind| && y < |a.kind| && OnSpine(a, x, 0)
    ensures Below(a, x, y) && 0 <= a.parent[y] ==>
              a.childs[a.parent[y]] != [] && Last(a.childs[a.parent[y]]) == y
    decreases a.depth[x]
  {
    if x != y && x != 0 {
      SpineAncestorLast(a, a.parent[x], y);
    }
  }

  /** A spine node whose parent exists is its parent's last child, and
      that parent is on the spine too. */
  lemma SpineParent(a: Arena, x: nat)
    requires WellFormed(a) && x < |a.kind| && OnSpine(a, x, 0) && 0 <= a.parent[x]
    ensures IsLastChild(a, x) && OnSpine(a, a.parent[x], 0)
  {
  }

  /** A non-last child is off the spine: no spine node lies below it. */
  lemma OffSpine(a: Arena, x: nat, j: nat, k: nat)
    requires WellFormed(a) && x < |a.kind| && j < |a.kind| && k < |a.childs[j]| - 1
    requires OnSpine(a, x, 0)
    ensures a.childs[j][k] < |a.kind| && !Below(a, x, a.childs[j][k])
  {
    ChildDeeper(a, j, k);
    SpineAncestorLast(a, x, a.childs[j][k]);
  }

  /** The open brackets after an append: the old ones, the new node, and
      brackets above the target. */
  lemma {:induction false} AttachedHasOpen(a: Arena, b: Arena, x: nat, n: nat, y: nat)
    requires WellFormed(a) && x < |a.kind| && Detached(a, n) && x != n
    requires b == Attached(a, x, n) && WellFormed(b) && y < |a.kind|
    ensures HasOpen(b, y) ==> HasOpen(a, y) || y == n || Below(a, x, y)
    decreases b.bound - b.depth[y]
  {
    if HasOpen(b, y) && y != x && y != n && !OpenAt(b, y) {
      var k :| 0 <= k < |b.childs[y]| && (ChildDeeper(b, y, k); HasOpen(b, b.childs[y][k]));
      ChildDeeper(b, y, k);
      var c := b.childs[y][k];
      assert b.childs[y] == a.childs[y];
      AttachedHasOpen(a, b, x, n, c);
      OpenUp(a, y, k);
      ChildDeeper(a, y, k);
      if !HasOpen(a, c) {
        BelowChild(a, x, c, y);
      }
    } else if y == x {
      assert Below(a, x, x);
    }
  }

  /** An append keeps the frontier when it happens on the spine, at a node
      that is empty or holds no open bracket. */
  lemma AttachedFrontier(a: Arena, b: Arena, x: nat, n: nat)
    requires WellFormed(a) && Frontier(a) && x < |a.kind| && Detached(a, n) && x != n
    requires b == Attached(a, x, n) && WellFormed(b)
    requires OnSpine(a, x, 0) && (a.childs[x] == [] || !HasOpen(a, x))
    ensures Frontier(b)
  {
    forall j, k | 0 <= j < |b.kind| && 0 <= k < |b.childs[j]| - 1
      ensures !HasOpen(b, b.childs[j][k])
    {
      if j == x {
        assert b.childs[x][k] == a.childs[x][k];
        OpenUp(a, x, k);
        NotBelowChild(a, x, k);
      } else {
        assert b.childs[j] == a.childs[j];
        OffSpine(a, x, j, k);
      }
      ChildDeeper(a, j, k);
      AttachedHasOpen(a, b, x, n, a.childs[j][k]);
    }
  }

  /** Closing a bracket opens nothing. */
  lemma {:induction false} ClosedHasOpen(a: Arena, b: Arena, x: nat, n: nat, y: nat)
    requires WellFormed(a) && x < |a.kind| && Detached(a, n) && x != n
    requires a.kind[x].LeftBracket? && a.kind[n].RightBracket?
    requires b == Closed(a, x, n) && WellFormed(b) && y < |a.kind|
    ensures HasOpen(b, y) ==> HasOpen(a, y)
    decreases b.bound - b.depth[y]
  {
    assert !HasOpen(b, n) by {
      assert b.childs[n] == [] && !OpenAt(b, n);
    }
    if HasOpen(b, y) && !OpenAt(b, y) {
      var k :| 0 <= k < |b.childs[y]| && (ChildDeeper(b, y, k); HasOpen(b, b.childs[y][k])) && b.childs[y][k] != n;
      ChildDeeper(b, y, k);
      var c := b.childs[y][k];
      assert k < |a.childs[y]| && c == a.childs[y][k];
      ClosedHasOpen(a, b, x, n, c);
      OpenUp(a, y, k);
    }
  }

  /** Closing a bracket keeps the frontier when nothing below it is still
      open. */
  lemma ClosedFrontier(a: Arena, b: Arena, x: nat, n: nat)
    requires WellFormed(a) && Frontier(a) && x < |a.kind| && Detached(a, n) && x != n
    requires a.kind[x].LeftBracket? && !a.attached[x] && a.kind[n].RightBracket?
    requires b == Closed(a, x, n) && WellFormed(b)
    requires a.childs[x] == [] || (a.childs[x][0] < |a.kind| && !HasOpen(a, a.childs[x][0]))
    ensures Frontier(b)
  {
    BracketArity(a, x);
    forall j, k | 0 <= j < |b.kind| && 0 <= k < |b.childs[j]| - 1
      ensures !HasOpen(b, b.childs[j][k])
    {
      if j == x {
        assert b.childs[x][k] == a.childs[x][k];
      } else {
        assert b.childs[j] == a.childs[j];
      }
      ChildDeeper(a, j, k);
      ClosedHasOpen(a, b, x, n, a.childs[j][k]);
    }
  }

  /** The open brackets after a rotation: the old ones, the new node, and
      brackets at or above the parent of the rotated node. */
  lemma {:induction false} RotatedHasOpen(a: Arena, b: Arena, x: nat, n: nat, y: nat)
    requires CanRotate(a, x, n)
    requires b == Rotated(a, x, n) && WellFormed(b) && y < |a.kind|
    ensures HasOpen(b, y) ==> HasOpen(a, y) || y == n || Below(a, a.parent[x], y)
    decreases b.bound - b.depth[y]
  {
    var p := a.parent[x];
    if HasOpen(b, y) && y != n && y != p && !OpenAt(b, y) {
      var k :| 0 <= k < |b.childs[y]| && (ChildDeeper(b, y, k); HasOpen(b, b.childs[y][k]));
      ChildDeeper(b, y, k);
      var c := b.childs[y][k];
      assert b.childs[y] == a.childs[y];
      RotatedHasOpen(a, b, x, n, c);
      OpenUp(a, y, k);
      ChildDeeper(a, y, k);
      if !HasOpen(a, c) {
        BelowChild(a, p, c, y);
      }
    } else if y == p {
      assert Below(a, p, p);
    }
  }

  /** A rotation keeps the frontier when it happens on the spine above a
      subtree with no open bracket. */
  lemma RotatedFrontier(a: Arena, b: Arena, x: nat, n: nat)
    requires CanRotate(a, x, n) && Frontier(a)
    requires b == Rotated(a, x, n) && WellFormed(b)
    requires OnSpine(a, x, 0) && !HasOpen(a, x)
    ensures Frontier(b)
  {
    var p := a.parent[x];
    SpineParent(a, x);
    forall j, k | 0 <= j < |b.kind| && 0 <= k < |b.childs[j]| - 1
      ensures !HasOpen(b, b.childs[j][k])
    {
      if j == p {
        assert b.childs[p][k] == a.childs[p][k];
        NotBelowChild(a, p, k);
        ChildDeeper(a, p, k);
        RotatedHasOpen(a, b, x, n, a.childs[p][k]);
      } else if j != n {
        assert b.childs[j] == a.childs[j];
        OffSpine(a, p, j, k);
        ChildDeeper(a, j, k);
        RotatedHasOpen(a, b, x, n, a.childs[j][k]);
      }
    }
  }

  /** A new detached node changes no open bracket below the old nodes. */
  lemma {:induction false} AllocatedHasOpen(a: Arena, k: Kind, y: nat)
    requires WellFormed(a) && WellFormed(Allocated(a, k)) && y < |a.kind|
    ensures HasOpen(Allocated(a, k), y) == HasOpen(a, y)
    decreases a.bound - a.depth[y]
  {
    var b := Allocated(a, k);
    assert b.childs[y] == a.childs[y];
    if HasOpen(b, y) && !OpenAt(b, y) {
      var c :| 0 <= c < |b.childs[y]| && (ChildDeeper(b, y, c); HasOpen(b, b.childs[y][c]));
      ChildDeeper(a, y, c);
      AllocatedHasOpen(a, k, a.childs[y][c]);
      OpenUp(a, y, c);
    } else if HasOpen(a, y) && !OpenAt(a, y) {
      var c :| 0 <= c < |a.childs[y]| && (ChildDeeper(a, y, c); HasOpen(a, a.childs[y][c]));
      ChildDeeper(b, y, c);
      AllocatedHasOpen(a, k, a.childs[y][c]);
      OpenUp(b, y, c);
    }
  }

  /** Creating a node keeps the frontier. */
  lemma AllocatedFrontier(a: Arena, k: Kind)
    requires WellFormed(a) && Frontier(a)
    ensures WellFormed(Allocated(a, k)) && Frontier(Allocated(a, k))
  {
    var b := Allocated(a, k);
    AllocatedWellFormed(a, k);
    forall j, c | 0 <= j < |b.kind| && 0 <= c < |b.childs[j]| - 1
      ensures !HasOpen(b, b.childs[j][c])
    {
      assert j < |a.kind| && b.childs[j] == a.childs[j];
      ChildDeeper(a, j, c);
      AllocatedHasOpen(a, k, a.childs[j][c]);
    }
  }
}
