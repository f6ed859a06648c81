/** The expression tree of one input line as a value: an arena of nodes
    addressed by index. Node `j` has kind `kind[j]`, ordered children
    `childs[j]`, parent `parent[j]` (-1 stands for a null parent pointer) and,
    for a `(` node, the flag `attached[j]` that records whether its `)` has
    been attached. Node 0 is the implicit outer `(`. The fields `depth` and
    `bound` are proof witnesses only: every child is one level deeper than
    its parent and every depth is below `bound`, so the tree has no cycles
    and every walk down from a node ends. */
module ArenaModel {
  import opened Nodes

  datatype Arena = Arena(
    kind: seq<Kind>,
    childs: seq<seq<nat>>,
    parent: seq<int>,
    attached: seq<bool>,
    ghost depth: seq<nat>,
    ghost bound: nat)

  function Last(s: seq<nat>): nat
    requires s != []
  {
    s[|s| - 1]
  }

  ghost predicate Sized(a: Arena) {
    0 < |a.kind| && |a.childs| == |a.kind| && |a.parent| == |a.kind|
    && |a.attached| == |a.kind| && |a.depth| == |a.kind|
    && a.kind[0] == LeftBracket && a.parent[0] == -1 && a.depth[0] == 0
    && (forall j :: 0 <= j < |a.kind| ==> -1 <= a.parent[j] < |a.kind| && a.depth[j] < a.bound)
  }

  /** Parent and child references agree both ways, child lists hold no
      duplicates, and a child is one level deeper than its parent. */
  ghost predicate Linked(a: Arena)
    requires Sized(a)
  {
    && (forall j, k :: 0 <= j < |a.kind| && 0 <= k < |a.childs[j]| ==>
          a.childs[j][k] < |a.kind| && a.parent[a.childs[j][k]] == j)
    && (forall j :: 0 <= j < |a.kind| && 0 <= a.parent[j] ==>
          j in a.childs[a.parent[j]] && a.depth[j] == a.depth[a.parent[j]] + 1)
    && (forall j, k, l :: 0 <= j < |a.kind| && 0 <= k < l < |a.childs[j]| ==>
          a.childs[j][k] != a.childs[j][l])
  }

  /** The fullness limits of node `j`: a value and a `)` are leaves, a
      binary operator has at most two operands, an open `(` at most one
      child, and a closed `(` at most two, the last being its `)`. */
  ghost predicate ArityOk(a: Arena, j: nat)
    requires Sized(a) && j < |a.kind|
  {
    match a.kind[j]
    case Value(_) => a.childs[j] == [] && !a.attached[j]
    case RightBracket => a.childs[j] == [] && !a.attached[j]
    case LeftBracket =>
      if a.attached[j] then
        0 < |a.childs[j]| <= 2 && Last(a.childs[j]) < |a.kind| && a.kind[Last(a.childs[j])] == RightBracket
      else |a.childs[j]| <= 1
    case _ => |a.childs[j]| <= 2 && !a.attached[j]
  }

  /** Every node keeps its fullness limit, and a `)` only ever sits as the
      last child of the `(` that it closed. */
  ghost predicate Shaped(a: Arena)
    requires Sized(a) && Linked(a)
  {
    && (forall j :: 0 <= j < |a.kind| ==> ArityOk(a, j))
    && (forall j, k :: 0 <= j < |a.kind| && 0 <= k < |a.childs[j]| && a.kind[a.childs[j][k]] == RightBracket ==>
          a.attached[j] && k == |a.childs[j]| - 1)
  }

  ghost predicate WellFormed(a: Arena) {
    Sized(a) && Linked(a) && Shaped(a)
  }

  /** A node just created and not yet inserted anywhere. */
  ghost predicate Detached(a: Arena, n: nat)
    requires WellFormed(a)
  {
    0 < n < |a.kind| && a.parent[n] == -1 && a.childs[n] == [] && !a.attached[n]
  }

  /** `i` is the last child of its parent, the slot a rotation replaces. */
  ghost predicate IsLastChild(a: Arena, i: nat)
    requires WellFormed(a) && i < |a.kind|
  {
    0 <= a.parent[i] && a.childs[a.parent[i]] != [] && Last(a.childs[a.parent[i]]) == i
  }

  /** The precondition of inserting the detached node `n` at node `i`:
      `i` is the root or its parent's last child. */
  ghost predicate Insertable(a: Arena, i: nat, n: nat) {
    WellFormed(a) && i < |a.kind| && Detached(a, n) && (i == 0 || IsLastChild(a, i))
  }

  /** Walking up the parent links from `j` reaches `x`: `j` lies in the
      subtree rooted at `x`. */
  ghost predicate Below(a: Arena, j: nat, x: nat)
    requires j < |a.parent| && |a.depth| == |a.parent|
    decreases a.depth[j]
  {
    if j == x then true
    else if a.parent[j] < 0 || a.parent[j] >= |a.parent| || a.depth[a.parent[j]] >= a.depth[j] then false
    else Below(a, a.parent[j], x)
  }

  lemma ChildDeeper(a: Arena, i: nat, k: nat)
    requires WellFormed(a) && i < |a.kind| && k < |a.childs[i]|
    ensures a.childs[i][k] < |a.kind| && a.parent[a.childs[i][k]] == i
    ensures a.depth[a.childs[i][k]] == a.depth[i] + 1
  {
  }

  /** An open `(` has at most one child; a closed one has its `)` last. */
  lemma BracketArity(a: Arena, i: nat)
    requires WellFormed(a) && i < |a.kind| && a.kind[i].LeftBracket?
    ensures !a.attached[i] ==> |a.childs[i]| <= 1
    ensures a.attached[i] ==> 0 < |a.childs[i]| <= 2 && a.kind[Last(a.childs[i])] == RightBracket
  {
    assert ArityOk(a, i);
  }

  /** A node in the subtree of `x` is at least as deep as `x`. */
  lemma {:induction false} BelowDeeper(a: Arena, j: nat, x: nat)
    requires WellFormed(a) && j < |a.kind| && x < |a.kind| && Below(a, j, x)
    ensures a.depth[j] >= a.depth[x]
    decreases a.depth[j]
  {
    if j != x {
      BelowDeeper(a, a.parent[j], x);
    }
  }

  /** The arena with one more detached node of kind `k`. */
  ghost function Allocated(a: Arena, k: Kind): Arena {
    a.(kind := a.kind + [k], childs := a.childs + [[]], parent := a.parent + [-1],
       attached := a.attached + [false], depth := a.depth + [0])
  }

  lemma AllocatedWellFormed(a: Arena, k: Kind)
    requires WellFormed(a)
    ensures WellFormed(Allocated(a, k)) && Detached(Allocated(a, k), |a.kind|)
  {
    var b := Allocated(a, k);
    forall j, i | 0 <= j < |b.kind| && 0 <= i < |b.childs[j]|
      ensures b.childs[j][i] < |b.kind| && b.parent[b.childs[j][i]] == j
    {
      assert j < |a.kind|;
    }
    forall j | 0 <= j < |b.kind| ensures ArityOk(b, j) {
      if j < |a.kind| { assert ArityOk(a, j); }
    }
  }

  /** `node->parentNode = this; childs.push_back(node);` at node `x`. */
  ghost function Attached(a: Arena, x: nat, n: nat): Arena
    requires x < |a.childs| && x < |a.depth| && n < |a.parent| && n < |a.depth|
  {
    a.(childs := a.childs[x := a.childs[x] + [n]], parent := a.parent[n := x],
       depth := a.depth[n := a.depth[x] + 1], bound := a.bound + 1)
  }

  /** The append changes the target's child list and the new node's
      parent, and nothing else. */
  lemma AttachedShape(a: Arena, x: nat, n: nat)
    requires WellFormed(a) && x < |a.kind| && Detached(a, n) && x != n
    ensures var b := Attached(a, x, n);
      && |b.childs[x]| == |a.childs[x]| + 1 && b.childs[x][..|a.childs[x]|] == a.childs[x]
      && Last(b.childs[x]) == n && b.parent[n] == x
      && (forall j :: 0 <= j < |a.kind| && j != x ==> b.childs[j] == a.childs[j])
      && (forall j :: 0 <= j < |a.kind| && j != n ==> b.parent[j] == a.parent[j])
      && b.kind == a.kind && b.attached == a.attached
  {
    assert (a.childs[x] + [n])[..|a.childs[x]|] == a.childs[x];
  }

  /** Attaching node `n` below `x` keeps the parent and child references
      consistent and the depths one level apart. */
  lemma AttachedLinked(a: Arena, x: nat, n: nat)
    requires WellFormed(a) && x < |a.kind| && Detached(a, n) && x != n
    ensures Sized(Attached(a, x, n)) && Linked(Attached(a, x, n))
  {
    var b := Attached(a, x, n);
    forall j, k | 0 <= j < |b.kind| && 0 <= k < |b.childs[j]|
      ensures b.childs[j][k] < |b.kind| && b.parent[b.childs[j][k]] == j
    {
      if j != x || k < |a.childs[x]| {
        assert b.childs[j][k] == a.childs[j][k];
      }
    }
    forall j | 0 <= j < |b.kind| && 0 <= b.parent[j]
      ensures j in b.childs[b.parent[j]] && b.depth[j] == b.depth[b.parent[j]] + 1
    {
      if j != n {
        assert a.parent[j] != n;
      }
    }
  }

  /** Attaching a node to an operator with a free operand slot, or to an
      empty `(`, keeps the arena well formed. */
  lemma AttachedWellFormed(a: Arena, x: nat, n: nat)
    requires WellFormed(a) && x < |a.kind| && Detached(a, n) && x != n
    requires (IsBinary(a.kind[x]) && |a.childs[x]| < 2)
          || (a.kind[x].LeftBracket? && !a.attached[x] && a.childs[x] == [])
    requires !a.kind[n].RightBracket?
    ensures WellFormed(Attached(a, x, n))
  {
    assert ArityOk(a, x);
    var b := Attached(a, x, n);
    AttachedLinked(a, x, n);
    forall j | 0 <= j < |b.kind| ensures ArityOk(b, j) {
      assert ArityOk(a, j);
    }
    forall j, k | 0 <= j < |b.kind| && 0 <= k < |b.childs[j]| && b.kind[b.childs[j][k]] == RightBracket
      ensures b.attached[j] && k == |b.childs[j]| - 1
    {
      if j != x {
        assert b.childs[j][k] == a.childs[j][k];
      }
    }
  }

  /** A `(` attaching its `)` and marking itself full. */
  ghost function Closed(a: Arena, x: nat, n: nat): Arena
    requires x < |a.childs| && x < |a.depth| && x < |a.attached| && n < |a.parent| && n < |a.depth|
  {
    var b := Attached(a, x, n);
    b.(attached := b.attached[x := true])
  }

  lemma ClosedWellFormed(a: Arena, x: nat, n: nat)
    requires WellFormed(a) && x < |a.kind| && Detached(a, n) && x != n
    requires a.kind[x].LeftBracket? && !a.attached[x]
    requires a.kind[n].RightBracket?
    ensures WellFormed(Closed(a, x, n))
  {
    assert ArityOk(a, x);
    var b := Closed(a, x, n);
    forall j, k | 0 <= j < |b.kind| && 0 <= k < |b.childs[j]|
      ensures b.childs[j][k] < |b.kind| && b.parent[b.childs[j][k]] == j
    {
      if j != x || k < |a.childs[x]| {
        assert b.childs[j][k] == a.childs[j][k];
      }
    }
    forall j | 0 <= j < |b.kind| && 0 <= b.parent[j]
      ensures j in b.childs[b.parent[j]] && b.depth[j] == b.depth[b.parent[j]] + 1
    {
      if j != n {
        assert a.parent[j] != n;
      }
    }
    forall j | 0 <= j < |b.kind| ensures ArityOk(b, j) {
      assert ArityOk(a, j);
    }
    forall j, k | 0 <= j < |b.kind| && 0 <= k < |b.childs[j]| && b.kind[b.childs[j][k]] == RightBracket
      ensures b.attached[j] && k == |b.childs[j]| - 1
    {
      if j != x || k < |a.childs[x]| {
        assert b.childs[j][k] == a.childs[j][k];
      }
    }
  }

  /** The depths after node `n` is put between `x` and its parent: `n`
      takes `x`'s depth and the subtree of `x` moves one level down. */
  ghost function RotatedDepth(a: Arena, x: nat, n: nat): (d: seq<nat>)
    requires |a.depth| == |a.parent| && x < |a.depth|
    ensures |d| == |a.depth|
    ensures forall j :: 0 <= j < |d| ==>
              d[j] == if j == n then a.depth[x] else if Below(a, j, x) then a.depth[j] + 1 else a.depth[j]
  {
    seq(|a.depth|, j requires 0 <= j < |a.depth| =>
      if j == n then a.depth[x] else if Below(a, j, x) then a.depth[j] + 1 else a.depth[j])
  }

  /** The rotation: `n` replaces `x` in the last slot of `x`'s parent and
      `x` becomes `n`'s only child. */
  ghost function Rotated(a: Arena, x: nat, n: nat): Arena
    requires x < |a.parent| && n < |a.parent| && n < |a.childs| && |a.depth| == |a.parent|
    requires 0 <= a.parent[x] < |a.childs| && a.childs[a.parent[x]] != []
  {
    var p := a.parent[x];
    a.(childs := a.childs[p := a.childs[p][..|a.childs[p]| - 1] + [n]][n := [x]],
       parent := a.parent[n := p][x := n],
       depth := RotatedDepth(a, x, n), bound := a.bound + 1)
  }

  /** What the rotation at `x` with node `n` needs: `x` is attached as its
      parent's last child, is not a `)`, and `n` is a fresh operator node. */
  ghost predicate CanRotate(a: Arena, x: nat, n: nat) {
    WellFormed(a) && x < |a.kind| && Detached(a, n) && IsLastChild(a, x)
    && !a.kind[x].RightBracket? && !a.kind[n].RightBracket? && !a.kind[n].Value?
  }

  /** The rotation keeps the parent's child count, puts the new node in
      the parent's last slot above `x`, and changes no other node. */
  lemma RotatedShape(a: Arena, x: nat, n: nat)
    requires CanRotate(a, x, n)
    ensures var p := a.parent[x]; var b := Rotated(a, x, n);
      && |b.childs[p]| == |a.childs[p]| && Last(b.childs[p]) == n
      && b.childs[p][..|a.childs[p]| - 1] == a.childs[p][..|a.childs[p]| - 1]
      && b.childs[n] == [x] && b.parent[n] == p && b.parent[x] == n
      && (forall j :: 0 <= j < |a.kind| && j != p && j != n ==> b.childs[j] == a.childs[j])
      && (forall j :: 0 <= j < |a.kind| && j != x && j != n ==> b.parent[j] == a.parent[j])
      && b.kind == a.kind && b.attached == a.attached
  {
    var p := a.parent[x];
    assert p != n;
    var front := a.childs[p][..|a.childs[p]| - 1];
    assert (front + [n])[..|a.childs[p]| - 1] == front;
  }

  lemma RotatedDepths(a: Arena, x: nat, n: nat)
    requires CanRotate(a, x, n)
    ensures var b := Rotated(a, x, n); var p := a.parent[x];
      !Below(a, p, x) && b.depth[p] == a.depth[p] && b.depth[x] == a.depth[x] + 1
      && b.depth[n] == a.depth[x] && Sized(b)
  {
    var p := a.parent[x];
    var b := Rotated(a, x, n);
    forall j | 0 <= j < |a.kind| && Below(a, j, x)
      ensures a.depth[j] >= a.depth[x]
    {
      BelowDeeper(a, j, x);
    }
    assert !Below(a, p, x);
  }

  lemma RotatedChildLinks(a: Arena, x: nat, n: nat)
    requires CanRotate(a, x, n)
    ensures var b := Rotated(a, x, n);
      Sized(b)
      && (forall j, k :: 0 <= j < |b.kind| && 0 <= k < |b.childs[j]| ==>
            b.childs[j][k] < |b.kind| && b.parent[b.childs[j][k]] == j)
      && (forall j, k, l :: 0 <= j < |b.kind| && 0 <= k < l < |b.childs[j]| ==>
            b.childs[j][k] != b.childs[j][l])
  {
    RotatedDepths(a, x, n);
    var p := a.parent[x];
    var last := |a.childs[p]| - 1;
    var b := Rotated(a, x, n);
    forall j, k | 0 <= j < |b.kind| && 0 <= k < |b.childs[j]|
      ensures b.childs[j][k] < |b.kind| && b.parent[b.childs[j][k]] == j
    {
      if j == p && k < last {
        assert b.childs[j][k] == a.childs[p][k];
        assert a.childs[p][k] != a.childs[p][last];
      } else if j != p && j != n {
        assert b.childs[j][k] == a.childs[j][k];
      }
    }
    forall j, k, l | 0 <= j < |b.kind| && 0 <= k < l < |b.childs[j]|
      ensures b.childs[j][k] != b.childs[j][l]
    {
      if j == p {
        if l < last {
          assert b.childs[j][k] == a.childs[p][k] && b.childs[j][l] == a.childs[p][l];
        } else {
          assert b.childs[j][k] == a.childs[p][k];
        }
      }
    }
  }

  lemma RotatedParentLinks(a: Arena, x: nat, n: nat)
    requires CanRotate(a, x, n)
    ensures var b := Rotated(a, x, n);
      Sized(b)
      && (forall j :: 0 <= j < |b.kind| && 0 <= b.parent[j] ==>
            j in b.childs[b.parent[j]] && b.depth[j] == b.depth[b.parent[j]] + 1)
  {
    RotatedDepths(a, x, n);
    var p := a.parent[x];
    var last := |a.childs[p]| - 1;
    var b := Rotated(a, x, n);
    forall j | 0 <= j < |b.kind| && 0 <= b.parent[j]
      ensures j in b.childs[b.parent[j]] && b.depth[j] == b.depth[b.parent[j]] + 1
    {
      if j != n && j != x {
        var q := a.parent[j];
        assert b.parent[j] == q;
        assert q != n;
        if q == p {
          var k :| 0 <= k < |a.childs[p]| && a.childs[p][k] == j;
          assert k < last;
          assert b.childs[p][k] == j;
        }
        assert Below(a, j, x) == Below(a, q, x);
      }
    }
  }

  lemma RotatedWellFormed(a: Arena, x: nat, n: nat)
    requires CanRotate(a, x, n)
    ensures WellFormed(Rotated(a, x, n))
  {
    RotatedChildLinks(a, x, n);
    RotatedParentLinks(a, x, n);
    var p := a.parent[x];
    var last := |a.childs[p]| - 1;
    var b := Rotated(a, x, n);
    assert Linked(b);
    assert ArityOk(a, p);
    forall j | 0 <= j < |b.kind| ensures ArityOk(b, j) {
      if j != n { assert ArityOk(a, j); }
    }
    forall j, k | 0 <= j < |b.kind| && 0 <= k < |b.childs[j]| && b.kind[b.childs[j][k]] == RightBracket
      ensures b.attached[j] && k == |b.childs[j]| - 1
    {
      if j != p && j != n {
        assert b.childs[j][k] == a.childs[j][k];
      }
    }
  }

  /** The subtree of a child lies in the subtree of its parent. */
  lemma {:induction false} BelowChild(a: Arena, j: nat, c: nat, x: nat)
    requires WellFormed(a) && j < |a.kind| && c < |a.kind| && x < |a.kind|
    requires Below(a, j, c) && a.parent[c] == x
    ensures Below(a, j, x)
    decreases a.depth[j]
  {
    if j != c {
      BelowChild(a, a.parent[j], c, x);
    }
  }

  /** A node strictly inside the subtree of `x` lies in the subtree of
      one of `x`'s children. */
  lemma {:induction false} BelowSomeChild(a: Arena, j: nat, x: nat) returns (k: nat)
    requires WellFormed(a) && j < |a.kind| && x < |a.kind| && Below(a, j, x) && j != x
    ensures k < |a.childs[x]| && Below(a, j, a.childs[x][k])
    decreases a.depth[j]
  {
    var q := a.parent[j];
    if q == x {
      k :| 0 <= k < |a.childs[x]| && a.childs[x][k] == j;
    } else {
      k := BelowSomeChild(a, q, x);
    }
  }
}
