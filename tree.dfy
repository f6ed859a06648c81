/** `SyntaxTree`: the live expression tree of one input line, and the
    insertion of one node at a time (`addChild` and its overrides), which
    rewires the tree in place as the dispatch rules decide. */
module Tree {
  import opened Nodes
  import opened ArenaModel
  import opened Dispatch

  class SyntaxTree {
    var kind: seq<Kind>
    var childs: seq<seq<nat>>
    var parent: seq<int>
    var attached: seq<bool>
    ghost var depth: seq<nat>
    ghost var bound: nat

    function Snapshot(): Arena
      reads this
    {
      Arena(kind, childs, parent, attached, depth, bound)
    }

    ghost predicate Valid()
      reads this
    {
      WellFormed(Snapshot())
    }

    /** `SyntaxTree()`: a tree holding only the implicit outer `(`. */
    constructor ()
      ensures Valid() && kind == [LeftBracket] && childs == [[]]
      ensures parent == [-1] && attached == [false]
    {
      kind, childs, parent, attached := [LeftBracket], [[]], [-1], [false];
      depth, bound := [0], 1;
    }

    /** `new OperatorX()`: a detached node of kind `k`. */
    method NewNode(k: Kind) returns (n: nat)
      requires Valid()
      modifies this
      ensures Valid() && Detached(Snapshot(), n) && n == old(|kind|)
      ensures Snapshot() == Allocated(old(Snapshot()), k)
    {
      AllocatedWellFormed(Snapshot(), k);
      n := |kind|;
      kind, childs, parent, attached := kind + [k], childs + [[]], parent + [-1], attached + [false];
      depth := depth + [0];
    }

    /** `node->parentNode = this; childs.push_back(node);` for an operator
        with a free operand slot or an empty `(`. */
    method AppendAt(x: nat, n: nat)
      requires Valid() && x < |kind| && Detached(Snapshot(), n) && x != n
      requires (IsBinary(kind[x]) && |childs[x]| < 2)
            || (kind[x].LeftBracket? && !attached[x] && childs[x] == [])
      requires !kind[n].RightBracket?
      modifies this
      ensures Valid() && Snapshot() == Attached(old(Snapshot()), x, n)
    {
      AttachedWellFormed(Snapshot(), x, n);
      childs := childs[x := childs[x] + [n]];
      parent := parent[n := x];
      depth := depth[n := depth[x] + 1];
      bound := bound + 1;
    }

    /** A `(` attaching its `)`: push it, set its parent and set
        `hasRightBracketAttached`. */
    method CloseAt(x: nat, n: nat)
      requires Valid() && x < |kind| && Detached(Snapshot(), n) && x != n
      requires kind[x].LeftBracket? && !attached[x]
      requires kind[n].RightBracket?
      modifies this
      ensures Valid() && Snapshot() == Closed(old(Snapshot()), x, n)
    {
      ClosedWellFormed(Snapshot(), x, n);
      childs := childs[x := childs[x] + [n]];
      parent := parent[n := x];
      attached := attached[x := true];
      depth := depth[n := depth[x] + 1];
      bound := bound + 1;
    }

    /** The rotation: `node` takes `this`'s (here `x`'s) place as the last
        child of `x`'s parent, and `x` becomes `node`'s only child. */
    method RotateAt(x: nat, n: nat)
      requires Valid() && x < |kind| && Detached(Snapshot(), n) && IsLastChild(Snapshot(), x)
      requires !kind[x].RightBracket?
      requires !kind[n].RightBracket? && !kind[n].Value?
      modifies this
      ensures Valid() && Snapshot() == Rotated(old(Snapshot()), x, n)
    {
      RotatedWellFormed(Snapshot(), x, n);
      ghost var d := RotatedDepth(Snapshot(), x, n);
      var p := parent[x];
      parent := parent[n := p][x := n];
      childs := childs[p := childs[p][..|childs[p]| - 1] + [n]][n := [x]];
      depth := d;
      bound := bound + 1;
    }

    /** `addChild` on node `i` with the detached node `n`: the overrides of
        `)` (reject every child) and `(`, and the generic rule otherwise.
        It performs exactly the action the dispatch selects. */
    method AddChild(i: nat, n: nat) returns (r: Outcome)
      requires Insertable(Snapshot(), i, n)
      modifies this
      ensures Valid() && kind == old(kind)
      ensures r == old(Locate(Snapshot(), i, n)).Outcome()
      ensures Snapshot() == Applied(old(Snapshot()), old(Locate(Snapshot(), i, n)), n)
      decreases bound - depth[i], 1
    {
      ghost var act := Locate(Snapshot(), i, n);
      match kind[i]
      case RightBracket =>
        r := Rejected;
      case LeftBracket =>
        if kind[n] == RightBracket {
          if attached[i] {
            r := Rejected;
          } else if childs[i] == [] {
            assert act == Close(i);
            CloseAt(i, n);
            r := Added;
          } else {
            BracketArity(Snapshot(), i);
            ChildDeeper(Snapshot(), i, 0);
            var c := childs[i][0];
            ghost var sub := Locate(Snapshot(), c, n);
            r := AddChild(c, n);
            if r == Rejected {
              assert sub == Reject && act == Close(i);
              assert Snapshot() == old(Snapshot());
              CloseAt(i, n);
              r := Added;
            } else {
              assert act == sub;
            }
          }
        } else if childs[i] == [] {
          BracketArity(Snapshot(), i);
          assert act == Append(i);
          AppendAt(i, n);
          r := Added;
        } else if attached[i] {
          assert act == Generic(Snapshot(), i, n);
          r := GenericAddChild(i, n);
        } else {
          BracketArity(Snapshot(), i);
          ChildDeeper(Snapshot(), i, 0);
          assert act == Locate(Snapshot(), childs[i][0], n);
          r := AddChild(childs[i][0], n);
        }
      case _ =>
        r := GenericAddChild(i, n);
    }

    /** `OperatorNode::addChild`: descend into an open bracket, rotate the
        new node above `i`, descend into a full node, or append. */
    method GenericAddChild(i: nat, n: nat) returns (r: Outcome)
      requires Insertable(Snapshot(), i, n)
      requires !kind[i].RightBracket?
      requires kind[i].LeftBracket? ==> attached[i] && !kind[n].RightBracket?
      modifies this
      ensures Valid() && kind == old(kind)
      ensures r == old(Generic(Snapshot(), i, n)).Outcome()
      ensures Snapshot() == Applied(old(Snapshot()), old(Generic(Snapshot(), i, n)), n)
      decreases bound - depth[i], 0
    {
      if HasOpen(Snapshot(), i) {
        ChildDeeper(Snapshot(), i, |childs[i]| - 1);
        r := AddChild(Last(childs[i]), n);
      } else if Precedence(kind[n]) >= Precedence(kind[i]) && !kind[n].Value? {
        if parent[i] < 0 {
          r := NullDeref;
        } else {
          RotateAt(i, n);
          r := Added;
        }
      } else if IsFull(Snapshot(), i) {
        ChildDeeper(Snapshot(), i, |childs[i]| - 1);
        r := AddChild(Last(childs[i]), n);
      } else if kind[n] == RightBracket || kind[i].Value? {
        r := Rejected;
      } else {
        assert ArityOk(Snapshot(), i);
        AppendAt(i, n);
        r := Added;
      }
    }
  }
}
