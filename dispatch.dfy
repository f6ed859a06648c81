/** The pure rules of the node classes, over an arena value: `isFull`,
    `hasOpenLeftBracket`, the choice `addChild` makes for a new node, and
    `getValue`. The class `SyntaxTree` applies them to its own fields. */
module Dispatch {
  import opened Nodes
  import opened ArenaModel

  /** What one insertion does to the tree, as decided by the dispatch. */
  datatype Action =
    | Rotate(at: nat)   // the new node takes `at`'s place and adopts it
    | Append(at: nat)   // the new node becomes `at`'s last child
    | Close(at: nat)    // the new `)` closes the `(` node `at`
    | Reject            // insertion refused; nothing changes
    | NullParent        // the rotation rule reached a node without parent
  {
    function Outcome(): Outcome {
      match this
      case Reject => Rejected
      case NullParent => NullDeref
      case _ => Added
    }
  }

  /** What `addChild` reports: true, false, or (where the source would
      dereference a null pointer) a crash. */
  datatype Outcome = Added | Rejected | NullDeref

  /** The arena after performing action `act` with the detached node `n`. */
  ghost function Applied(a: Arena, act: Action, n: nat): Arena {
    match act
    case Reject => a
    case NullParent => a
    case Append(x) =>
      if x < |a.childs| && x < |a.depth| && n < |a.parent| && n < |a.depth| then Attached(a, x, n) else a
    case Close(x) =>
      if x < |a.childs| && x < |a.depth| && x < |a.attached| && n < |a.parent| && n < |a.depth|
      then Closed(a, x, n) else a
    case Rotate(x) =>
      if x < |a.parent| && n < |a.parent| && n < |a.childs| && |a.depth| == |a.parent|
         && 0 <= a.parent[x] < |a.childs| && a.childs[a.parent[x]] != []
      then Rotated(a, x, n) else a
  }

  /** Node `j` is a `(` whose `)` has not arrived yet. */
  predicate OpenAt(a: Arena, j: nat)
    requires Sized(a) && j < |a.kind|
  {
    a.kind[j] == LeftBracket && !a.attached[j]
  }

  /** `isFull` of each node kind. */
  function IsFull(a: Arena, i: nat): (r: bool)
    requires WellFormed(a) && i < |a.kind|
    ensures r && !a.kind[i].RightBracket? ==> a.childs[i] != []
    ensures IsBinary(a.kind[i]) ==> (r <==> |a.childs[i]| == 2)
    ensures a.kind[i].LeftBracket? ==>
              (r <==> a.childs[i] != [] && a.kind[Last(a.childs[i])] == RightBracket)
  {
    assert ArityOk(a, i);
    match a.kind[i]
    case Value(_) => false
    case LeftBracket => a.attached[i]
    case RightBracket => true
    case _ => |a.childs[i]| == 2
  }

  /** `hasOpenLeftBracket`: node `i` is a `(` that is not yet full, or
      the scan finds one among its children's subtrees. */
  function HasOpen(a: Arena, i: nat): (r: bool)
    requires WellFormed(a) && i < |a.kind|
    ensures OpenAt(a, i) ==> r
    ensures a.kind[i].Value? || a.kind[i].RightBracket? ==> !r
    decreases a.bound - a.depth[i]
  {
    assert ArityOk(a, i);
    OpenAt(a, i)
    || exists k :: 0 <= k < |a.childs[i]| && (ChildDeeper(a, i, k); HasOpen(a, a.childs[i][k]))
  }

  /** The dispatch of `addChild` when node `n` is inserted at node `i`:
      the overrides of `)` and `(`, and otherwise the generic rule. Only a
      `)` closes a bracket; a `)` is never an operand, never rotated in and
      never crashes; a value never rotates. */
  function Locate(a: Arena, i: nat, n: nat): (r: Action)
    requires WellFormed(a) && i < |a.kind| && n < |a.kind|
    ensures r.Close? ==> a.kind[n].RightBracket?
    ensures a.kind[n].RightBracket? ==> r.Close? || r == Reject
    ensures r.Rotate? || r.NullParent? ==> !a.kind[n].Value?
    decreases a.bound - a.depth[i], 1
  {
    match a.kind[i]
    case RightBracket => Reject
    case LeftBracket =>
      if a.kind[n] == RightBracket then
        if a.attached[i] then Reject
        else if a.childs[i] == [] then Close(i)
        else
          ChildDeeper(a, i, 0);
          var sub := Locate(a, a.childs[i][0], n);
          if sub == Reject then Close(i) else sub
      else if a.childs[i] == [] then Append(i)
      else if a.attached[i] then Generic(a, i, n)
      else
        ChildDeeper(a, i, 0);
        Locate(a, a.childs[i][0], n)
    case _ => Generic(a, i, n)
  }

  /** The rule `OperatorNode::addChild` that every node kind except `(`
      and `)` uses, and that a full `(` falls back on. */
  function Generic(a: Arena, i: nat, n: nat): (r: Action)
    requires WellFormed(a) && i < |a.kind| && n < |a.kind|
    requires !a.kind[i].RightBracket?
    requires a.kind[i].LeftBracket? ==> a.attached[i] && !a.kind[n].RightBracket?
    ensures r.Close? ==> a.kind[n].RightBracket?
    ensures a.kind[n].RightBracket? ==> r.Close? || r == Reject
    ensures r.Rotate? || r.NullParent? ==> !a.kind[n].Value?
    decreases a.bound - a.depth[i], 0
  {
    if HasOpen(a, i) then
      ChildDeeper(a, i, |a.childs[i]| - 1);
      Locate(a, Last(a.childs[i]), n)
    else if Precedence(a.kind[n]) >= Precedence(a.kind[i]) && !a.kind[n].Value? then
      if a.parent[i] < 0 then NullParent else Rotate(i)
    else if IsFull(a, i) then
      ChildDeeper(a, i, |a.childs[i]| - 1);
      Locate(a, Last(a.childs[i]), n)
    else if a.kind[n] == RightBracket || a.kind[i].Value? then Reject
    else Append(i)
  }

  /** `getValue` of each node kind. A value yields its number and a `)`
      yields 0. A `(` whose last child is not its `)` throws `")"
      expected`; otherwise it yields its first child's value. A binary
      operator reads its operands with `childs.at(0)` and `childs.at(1)`,
      which throw `out_of_range` when an operand is missing. */
  function Eval(a: Arena, i: nat, ops: Ops): (r: EvalResult)
    requires WellFormed(a) && i < |a.kind|
    ensures IsBinary(a.kind[i]) && |a.childs[i]| < 2 ==> r.Err?
    decreases a.bound - a.depth[i]
  {
    match a.kind[i]
    case Value(v) => Ok(v)
    case RightBracket => Ok(0.0)
    case LeftBracket =>
      if a.childs[i] == [] then Err(ParenExpected)
      else
        ChildDeeper(a, i, |a.childs[i]| - 1);
        if a.kind[Last(a.childs[i])] != RightBracket then Err(ParenExpected)
        else
          ChildDeeper(a, i, 0);
          Eval(a, a.childs[i][0], ops)
    case _ =>
      if a.childs[i] == [] then Err(OutOfRange)
      else
        ChildDeeper(a, i, 0);
        match Eval(a, a.childs[i][0], ops)
        case Err(e) => Err(e)
        case Ok(x) =>
          if |a.childs[i]| < 2 then Err(OutOfRange)
          else
            ChildDeeper(a, i, 1);
            match Eval(a, a.childs[i][1], ops)
            case Err(e) => Err(e)
            case Ok(y) => Ok(Combine(a.kind[i], x, y, ops))
  }
}
