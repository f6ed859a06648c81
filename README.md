# Incremental expression-tree builder of `calc`, modelled in Dafny

`calc` reads one line of arithmetic at a time and evaluates it. A single
pass builds the expression tree: each token becomes a node, and
`addChild`, called on an implicit outer `(` root, inserts that node into
the live tree. It resolves precedence by rotating the new node above the
subtree built so far, and nesting by letting an open `(` capture later
tokens. At the end of a line a `)` is offered to the root, and the root's
value is computed by a recursive `getValue`.

The model keeps the shape of `main.cpp`:

- `nodes.dfy` (module `Nodes`): the node kinds, their precedence ranks,
  and the arithmetic of the binary operators. `/` and `^` are passed in as
  uninterpreted functions.
- `arena.dfy` (module `ArenaModel`): the tree as a value. This is an
  arena of nodes addressed by index, with child lists, parent indices
  (`-1` is the null pointer) and the `hasRightBracketAttached` flags. It
  defines the well-formedness invariant and the three pointer surgeries
  (append, close, rotate). For each surgery it proves that the surgery
  keeps the invariant.
- `dispatch.dfy` (module `Dispatch`): the pure members of the C++ as
  functions over an arena: `IsFull`, `HasOpen` (`hasOpenLeftBracket`),
  `Eval` (`getValue`), and the dispatch of `addChild`, written out once
  as `Locate` (the `(` and `)` overrides) and `Generic` (the rule of
  `OperatorNode`). Each dispatch function returns the action the
  insertion takes; `Applied` performs an action on an arena.
- `tree.dfy` (module `Tree`): class `SyntaxTree`, whose fields are that
  arena. The methods `AddChild` and `GenericAddChild` mirror the
  recursive C++ calls and mutate the fields in place. They are proved to
  perform exactly the action `Locate`/`Generic` select on the fields, and
  to return the C++ result.
- `spine.dfy` (module `Spine`): the bracket frontier. An open `(` may
  only sit on the path of last children from the root. The module proves
  that creating a node and each surgery, applied where the insertion
  rules apply it, keep that invariant.
- `properties.dfy` (module `Properties`): what the dispatch and the
  evaluator promise about a well-formed tree. Under the frontier, a `)`
  is refused exactly when nothing in the subtree is open, and otherwise
  closes the innermost open `(`.
- `grouping.dfy` (module `Grouping`): how operators group. An operator
  of equal or looser rank is rotated above the operation built so far, so
  equal ranks associate to the left. A tighter one passes the operation
  by and is rotated above its numeric right operand. An empty `(` takes
  any first token.
- `parse.dfy` (module `Parser`): `parseFromStdIn` over a sequence of
  already classified tokens. The ghost function `Run` is the reading of a
  line as a fold over the tokens, one `Step` per node token. The methods
  are proved to compute exactly `Run`, and the lemmas about `Run` state
  what a line consumes, builds and reports.

Where the C++ would dereference a null `parentNode`, the model returns a
distinct outcome (`NullDeref`, and `Crashed` for the line) instead. It
proves both directions of when that happens under the insertions a line
makes: it happens only at the root after the root received its `)`
(`NullDerefOnlyAtClosedRoot`), and there every operator and every `(`
crashes (`ClosedRootCrashes`), as in `2)+`.

The model follows `main.cpp` as written:

- there is no factorial node;
- there is no leading-minus rule, so `-5+3` builds a `-` with one operand, whose evaluation throws `out_of_range`;
- there is no divide-by-zero check;
- the precedence ranks are `(`/`)` 0, value 1, `^` 2, `*`/`/` 3, `+`/`-` 4;
- a rotation at the closed root is a null dereference, not a reported failure.

## Model

| member | source | states |
|---|---|---|
| Nodes.Precedence | main.cpp:22-37 | the ranks are: 0 exactly for the brackets, 1 exactly for a value, 2 for `^`, 3 for `*` and `/`, 4 for `+` and `-`; the binary operators are exactly the kinds of rank at least 2 |
| ArenaModel.BracketArity | main.cpp:98-121 | an open `(` has at most one child; a closed `(` has one or two children, the last being its `)` |
| ArenaModel.AllocatedWellFormed | main.cpp:239-241 | creating a detached node keeps the tree well-formed |
| ArenaModel.AttachedWellFormed | main.cpp:62-63 | appending a detached non-`)` node to an operator with a free slot, or to an empty open `(`, keeps parent/child links consistent both ways and keeps every fullness limit |
| ArenaModel.ClosedWellFormed | main.cpp:105-107 | attaching a `)` to an open `(` and marking it closed keeps the tree well-formed |
| ArenaModel.RotatedWellFormed | main.cpp:49-54 | replacing the last child `x` of its parent by the new node, with `x` as the new node's only child, keeps the tree well-formed |
| ArenaModel.AttachedShape | main.cpp:62-63 | the append grows the target's child list by exactly the new node, sets the new node's parent, and changes no other child list, parent, kind or flag |
| ArenaModel.RotatedShape | main.cpp:49-54 | the rotation keeps the parent's child count, puts the new node in its last slot, gives the new node the single child `x`, relinks both parents, and changes no other node |
| Tree.SyntaxTree.constructor | main.cpp:211 | a fresh tree holds only the open outer `(` |
| Tree.SyntaxTree.NewNode | main.cpp:239-241 | `new OperatorX()` adds one detached node of the given kind and keeps the tree well-formed |
| Dispatch.IsFull | main.cpp:80-192 | a binary operator is full exactly at two children; a `(` is full exactly when its last child is a `)`; a full node other than `)` has a child |
| Dispatch.HasOpen | main.cpp:196-203 | an open `(` is found by the scan of itself; a value or a `)` never holds an open `(` |
| Dispatch.Locate | main.cpp:100-137 | only a `)` closes a bracket; a `)` is always attached or refused, never an operand, never rotated in and never a crash; a value never rotates |
| Dispatch.Generic | main.cpp:44-66 | the same guarantees for the rule of `OperatorNode` |
| Dispatch.Eval | main.cpp:78-190 | a binary operator with fewer than two operands never yields a value |
| Tree.SyntaxTree.AppendAt | main.cpp:62-63 | the fields become the appended arena, and the tree stays well-formed |
| Tree.SyntaxTree.CloseAt | main.cpp:105-107 | the fields become the closed arena, and the tree stays well-formed |
| Tree.SyntaxTree.RotateAt | main.cpp:49-54 | the fields become the rotated arena, and the tree stays well-formed |
| Tree.SyntaxTree.AddChild | main.cpp:100-137 | the `(` and `)` overrides perform exactly the action `Locate` selects and return its result; the kinds are unchanged and the tree stays well-formed |
| Tree.SyntaxTree.GenericAddChild | main.cpp:44-66 | `OperatorNode::addChild` performs exactly the action `Generic` selects and returns its result |
| Properties.HasOpenIff | main.cpp:196-203 | `hasOpenLeftBracket(i)` holds exactly when some `(` in the subtree of `i`, `i` included, has no `)` yet |
| Properties.LocateNullParent | main.cpp:117-118 | if an insertion reaches the null dereference, the node has no parent, it is a closed `(` if it is a bracket, and the new node is neither a value nor a `)` |
| Properties.GenericNullParent | main.cpp:48-51 | the generic rule dereferences a null parent only at a node without a parent, and only for an operator or a `(` |
| Properties.NullDerefOnlyAtClosedRoot | main.cpp:48-51 | an insertion started at the root or at a last child crashes only at the root, after the root received its `)` |
| Properties.ClosedRootCrashes | main.cpp:48-51 | conversely, under the frontier, once the root has its `)`, every operator and every `(` inserted at the root reaches the null dereference |
| Properties.LocateLands | main.cpp:44-121 | every action names a node of the subtree of `i` on its path of last children. A rotation happens at a node that has a parent and no open bracket below it, with a new non-value node whose rank is no smaller. An operand is appended only to an operator with a free slot or an empty open `(`. A `)` is attached only to an open `(` |
| Properties.GenericLands | main.cpp:44-66 | the same landing guarantees for the generic rule |
| Properties.EvalOkIffComplete | main.cpp:92-190 | `getValue` of `i` returns a number exactly when every operator in the subtree of `i` has both operands and every `(` in it has its `)` |
| Properties.OpenBracketThrows | main.cpp:92-94 | a `(` without its `)` throws `")" expected` |
| Properties.ClosedBracketValue | main.cpp:92-96 | a closed `(` yields the value of its first child, and `()` yields 0 |
| Spine.AllocatedHasOpen | main.cpp:239-241 | a newly created node changes no subtree's open brackets |
| Spine.AllocatedFrontier | main.cpp:239-241 | creating a node keeps every open `(` on the last-child spine |
| Spine.AttachedHasOpen | main.cpp:62-63 | after an append, a subtree holds an open `(` only if it did before, is the new node, or contains the target |
| Spine.AttachedFrontier | main.cpp:62-63 | an append on the spine, at a node that is empty or holds no open `(`, keeps every open `(` on the spine |
| Spine.ClosedHasOpen | main.cpp:104-108 | attaching a `)` opens no bracket anywhere |
| Spine.ClosedFrontier | main.cpp:104-108 | closing a `(` whose first child holds no open `(` keeps every open `(` on the spine |
| Spine.RotatedHasOpen | main.cpp:48-55 | after a rotation, a subtree holds an open `(` only if it did before, is the new node, or contains the old parent |
| Spine.RotatedFrontier | main.cpp:48-55 | a rotation on the spine above a subtree with no open `(` keeps every open `(` on the spine |
| Properties.OpenOnlyLast | main.cpp:196-203 | under the frontier no child but the last holds an open `(`, so the scan depends only on the node and its last child |
| Properties.RefusedIffNoneOpen | main.cpp:100-112 | under the frontier, a `)` offered at a node is refused exactly when no `(` in its subtree is open |
| Properties.GenericRefusedIffNoneOpen | main.cpp:44-61 | the same for the generic rule |
| Properties.CloseInnermost | main.cpp:100-112 | under the frontier, the `(` a `)` closes holds no open `(` in any child: it is the innermost open one |
| Properties.GenericCloseInnermost | main.cpp:44-58 | the same for the generic rule |
| Properties.ClosesItselfIff | main.cpp:100-108 | a `(` attaches an arriving `)` to itself exactly when it is open and none of its children holds an open `(` |
| Properties.FrontierKept | main.cpp:44-121 | an insertion at the root keeps the tree well-formed and every open `(` on the last-child spine |
| Grouping.LooserRotatesAbove | main.cpp:48-55 | an operator of rank no tighter than the complete operation under the root is rotated above it and takes it as its only child; with equal ranks this is left association |
| Grouping.TighterTakesRightOperand | main.cpp:48-58 | a tighter operator passes a full operation by and is rotated above its numeric second operand, becoming that operation's second child |
| Grouping.EmptyBracketTakesAny | main.cpp:113-116 | an empty `(` appends any token but `)` as its first child, operators included |
| Grouping.OperandFillsEmptyOperator | main.cpp:60-64 | a number offered to an operator with no operand becomes its only child |
| Grouping.ShortOperatorThrows | main.cpp:146-190 | an operator with fewer than two operands throws `out_of_range` once its first operand evaluates |
| Parser.FirstStop | main.cpp:235-285 | the index of the first token that is not a node token |
| Parser.StepKeeps | main.cpp:239-285 | creating a node and inserting it at the root adds exactly that node and keeps the tree well-formed with every open `(` on the spine; it crashes exactly when the root is closed and the new node is an operator or a `(` |
| Parser.RunShape | main.cpp:233-308 | reading a line keeps the tree well-formed with every open `(` on the spine, and consumes no more tokens than there are |
| Parser.RunKinds | main.cpp:239-289 | the nodes a line creates are one per token consumed, of that token's kind, in order, after the nodes that were there |
| Parser.RunStops | main.cpp:233-308 | a line consumes the node tokens up to the first other token. A terminator is consumed and yields a printed value or an evaluation error; the end of the input or any other token ends the session; a refusal or a crash stops at the node that caused it |
| Parser.RunReports | main.cpp:286-306 | a printed value is the root's value over a complete tree; an evaluation error is the root's exception over an incomplete tree; a crash happens only with the root closed |
| Parser.Feed | main.cpp:239-285 | the new tree and the outcome are exactly one step: the node is created and inserted where `Locate` at the root puts it |
| Parser.NewClose | main.cpp:289 | the fields become the old arena with one detached `)` added, and the root's children are as balanced as before |
| Parser.CloseRoot | main.cpp:289 | the fields become the old arena with the action `Locate` selects for the `)` performed, and that action's outcome is returned. It never crashes, it is refused exactly when the root is closed already, and afterwards the root is closed exactly when it was or none of its children held an open `(` |
| Parser.FinishLine | main.cpp:286-298 | the fields become the tree of one `)` step from the old tree, and the result is the report of the root's value. The value is printed exactly when the tree is complete, otherwise the evaluation error is reported. If the root is still open, the error is `")" expected` |
| Parser.ReadEnd | main.cpp:286-298 | reading a terminator finishes the line exactly as `Run` does |
| Parser.ReadNode | main.cpp:239-306 | reading a node token performs exactly `Run`'s step: it stops with `Run`'s result or leaves the rest of the line to `Run` |
| Parser.ParseLine | main.cpp:233-308 | the final tree, the result and the number of tokens consumed are exactly those of `Run` on the old tree, so `RunShape`, `RunKinds`, `RunStops` and `RunReports` describe every call |

## Left out

- Character input: `cin.get`, `putback` and number reading with `cin >>` are left out. The input is a sequence of tokens that are already classified; any other character, and the end of the input, is the token `Other`.
- The `main` loop that creates a new tree per line and prompts again is left out (main.cpp:302-305, 314-317). After a `Syntax error` that loop goes on reading the rest of the same line into a fresh tree, so `2(3+4` reports a syntax error and then prints ` = 7`. `ParseLine` reports how many tokens it consumed, so a driver could continue with the remaining tokens in the same way.
- All printing is left out (results, diagnostics, `printTree`).
- Memory teardown is left out: `deleteIterator`, the destructor and the `delete tmp` of a refused node. In the arena a refused node stays allocated and detached.
- Floating point: values are `real`. `/` and `pow` are uninterpreted parameters, so division by zero, infinities and NaN are not modelled.
- Dispatch.Eval: the C++ does not fix which operand of a binary operator is evaluated first. The model evaluates the first operand first, so when both operands fail, the error reported is that of the first.
- The `Unknown Operator Type` exception of `getOperatorPrecedence` cannot be raised with a closed set of node kinds, so it is not modelled.
- The null `parentNode` dereference is undefined behaviour in C++. Here it is the outcome `NullDeref`, and `Crashed` for the line.
- Concrete lines such as `2^3^2` are not traced node by node. The grouping of such lines is stated by the general lemmas of `Grouping`.
