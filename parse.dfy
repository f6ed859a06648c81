/** One call of `SyntaxTree::parseFromStdIn`: the tokens of a line are fed
    into a fresh tree one at a time until the line ends, an insertion is
    refused, or a character that is no token ends the session. */
module Parser {
  import opened Nodes
  import opened ArenaModel
  import opened Dispatch
  import opened Tree
  import opened Spine
  import opened Properties

  /** A classified input character: a node token (a number already read
      with `cin >>`, an operator or a bracket), a line terminator (`\n` or
      `;`), or anything else, which includes the end of the input. */
  datatype Token = Node(k: Kind) | LineEnd | Other

  /** What the call reports. `true` is returned for every outcome except
      `Quit`; `Crashed` marks the null `parentNode` dereference. */
  datatype LineResult =
    | Printed(value: real)
    | SyntaxError
    | EvalFailed(error: EvalError)
    | Crashed
    | Quit

  /** The index of the first token that is not a node token, or the
      length when there is none. */
  function FirstStop(tokens: seq<Token>): (s: nat)
    ensures s <= |tokens|
    ensures forall j :: 0 <= j < s ==> tokens[j].Node?
    ensures s < |tokens| ==> !tokens[s].Node?
  {
    if tokens == [] || !tokens[0].Node? then 0 else 1 + FirstStop(tokens[1..])
  }

  /** The kind of node a token creates: a terminator creates the `)`
      that closes the outer bracket. */
  function NodeKind(tok: Token): Kind
  {
    if tok.Node? then tok.k else RightBracket
  }

  /** The kinds of the nodes a sequence of tokens creates, in order. */
  function Kinds(tokens: seq<Token>): (r: seq<Kind>)
    ensures |r| == |tokens|
    ensures forall j :: 0 <= j < |tokens| ==> r[j] == NodeKind(tokens[j])
  {
    if tokens == [] then [] else [NodeKind(tokens[0])] + Kinds(tokens[1..])
  }

  /** The node kinds created after `k`, appended behind the kinds that
      existed before `k`. */
  lemma KindsAfter(now: seq<Kind>, mid: seq<Kind>, before: seq<Kind>, tokens: seq<Token>, n: nat)
    requires tokens != [] && n < |tokens| && mid == before + [NodeKind(tokens[0])]
    requires now == mid + Kinds(tokens[1..][..n])
    ensures now == before + Kinds(tokens[..n + 1])
  {
    var head := tokens[..n + 1];
    assert head[0] == tokens[0] && head[1..] == tokens[1..][..n];
    assert Kinds(head) == [NodeKind(tokens[0])] + Kinds(tokens[1..][..n]);
    assert now == before + ([NodeKind(tokens[0])] + Kinds(tokens[1..][..n]));
  }

  /** A new node of kind `k` created and inserted at the root, as each
      token case of the line reader does: the tree it leaves and what
      `addChild` reports. */
  ghost function Step(a: Arena, k: Kind): (Arena, Outcome)
    requires WellFormed(a)
  {
    AllocatedWellFormed(a, k);
    var b := Allocated(a, k);
    var act := Locate(b, 0, |a.kind|);
    (Applied(b, act, |a.kind|), act.Outcome())
  }

  /** One step keeps the tree well-formed and its open brackets on the
      spine. It adds exactly the node `k`, and it crashes only after a `)`
      closed the root; then every operator or `(` crashes. */
  lemma StepKeeps(a: Arena, k: Kind)
    requires WellFormed(a) && Frontier(a)
    ensures WellFormed(Step(a, k).0) && Frontier(Step(a, k).0)
    ensures Step(a, k).0.kind == a.kind + [k]
    ensures Step(a, k).1 == NullDeref <==> a.attached[0] && !k.RightBracket? && !k.Value?
  {
    AllocatedFrontier(a, k);
    var b := Allocated(a, k);
    var n := |a.kind|;
    NullDerefOnlyAtClosedRoot(b, 0, n);
    FrontierKept(b, n);
    if a.attached[0] && !k.RightBracket? && !k.Value? {
      ClosedRootCrashes(b, n);
    }
  }

  /** What a line reports for the value of its root. */
  function Report(v: EvalResult): LineResult
  {
    match v
    case Ok(x) => Printed(x)
    case Err(e) => EvalFailed(e)
  }

  /** The reading of one line from tree `a`, token by token: the final
      tree, the report, and the number of tokens consumed. */
  ghost function Run(a: Arena, tokens: seq<Token>, ops: Ops): (Arena, LineResult, nat)
    requires WellFormed(a) && Frontier(a)
    decreases |tokens|
  {
    if tokens == [] || tokens[0] == Other then (a, Quit, 0)
    else if tokens[0] == LineEnd then
      StepKeeps(a, RightBracket);
      var b := Step(a, RightBracket).0;
      (b, Report(Eval(b, 0, ops)), 1)
    else
      StepKeeps(a, tokens[0].k);
      var s := Step(a, tokens[0].k);
      if s.1 == Rejected then (s.0, SyntaxError, 1)
      else if s.1 == NullDeref then (s.0, Crashed, 1)
      else
        var rest := Run(s.0, tokens[1..], ops);
        (rest.0, rest.1, rest.2 + 1)
  }

  /** Reading a line keeps the tree well-formed with its open brackets on
      the spine, and consumes no more tokens than there are. */
  lemma {:induction false} RunShape(a: Arena, tokens: seq<Token>, ops: Ops)
    requires WellFormed(a) && Frontier(a)
    ensures var R := Run(a, tokens, ops);
      WellFormed(R.0) && Frontier(R.0) && R.2 <= |tokens|
    decreases |tokens|
  {
    if tokens != [] && tokens[0] == LineEnd {
      StepKeeps(a, RightBracket);
    } else if tokens != [] && tokens[0].Node? {
      StepKeeps(a, tokens[0].k);
      RunNode(a, tokens, ops);
      if Step(a, tokens[0].k).1 == Added {
        RunShape(Step(a, tokens[0].k).0, tokens[1..], ops);
      }
    }
  }

  /** Reading a line creates one node per token consumed, of that token's
      kind, in order; the nodes that were there stay as they were. */
  lemma {:induction false} RunKinds(a: Arena, tokens: seq<Token>, ops: Ops)
    requires WellFormed(a) && Frontier(a)
    ensures var R := Run(a, tokens, ops);
      R.2 <= |tokens| && R.0.kind == a.kind + Kinds(tokens[..R.2])
    decreases |tokens|
  {
    if tokens != [] && tokens[0] == LineEnd {
      StepKeeps(a, RightBracket);
      RunEnd(a, tokens, ops);
      KindsAfter(Step(a, RightBracket).0.kind, Step(a, RightBracket).0.kind, a.kind, tokens, 0);
    } else if tokens != [] && tokens[0].Node? {
      var s := Step(a, tokens[0].k);
      StepKeeps(a, tokens[0].k);
      RunNode(a, tokens, ops);
      if s.1 == Added {
        RunKinds(s.0, tokens[1..], ops);
        var R := Run(s.0, tokens[1..], ops);
        KindsAfter(R.0.kind, s.0.kind, a.kind, tokens, R.2);
      } else {
        KindsAfter(s.0.kind, s.0.kind, a.kind, tokens, 0);
      }
    }
  }

  /** Where reading a line stops. It consumes the node tokens up to the
      first other token. A terminator is consumed and yields a printed
      value or an evaluation error; any other token or the end of the
      input ends the session; a refusal or a crash stops earlier. */
  lemma {:induction false} RunStops(a: Arena, tokens: seq<Token>, ops: Ops)
    requires WellFormed(a) && Frontier(a)
    ensures var R := Run(a, tokens, ops);
      && R.2 <= |tokens| && R.2 <= FirstStop(tokens) + 1
      && ((R.1.Printed? || R.1.EvalFailed?) <==> R.2 == FirstStop(tokens) + 1)
      && (R.2 == FirstStop(tokens) + 1 ==> tokens[R.2 - 1] == LineEnd)
      && (R.1 == Quit ==> R.2 == FirstStop(tokens) && (R.2 == |tokens| || tokens[R.2] == Other))
      && ((R.1 == SyntaxError || R.1 == Crashed) ==> 0 < R.2 <= FirstStop(tokens))
    decreases |tokens|
  {
    RunShape(a, tokens, ops);
    if tokens != [] && tokens[0].Node? {
      StepKeeps(a, tokens[0].k);
      if Step(a, tokens[0].k).1 == Added {
        RunStops(Step(a, tokens[0].k).0, tokens[1..], ops);
      }
    }
  }

  /** What a line reports. A printed value is the root's value over a
      complete tree, an evaluation error comes from an incomplete one, and
      a crash needs the root to be closed. */
  lemma {:induction false} RunReports(a: Arena, tokens: seq<Token>, ops: Ops)
    requires WellFormed(a) && Frontier(a)
    ensures var R := Run(a, tokens, ops);
      && WellFormed(R.0)
      && (R.1.Printed? ==> Eval(R.0, 0, ops) == Ok(R.1.value) && Complete(R.0, 0))
      && (R.1.EvalFailed? ==> Eval(R.0, 0, ops) == Err(R.1.error) && !Complete(R.0, 0))
      && (R.1 == Crashed ==> R.0.attached[0])
    decreases |tokens|
  {
    if tokens == [] || tokens[0] == Other {
    } else if tokens[0] == LineEnd {
      StepKeeps(a, RightBracket);
      EvalOkIffComplete(Step(a, RightBracket).0, 0, ops);
    } else {
      var k := tokens[0].k;
      StepKeeps(a, k);
      if Step(a, k).1 == NullDeref {
        StepCrash(a, k);
      } else if Step(a, k).1 == Added {
        RunReports(Step(a, k).0, tokens[1..], ops);
      }
    }
  }

  /** A rotation at the closed root leaves the tree as the allocation left
      it, so the root stays closed. */
  lemma StepCrash(a: Arena, k: Kind)
    requires WellFormed(a) && Step(a, k).1 == NullDeref
    ensures Step(a, k).0 == Allocated(a, k)
  {
  }

  /** One node token becomes one new node inserted at the root. */
  method Feed(t: SyntaxTree, k: Kind) returns (o: Outcome)
    requires t.Valid() && Frontier(t.Snapshot())
    modifies t
    ensures t.Valid() && Frontier(t.Snapshot())
    ensures (t.Snapshot(), o) == Step(old(t.Snapshot()), k)
  {
    ghost var a := t.Snapshot();
    AllocatedFrontier(a, k);
    var n := t.NewNode(k);
    FrontierKept(t.Snapshot(), n);
    o := t.AddChild(0, n);
  }

  /** No open bracket in any child subtree of the root. */
  ghost predicate Balanced(a: Arena)
    requires WellFormed(a)
  {
    forall k :: 0 <= k < |a.childs[0]| ==> a.childs[0][k] < |a.kind| && !HasOpen(a, a.childs[0][k])
  }

  /** `new RightBracket()` at the end of a line: the new node changes no
      open bracket, so the root's children are balanced as before. */
  method NewClose(t: SyntaxTree) returns (close: nat)
    requires t.Valid() && Frontier(t.Snapshot())
    modifies t
    ensures t.Valid() && Frontier(t.Snapshot())
    ensures t.Snapshot() == Allocated(old(t.Snapshot()), RightBracket)
    ensures close == old(|t.kind|) && Detached(t.Snapshot(), close)
    ensures Balanced(t.Snapshot()) == old(Balanced(t.Snapshot()))
  {
    ghost var a := t.Snapshot();
    AllocatedFrontier(a, RightBracket);
    close := t.NewNode(RightBracket);
    forall k | 0 <= k < |a.childs[0]|
      ensures a.childs[0][k] < |a.kind| && HasOpen(t.Snapshot(), a.childs[0][k]) == HasOpen(a, a.childs[0][k])
    {
      ChildDeeper(a, 0, k);
      AllocatedHasOpen(a, RightBracket, a.childs[0][k]);
    }
    assert t.childs[0] == a.childs[0];
  }

  /** `root->addChild(new RightBracket())`: the `)` is placed where the
      dispatch puts it. It never crashes, it is refused exactly when the
      root is closed already, and afterwards the root is closed exactly
      when it was or none of its children held an open bracket. */
  method CloseRoot(t: SyntaxTree, close: nat) returns (o: Outcome)
    requires Insertable(t.Snapshot(), 0, close) && Frontier(t.Snapshot()) && t.kind[close].RightBracket?
    modifies t
    ensures t.Valid() && Frontier(t.Snapshot())
    ensures o == old(Locate(t.Snapshot(), 0, close)).Outcome()
    ensures t.Snapshot() == Applied(old(t.Snapshot()), old(Locate(t.Snapshot(), 0, close)), close)
    ensures o != NullDeref
    ensures o == Rejected <==> old(t.attached[0])
    ensures t.attached[0] <==> old(t.attached[0] || Balanced(t.Snapshot()))
  {
    ghost var a := t.Snapshot();
    RefusedIffNoneOpen(a, 0, close);
    ClosesItselfIff(a, 0, close);
    FrontierKept(a, close);
    o := t.AddChild(0, close);
  }

  /** The end-of-line case: a `)` is inserted at the root and the root is
      evaluated. The value is printed exactly when the tree is complete.
      If some bracket of the line is still open, `")" expected` is
      reported. */
  method FinishLine(t: SyntaxTree, ops: Ops) returns (r: LineResult)
    requires t.Valid() && Frontier(t.Snapshot())
    modifies t
    ensures t.Valid() && Frontier(t.Snapshot())
    ensures t.Snapshot() == Step(old(t.Snapshot()), RightBracket).0
    ensures r == Report(Eval(t.Snapshot(), 0, ops))
    ensures r.Printed? ==> Complete(t.Snapshot(), 0)
    ensures r.EvalFailed? ==> !Complete(t.Snapshot(), 0)
    ensures t.attached[0] <==> old(t.attached[0] || Balanced(t.Snapshot()))
    ensures !t.attached[0] ==> r == EvalFailed(ParenExpected)
  {
    var close := NewClose(t);
    var _ := CloseRoot(t, close);
    var v := Eval(t.Snapshot(), 0, ops);
    EvalOkIffComplete(t.Snapshot(), 0, ops);
    if !t.attached[0] {
      OpenBracketThrows(t.Snapshot(), 0, ops);
    }
    r := Report(v);
  }

  /** One node token read: its step, then the rest of the line unless the
      step was refused or crashed. */
  lemma RunNode(a: Arena, tokens: seq<Token>, ops: Ops)
    requires WellFormed(a) && Frontier(a) && tokens != [] && tokens[0].Node?
    ensures WellFormed(Step(a, tokens[0].k).0) && Frontier(Step(a, tokens[0].k).0)
    ensures var s := Step(a, tokens[0].k);
            s.1 == Rejected ==> Run(a, tokens, ops) == (s.0, SyntaxError, 1)
    ensures var s := Step(a, tokens[0].k);
            s.1 == NullDeref ==> Run(a, tokens, ops) == (s.0, Crashed, 1)
    ensures var s := Step(a, tokens[0].k);
            s.1 == Added ==> var rest := Run(s.0, tokens[1..], ops);
                              Run(a, tokens, ops) == (rest.0, rest.1, rest.2 + 1)
  {
    StepKeeps(a, tokens[0].k);
  }

  /** The end of the input or another token: the session ends. */
  lemma RunQuit(a: Arena, tokens: seq<Token>, ops: Ops)
    requires WellFormed(a) && Frontier(a) && (tokens == [] || tokens[0] == Other)
    ensures Run(a, tokens, ops) == (a, Quit, 0)
  {
  }

  /** A terminator read: the final `)` step and the root's report. */
  lemma RunEnd(a: Arena, tokens: seq<Token>, ops: Ops)
    requires WellFormed(a) && Frontier(a) && tokens != [] && tokens[0] == LineEnd
    ensures WellFormed(Step(a, RightBracket).0)
    ensures Run(a, tokens, ops) ==
              (Step(a, RightBracket).0, Report(Eval(Step(a, RightBracket).0, 0, ops)), 1)
  {
    StepKeeps(a, RightBracket);
  }

  /** A terminator read at the head of `toks`: the line is finished and
      its result is final. */
  method ReadEnd(t: SyntaxTree, ops: Ops, ghost toks: seq<Token>) returns (r: LineResult)
    requires t.Valid() && Frontier(t.Snapshot()) && toks != [] && toks[0] == LineEnd
    modifies t
    ensures t.Valid() && Frontier(t.Snapshot())
    ensures Run(old(t.Snapshot()), toks, ops) == (t.Snapshot(), r, 1)
  {
    ghost var a := t.Snapshot();
    RunEnd(a, toks, ops);
    r := FinishLine(t, ops);
  }

  /** The node token `Node(k)` read at the head of `toks` and fed to the
      tree. `stop` says whether the line ends here (a refused insertion
      or a crash), and then `r` is its result; otherwise the line goes on
      with the rest of `toks`. */
  method ReadNode(t: SyntaxTree, k: Kind, ops: Ops, ghost toks: seq<Token>)
    returns (stop: bool, r: LineResult)
    requires t.Valid() && Frontier(t.Snapshot()) && toks != [] && toks[0] == Node(k)
    modifies t
    ensures t.Valid() && Frontier(t.Snapshot())
    ensures stop ==> Run(old(t.Snapshot()), toks, ops) == (t.Snapshot(), r, 1)
    ensures !stop ==> Run(old(t.Snapshot()), toks, ops).0 == Run(t.Snapshot(), toks[1..], ops).0
    ensures !stop ==> Run(old(t.Snapshot()), toks, ops).1 == Run(t.Snapshot(), toks[1..], ops).1
    ensures !stop ==> Run(old(t.Snapshot()), toks, ops).2 == Run(t.Snapshot(), toks[1..], ops).2 + 1
  {
    ghost var a := t.Snapshot();
    RunNode(a, toks, ops);
    ghost var s := Step(a, k);
    var o := Feed(t, k);
    assert t.Snapshot() == s.0 && o == s.1;
    stop := o != Added;
    r := if o == Rejected then SyntaxError else Crashed;
  }

  /** `parseFromStdIn`: read tokens until the line is over. Every node
      token becomes a new node inserted at the root; a refused insertion
      reports a syntax error and a rotation at the closed root crashes. At
      a terminator the line is finished. Anything else ends the session. */
  method ParseLine(t: SyntaxTree, tokens: seq<Token>, ops: Ops) returns (r: LineResult, used: nat)
    requires t.Valid() && Frontier(t.Snapshot())
    modifies t
    ensures t.Valid() && Frontier(t.Snapshot())
    ensures t.Snapshot() == Run(old(t.Snapshot()), tokens, ops).0
    ensures r == Run(old(t.Snapshot()), tokens, ops).1
    ensures used == Run(old(t.Snapshot()), tokens, ops).2
  {
    ghost var a0 := t.Snapshot();
    used := 0;
    while true
      invariant t.Valid() && Frontier(t.Snapshot()) && used <= |tokens|
      invariant Run(a0, tokens, ops).0 == Run(t.Snapshot(), tokens[used..], ops).0
      invariant Run(a0, tokens, ops).1 == Run(t.Snapshot(), tokens[used..], ops).1
      invariant Run(a0, tokens, ops).2 == Run(t.Snapshot(), tokens[used..], ops).2 + used
      decreases |tokens| - used
    {
      if used == |tokens| || tokens[used] == Other {
        RunQuit(t.Snapshot(), tokens[used..], ops);
        return Quit, used;
      }
      if tokens[used] == LineEnd {
        r := ReadEnd(t, ops, tokens[used..]);
        return r, used + 1;
      }
      var stop;
      stop, r := ReadNode(t, tokens[used].k, ops, tokens[used..]);
      assert tokens[used..][1..] == tokens[used + 1..];
      used := used + 1;
      if stop {
        return r, used;
      }
    }
  }
}
