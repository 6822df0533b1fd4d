/**
 * What reverse-mode emission computes for one statement: its adjoint, the
 * left-nested sum over the statements that read it of the folded term
 * `d body(child) / d name(statement) * __rev_ad_<child>`, and the
 * instructions that declare it.
 */
module Adjoint {
  import opened Syntax
  import opened Folding
  import opened Heap
  import opened Instructions
  import opened Flows
  import opened Passes

  /** `make_ad_sym`: the variable holding a statement's adjoint. */
  function AdName(name: string): string {
    "__rev_ad_" + name
  }

  /** `make_ptr_sym`: the output slot of an input's derivative. */
  function SlotName(name: string): string {
    "d_" + name
  }

  /** `Operator::Diff(name)`, which this model leaves open. */
  type DiffFn = (Expr, string) -> Expr

  /** `Operator::EmitCode`, the C++ text of an expression, which this model leaves open. */
  type RenderFn = Expr -> string

  /** The expression a flow's binding wraps. */
  function Body(nodes: seq<Node>, ghost rank: seq<nat>, flows: seq<Flow>, c: nat): Expr
    requires Ranked(nodes, rank) && FlowsWellFormed(nodes, flows) && c < |flows|
  {
    assert NodeRanked(nodes, rank, flows[c].sym);
    Tree(nodes, rank, nodes[flows[c].sym].body)
  }

  /** The chain-rule term of child `c` for statement `f`, before folding. */
  function RawTerm(nodes: seq<Node>, ghost rank: seq<nat>, flows: seq<Flow>, f: nat, c: nat, diff: DiffFn): Expr
    requires Ranked(nodes, rank) && FlowsWellFormed(nodes, flows) && f < |flows| && c < |flows|
  {
    Bin(Mul, diff(Body(nodes, rank, flows, c), Name(nodes, flows[f])), Exo(AdName(Name(nodes, flows[c]))))
  }

  /** `make_node_back(child)`: the folded chain-rule term. */
  function Term(nodes: seq<Node>, ghost rank: seq<nat>, flows: seq<Flow>, f: nat, c: nat, diff: DiffFn, pow: PowFn): Result<Expr>
    requires Ranked(nodes, rank) && FlowsWellFormed(nodes, flows) && f < |flows| && c < |flows|
  {
    Fold(RawTerm(nodes, rank, flows, f, c, diff), pow)
  }

  /** A term that folds is in normal form and no larger than the raw product. */
  lemma TermFolded(nodes: seq<Node>, rank: seq<nat>, flows: seq<Flow>, f: nat, c: nat, diff: DiffFn, pow: PowFn)
    requires Ranked(nodes, rank) && FlowsWellFormed(nodes, flows) && f < |flows| && c < |flows|
    requires Term(nodes, rank, flows, f, c, diff, pow).Ok?
    ensures Folded(Term(nodes, rank, flows, f, c, diff, pow).value)
    ensures Size(Term(nodes, rank, flows, f, c, diff, pow).value) <= Size(RawTerm(nodes, rank, flows, f, c, diff))
  {
    FoldNormal(RawTerm(nodes, rank, flows, f, c, diff), pow);
  }

  /** All of `cs` are flows. */
  predicate AllBelow(cs: seq<nat>, n: nat) {
    forall k :: 0 <= k < |cs| ==> cs[k] < n
  }

  /**
   * The adjoint of `f` over the children `cs`: the first term, then each
   * further term added on the right.  It fails exactly when one of the
   * terms does not fold.
   */
  function AdjointSum(nodes: seq<Node>, ghost rank: seq<nat>, flows: seq<Flow>, f: nat, cs: seq<nat>, diff: DiffFn, pow: PowFn): (r: Result<Expr>)
    requires Ranked(nodes, rank) && FlowsWellFormed(nodes, flows) && f < |flows|
    requires 1 <= |cs| && AllBelow(cs, |flows|)
    decreases |cs|
  {
    var last := Term(nodes, rank, flows, f, cs[|cs| - 1], diff, pow);
    if |cs| == 1 then last
    else
      var head := AdjointSum(nodes, rank, flows, f, cs[..|cs| - 1], diff, pow);
      if head.Err? then head
      else if last.Err? then last
      else Ok(Bin(Add, head.value, last.value))
  }

  /**
   * The adjoint of statement `f`, summed over all the statements that read
   * it: `AdjointSum` over `flows[f].children` under a name of its own.
   * Contracts that mention the whole sum use this name, so that no
   * recursive call over `flows[f].children` appears in them and Dafny's
   * automatic induction is not applied to them.
   */
  function AdjointOf(nodes: seq<Node>, ghost rank: seq<nat>, flows: seq<Flow>, f: nat, diff: DiffFn, pow: PowFn): Result<Expr>
    requires Ranked(nodes, rank) && FlowsWellFormed(nodes, flows) && f < |flows|
    requires flows[f].children != [] && AllBelow(flows[f].children, |flows|)
  {
    AdjointSum(nodes, rank, flows, f, flows[f].children, diff, pow)
  }

  /** The adjoint sum fails exactly when one of its terms does not fold. */
  lemma {:induction false} AdjointSumFails(nodes: seq<Node>, rank: seq<nat>, flows: seq<Flow>, f: nat, cs: seq<nat>, diff: DiffFn, pow: PowFn)
    requires Ranked(nodes, rank) && FlowsWellFormed(nodes, flows) && f < |flows|
    requires 1 <= |cs| && AllBelow(cs, |flows|)
    ensures AdjointSum(nodes, rank, flows, f, cs, diff, pow).Ok? <==> forall k :: 0 <= k < |cs| ==> Term(nodes, rank, flows, f, cs[k], diff, pow).Ok?
  {
    if |cs| > 1 {
      var init := cs[..|cs| - 1];
      AdjointSumFails(nodes, rank, flows, f, init, diff, pow);
      assert forall k :: 0 <= k < |init| ==> init[k] == cs[k];
    }
  }

  /** The left-nested sum of already folded terms: the first error, if any, wins. */
  function SumTerms(ts: seq<Result<Expr>>): (r: Result<Expr>)
    requires 1 <= |ts|
  {
    var last := ts[|ts| - 1];
    if |ts| == 1 then last
    else
      var head := SumTerms(ts[..|ts| - 1]);
      if head.Err? then head
      else if last.Err? then last
      else Ok(Bin(Add, head.value, last.value))
  }

  /** The folded chain-rule terms of the children `cs`. */
  ghost function Terms(nodes: seq<Node>, rank: seq<nat>, flows: seq<Flow>, f: nat, cs: seq<nat>, diff: DiffFn, pow: PowFn): (ts: seq<Result<Expr>>)
    requires Ranked(nodes, rank) && FlowsWellFormed(nodes, flows) && f < |flows| && AllBelow(cs, |flows|)
    ensures |ts| == |cs|
  {
    seq(|cs|, k requires 0 <= k < |cs| => Term(nodes, rank, flows, f, cs[k], diff, pow))
  }

  /** The adjoint sum is the left-nested sum of the children's terms. */
  lemma {:induction false} AdjointSumTerms(nodes: seq<Node>, rank: seq<nat>, flows: seq<Flow>, f: nat, cs: seq<nat>, diff: DiffFn, pow: PowFn)
    requires Ranked(nodes, rank) && FlowsWellFormed(nodes, flows) && f < |flows|
    requires 1 <= |cs| && AllBelow(cs, |flows|)
    ensures AdjointSum(nodes, rank, flows, f, cs, diff, pow) == SumTerms(Terms(nodes, rank, flows, f, cs, diff, pow))
  {
    var ts := Terms(nodes, rank, flows, f, cs, diff, pow);
    if |cs| > 1 {
      var init := cs[..|cs| - 1];
      AdjointSumTerms(nodes, rank, flows, f, init, diff, pow);
      assert Terms(nodes, rank, flows, f, init, diff, pow) == ts[..|ts| - 1];
      assert ts[|ts| - 1] == Term(nodes, rank, flows, f, cs[|cs| - 1], diff, pow);
    } else {
      assert ts[0] == Term(nodes, rank, flows, f, cs[0], diff, pow);
    }
  }

  /** `SumTerms` carried on from the running sum `acc` of the terms before `idx`. */
  function SumFrom(ts: seq<Result<Expr>>, acc: Expr, idx: nat): Result<Expr>
    requires idx <= |ts|
    decreases |ts| - idx
  {
    if idx == |ts| then Ok(acc)
    else if ts[idx].Err? then ts[idx]
    else SumFrom(ts, Bin(Add, acc, ts[idx].value), idx + 1)
  }

  /** Carrying on from the sum of the first `idx` terms gives the sum of all of them. */
  lemma {:induction false} SumFromSumTerms(ts: seq<Result<Expr>>, idx: nat)
    requires 1 <= idx <= |ts| && SumTerms(ts[..idx]).Ok?
    ensures SumFrom(ts, SumTerms(ts[..idx]).value, idx) == SumTerms(ts)
    decreases |ts| - idx
  {
    if idx == |ts| {
      assert ts[..idx] == ts;
    } else {
      assert ts[..idx + 1][..idx] == ts[..idx];
      if ts[idx].Ok? {
        SumFromSumTerms(ts, idx + 1);
      } else {
        SumTermsFails(ts, idx);
      }
    }
  }

  /** One error among the terms makes their sum fail with it. */
  lemma {:induction false} SumTermsFails(ts: seq<Result<Expr>>, i: nat)
    requires i < |ts| && ts[i].Err?
    ensures SumTerms(ts) == ts[i]
  {
    if i < |ts| - 1 {
      SumTermsFails(ts[..|ts| - 1], i);
    }
  }

  /**
   * The loop of `EmitADInstructionsImpl` that builds `head`: the term of the
   * first reader, then each further term added on the right, giving up with
   * the folder's error as soon as one term does not fold.
   */
  method AdjointHead(nodes: seq<Node>, ghost rank: seq<nat>, flows: seq<Flow>, f: nat, diff: DiffFn, pow: PowFn) returns (head: Result<Expr>)
    requires Ranked(nodes, rank) && FlowsWellFormed(nodes, flows) && f < |flows|
    requires flows[f].children != [] && AllBelow(flows[f].children, |flows|)
    ensures head == AdjointOf(nodes, rank, flows, f, diff, pow)
  {
    var cs := flows[f].children;
    ghost var ts := Terms(nodes, rank, flows, f, cs, diff, pow);
    assert SumTerms(ts) == AdjointSum(nodes, rank, flows, f, cs, diff, pow) by {
      AdjointSumTerms(nodes, rank, flows, f, cs, diff, pow);
    }
    head := Term(nodes, rank, flows, f, cs[0], diff, pow);
    if head.Err? {
      SumTermsFails(ts, 0);
      return Err(FoldError.DivideByZero);
    }
    assert SumFrom(ts, head.value, 1) == SumTerms(ts) by {
      assert ts[..1] == [ts[0]];
      SumFromSumTerms(ts, 1);
    }
    var idx := 1;
    while idx < |cs|
      invariant 1 <= idx <= |cs| && head.Ok?
      invariant SumFrom(ts, head.value, idx) == SumTerms(ts)
    {
      var term := Term(nodes, rank, flows, f, cs[idx], diff, pow);
      if term.Err? {
        return Err(FoldError.DivideByZero);
      }
      head := Ok(Bin(Add, head.value, term.value));
      idx := idx + 1;
    }
  }

  /** The chain rule: the sum over `cs` of d body(c) / d name(f) times the adjoint variable of `c`. */
  ghost function ChainSum(nodes: seq<Node>, rank: seq<nat>, flows: seq<Flow>, f: nat, cs: seq<nat>, diff: DiffFn, I: Interp): real
    requires Ranked(nodes, rank) && FlowsWellFormed(nodes, flows) && f < |flows| && AllBelow(cs, |flows|)
    decreases |cs|
  {
    if cs == [] then 0.0
    else
      var c := cs[|cs| - 1];
      ChainSum(nodes, rank, flows, f, cs[..|cs| - 1], diff, I)
      + Eval(diff(Body(nodes, rank, flows, c), Name(nodes, flows[f])), I) * I.env(AdName(Name(nodes, flows[c])))
  }

  /**
   * Folding does not change what the adjoint evaluates to: it is the chain
   * rule sum, wherever the folding identities hold of the reading `I`.
   */
  lemma {:induction false} AdjointSumValue(nodes: seq<Node>, rank: seq<nat>, flows: seq<Flow>, f: nat, cs: seq<nat>, diff: DiffFn, I: Interp)
    requires Ranked(nodes, rank) && FlowsWellFormed(nodes, flows) && f < |flows|
    requires 1 <= |cs| && AllBelow(cs, |flows|)
    requires FoldAssumptions(I)
    requires forall k :: 0 <= k < |cs| ==> NoZeroBasePower(RawTerm(nodes, rank, flows, f, cs[k], diff), I.pow)
    requires AdjointSum(nodes, rank, flows, f, cs, diff, I.pow).Ok?
    ensures Eval(AdjointSum(nodes, rank, flows, f, cs, diff, I.pow).value, I) == ChainSum(nodes, rank, flows, f, cs, diff, I)
    decreases |cs|
  {
    var c, init := cs[|cs| - 1], cs[..|cs| - 1];
    TermValue(nodes, rank, flows, f, c, diff, I);
    if |cs| > 1 {
      assert forall k :: 0 <= k < |init| ==> init[k] == cs[k];
      AdjointSumValue(nodes, rank, flows, f, init, diff, I);
    } else {
      assert init == [];
    }
  }

  /** One folded term evaluates to its chain-rule product. */
  lemma TermValue(nodes: seq<Node>, rank: seq<nat>, flows: seq<Flow>, f: nat, c: nat, diff: DiffFn, I: Interp)
    requires Ranked(nodes, rank) && FlowsWellFormed(nodes, flows) && f < |flows| && c < |flows|
    requires FoldAssumptions(I) && NoZeroBasePower(RawTerm(nodes, rank, flows, f, c, diff), I.pow)
    ensures Term(nodes, rank, flows, f, c, diff, I.pow).Ok? ==>
      Eval(Term(nodes, rank, flows, f, c, diff, I.pow).value, I) ==
      Eval(diff(Body(nodes, rank, flows, c), Name(nodes, flows[f])), I) * I.env(AdName(Name(nodes, flows[c])))
  {
    if Term(nodes, rank, flows, f, c, diff, I.pow).Ok? {
      FoldSound(RawTerm(nodes, rank, flows, f, c, diff), I);
    }
  }

  /** A larger arena with the same prefix gives the same adjoint. */
  lemma {:induction false} AdjointSumExtends(n1: seq<Node>, r1: seq<nat>, n2: seq<Node>, r2: seq<nat>,
                                             flows: seq<Flow>, f: nat, cs: seq<nat>, diff: DiffFn, pow: PowFn)
    requires Ranked(n1, r1) && Ranked(n2, r2) && n1 <= n2 && r1 <= r2
    requires FlowsWellFormed(n1, flows) && f < |flows| && 1 <= |cs| && AllBelow(cs, |flows|)
    ensures FlowsWellFormed(n2, flows)
    ensures AdjointSum(n2, r2, flows, f, cs, diff, pow) == AdjointSum(n1, r1, flows, f, cs, diff, pow)
    decreases |cs|
  {
    var c := cs[|cs| - 1];
    assert NodeRanked(n1, r1, flows[c].sym);
    TreeExtends(n1, r1, n2, r2, n1[flows[c].sym].body);
    assert Body(n2, r2, flows, c) == Body(n1, r1, flows, c);
    if |cs| > 1 {
      AdjointSumExtends(n1, r1, n2, r2, flows, f, cs[..|cs| - 1], diff, pow);
    }
  }

  /**
   * The bindings of `hs` that are not in `seen`, each once, in order: what
   * the declaration loop declares while it adds them to `seen`.
   */
  function Unseen(hs: seq<Handle>, seen: set<Handle>): seq<Handle>
  {
    if hs == [] then []
    else
      var pre := Unseen(hs[..|hs| - 1], seen);
      var x := hs[|hs| - 1];
      if x in seen || x in pre then pre else pre + [x]
  }

  /** `Unseen` keeps exactly the elements of `hs` outside `seen`, each once. */
  lemma {:induction false} UnseenElements(hs: seq<Handle>, seen: set<Handle>)
    ensures Distinct(Unseen(hs, seen))
    ensures forall x :: x in Unseen(hs, seen) <==> x in hs && x !in seen
    decreases |hs|
  {
    if hs != [] {
      var init, x := hs[..|hs| - 1], hs[|hs| - 1];
      assert hs == init + [x];
      UnseenElements(init, seen);
      var pre := Unseen(init, seen);
      if !(x in seen || x in pre) {
        DistinctAppend(pre, [x]);
      }
    }
  }

  /**
   * The declaration loop keeps dependency order: a binding it declares
   * comes after every binding directly below it that was not in `seen`.
   */
  lemma {:induction false} UnseenOrdered(nodes: seq<Node>, rank: seq<nat>, hs: seq<Handle>, seen: set<Handle>)
    requires Ranked(nodes, rank) && InDependencyOrder(nodes, rank, {}, hs)
    ensures InDependencyOrder(nodes, rank, seen, Unseen(hs, seen))
    decreases |hs|
  {
    if hs != [] {
      var init, x := hs[..|hs| - 1], hs[|hs| - 1];
      assert InDependencyOrder(nodes, rank, {}, init) by {
        forall i | 0 <= i < |init|
          ensures init[i] < |nodes|
          ensures forall d :: DirectlyBelow(nodes, rank, init[i], d) ==> d in init[..i]
        {
          assert init[i] == hs[i] && init[..i] == hs[..i];
        }
      }
      UnseenOrdered(nodes, rank, init, seen);
      var pre := Unseen(init, seen);
      if !(x in seen || x in pre) {
        UnseenElements(init, seen);
        assert hs[..|hs| - 1] == init;
        OrderSnoc(nodes, rank, seen, pre, x);
      }
    }
  }

  /** The bindings a segment declares for adjoint `adj` come in dependency order after the profile `seen`. */
  lemma DeclarationsOrdered(nodes: seq<Node>, rank: seq<nat>, adj: Handle, seen: set<Handle>)
    requires Ranked(nodes, rank) && adj < |nodes|
    ensures InDependencyOrder(nodes, rank, seen, Unseen(AllBindings(nodes, rank, adj, []), seen))
  {
    AllBindingsOrdered(nodes, rank, adj, []);
    UnseenOrdered(nodes, rank, AllBindings(nodes, rank, adj, []), seen);
  }

  /** `DeclareVariable(dep->Name(), dep->Expr())` for each of `deps`. */
  function Declarations(nodes: seq<Node>, deps: seq<Handle>): (r: seq<Instruction>)
    requires forall k :: 0 <= k < |deps| ==> deps[k] < |nodes| && nodes[deps[k]].NEndo?
    ensures |r| == |deps|
    ensures forall k :: 0 <= k < |deps| ==> r[k] == DeclareVariable(nodes[deps[k]].name, nodes[deps[k]].body)
  {
    if deps == [] then []
    else Declarations(nodes, deps[..|deps| - 1]) + [DeclareVariable(nodes[deps[|deps| - 1]].name, nodes[deps[|deps| - 1]].body)]
  }

  /** A statement that reads nothing wraps an input variable. */
  predicate InputShaped(nodes: seq<Node>, flows: seq<Flow>, f: nat)
    requires FlowsWellFormed(nodes, flows) && f < |flows|
  {
    var b := nodes[flows[f].sym].body;
    flows[f].parents == [] ==> b < |nodes| && nodes[b].NExo?
  }

  /** The output-slot write of a statement that reads nothing; none for the others. */
  function Assignment(nodes: seq<Node>, flows: seq<Flow>, f: nat): (r: seq<Instruction>)
    requires FlowsWellFormed(nodes, flows) && f < |flows| && InputShaped(nodes, flows, f)
    ensures |r| <= 1 && (r != [] <==> flows[f].parents == [])
    ensures forall k :: 0 <= k < |r| ==> r[k].PointerAssign? && r[k].source == AdName(Name(nodes, flows[f]))
  {
    if flows[f].parents == [] then
      [PointerAssign(SlotName(nodes[nodes[flows[f].sym].body].name), AdName(Name(nodes, flows[f])))]
    else []
  }

  /**
   * `adj` holds the adjoint of statement `f`: the constant 1 when nobody
   * reads `f`, and otherwise the adjoint sum, up to bindings.
   */
  ghost predicate AdjointValue(nodes: seq<Node>, rank: seq<nat>, flows: seq<Flow>, f: nat, diff: DiffFn, pow: PowFn, adj: Handle)
    requires Ranked(nodes, rank) && FlowsWellFormed(nodes, flows) && f < |flows|
  {
    && AllBelow(flows[f].children, |flows|)
    && adj < |nodes|
    && if flows[f].children == [] then
         Tree(nodes, rank, adj) == Constant(1.0)
       else
         && AdjointSum(nodes, rank, flows, f, flows[f].children, diff, pow).Ok?
         && Inline(Tree(nodes, rank, adj)) == Inline(AdjointSum(nodes, rank, flows, f, flows[f].children, diff, pow).value)
  }

  /**
   * The instructions `EmitADInstructionsImpl` appends for flow `f` before
   * the output-slot write: for a statement that something reads, the
   * declarations `deps` between two comments carrying the rendered sum
   * `text`; then the declaration of the adjoint variable as `adj`.
   */
  function AdjointCore(nodes: seq<Node>, flows: seq<Flow>, f: nat, adj: Handle, deps: seq<Handle>, text: string): seq<Instruction>
    requires FlowsWellFormed(nodes, flows) && f < |flows|
    requires forall k :: 0 <= k < |deps| ==> deps[k] < |nodes| && nodes[deps[k]].NEndo?
  {
    var decl := DeclareVariable(AdName(Name(nodes, flows[f])), adj);
    if flows[f].children == [] then [decl]
    else [Comment(["BEGIN " + text])] + Declarations(nodes, deps) + [Comment(["END " + text]), decl]
  }

  /**
   * The instructions `seg` that `EmitADInstructionsImpl` appends for flow
   * `f` around its adjoint `adj`: a statement nobody reads declares no
   * bindings, and a statement that reads nothing ends with its output-slot
   * write.
   */
  predicate SegmentShape(nodes: seq<Node>, flows: seq<Flow>, f: nat, seg: seq<Instruction>, adj: Handle, deps: seq<Handle>, text: string)
    requires FlowsWellFormed(nodes, flows) && f < |flows|
  {
    && (forall k :: 0 <= k < |deps| ==> deps[k] < |nodes| && nodes[deps[k]].NEndo?)
    && InputShaped(nodes, flows, f)
    && (flows[f].children == [] ==> deps == [])
    && seg == AdjointCore(nodes, flows, f, adj, deps, text) + Assignment(nodes, flows, f)
  }

  /**
   * The segment of statement `f`: its adjoint, the instructions around it,
   * and the text of its two comments, which is the adjoint sum rendered by
   * `render` with its bindings inlined below the top.
   */
  ghost predicate Segment(nodes: seq<Node>, rank: seq<nat>, flows: seq<Flow>, f: nat, diff: DiffFn, pow: PowFn,
                          render: RenderFn, seg: seq<Instruction>, adj: Handle, deps: seq<Handle>, text: string)
    requires Ranked(nodes, rank) && FlowsWellFormed(nodes, flows) && f < |flows|
  {
    && AdjointValue(nodes, rank, flows, f, diff, pow, adj)
    && SegmentShape(nodes, flows, f, seg, adj, deps, text)
    && (flows[f].children != [] ==>
          text == render(InlineBelow(AdjointSum(nodes, rank, flows, f, flows[f].children, diff, pow).value)))
  }

  /** A segment stays what it is when the arena grows. */
  lemma SegmentExtends(n1: seq<Node>, r1: seq<nat>, n2: seq<Node>, r2: seq<nat>, flows: seq<Flow>, f: nat,
                       diff: DiffFn, pow: PowFn, render: RenderFn, seg: seq<Instruction>, adj: Handle, deps: seq<Handle>, text: string)
    requires Ranked(n1, r1) && Ranked(n2, r2) && n1 <= n2 && r1 <= r2
    requires FlowsWellFormed(n1, flows) && f < |flows|
    requires Segment(n1, r1, flows, f, diff, pow, render, seg, adj, deps, text)
    ensures FlowsWellFormed(n2, flows)
    ensures Segment(n2, r2, flows, f, diff, pow, render, seg, adj, deps, text)
  {
    assert forall g :: 0 <= g < |n1| ==> n2[g] == n1[g];
    if flows[f].children != [] {
      AdjointSumExtends(n1, r1, n2, r2, flows, f, flows[f].children, diff, pow);
    }
    assert AdjointValue(n2, r2, flows, f, diff, pow, adj) by {
      TreeExtends(n1, r1, n2, r2, adj);
    }
    assert SegmentShape(n2, flows, f, seg, adj, deps, text) by {
      assert Declarations(n2, deps) == Declarations(n1, deps);
      assert AdjointCore(n2, flows, f, adj, deps, text) == AdjointCore(n1, flows, f, adj, deps, text);
      assert Assignment(n2, flows, f) == Assignment(n1, flows, f);
    }
  }

  /**
   * The adjoint a segment declares evaluates to the chain-rule sum over
   * the statements that read `f`, and to 1 for a statement nobody reads.
   */
  lemma SegmentValue(nodes: seq<Node>, rank: seq<nat>, flows: seq<Flow>, f: nat, diff: DiffFn, render: RenderFn,
                     seg: seq<Instruction>, adj: Handle, deps: seq<Handle>, text: string, I: Interp)
    requires Ranked(nodes, rank) && FlowsWellFormed(nodes, flows) && f < |flows|
    requires Segment(nodes, rank, flows, f, diff, I.pow, render, seg, adj, deps, text)
    requires FoldAssumptions(I)
    requires forall k :: 0 <= k < |flows[f].children| ==>
      && flows[f].children[k] < |flows|
      && NoZeroBasePower(RawTerm(nodes, rank, flows, f, flows[f].children[k], diff), I.pow)
    ensures Eval(Tree(nodes, rank, adj), I) ==
      if flows[f].children == [] then 1.0 else ChainSum(nodes, rank, flows, f, flows[f].children, diff, I)
  {
    if flows[f].children != [] {
      var sum := AdjointSum(nodes, rank, flows, f, flows[f].children, diff, I.pow).value;
      InlinePreservesEval(Tree(nodes, rank, adj), I);
      InlinePreservesEval(sum, I);
      AdjointSumValue(nodes, rank, flows, f, flows[f].children, diff, I);
    }
  }

  /** Cloning below the top binding and then inlining is inlining. */
  lemma InlineBelowSameInline(e: Expr)
    ensures Inline(InlineBelow(e)) == Inline(e)
  {
    match e
    case Endo(x, b) =>
      InlineIdempotent(b);
    case _ =>
      InlineIdempotent(e);
  }

  /** The instructions of the segments, one after the other. */
  function Flatten<T>(ss: seq<seq<T>>): seq<T> {
    if ss == [] then [] else Flatten(ss[..|ss| - 1]) + ss[|ss| - 1]
  }

  lemma FlattenAppend<T>(ss: seq<seq<T>>, s: seq<T>)
    ensures Flatten(ss + [s]) == Flatten(ss) + s
  {
    assert (ss + [s])[..|ss|] == ss;
  }

  lemma DistinctAppend<T>(a: seq<T>, b: seq<T>)
    requires Distinct(a) && Distinct(b) && forall x :: x in b ==> x !in a
    ensures Distinct(a + b)
  {
    forall i, j | 0 <= i < j < |a + b|
      ensures (a + b)[i] != (a + b)[j]
    {
      if j < |a| {
        assert (a + b)[i] == a[i] && (a + b)[j] == a[j];
      } else if i < |a| {
        assert (a + b)[i] == a[i] && a[i] in a;
        assert (a + b)[j] == b[j - |a|] && b[j - |a|] in b;
      } else {
        assert (a + b)[i] == b[i - |a|] && (a + b)[j] == b[j - |a|];
      }
    }
  }

  /**
   * `EmitADFlowImpl` over the first `n` statements: for each statement that
   * something reads, the binding `__rev_ad_<name>` of its adjoint sum.
   */
  function ADFlow(nodes: seq<Node>, ghost rank: seq<nat>, flows: seq<Flow>, n: nat, diff: DiffFn, pow: PowFn): (r: Result<seq<Expr>>)
    requires Ranked(nodes, rank) && FlowsWellFormed(nodes, flows) && n <= |flows|
    requires forall f :: 0 <= f < |flows| ==> AllBelow(flows[f].children, |flows|)
    ensures r.Ok? ==> |r.value| <= n
  {
    if n == 0 then Ok([])
    else
      var pre := ADFlow(nodes, rank, flows, n - 1, diff, pow);
      if pre.Err? || flows[n - 1].children == [] then pre
      else
        var sum := AdjointSum(nodes, rank, flows, n - 1, flows[n - 1].children, diff, pow);
        if sum.Err? then Err(sum.error)
        else Ok(pre.value + [Endo(AdName(Name(nodes, flows[n - 1])), sum.value)])
  }

  /**
   * `ADFlow` over all the statements, under a name of its own for the same
   * reason as `AdjointOf`: method contracts state the whole collection
   * through it, without a recursive call in them.
   */
  function Collected(nodes: seq<Node>, ghost rank: seq<nat>, flows: seq<Flow>, diff: DiffFn, pow: PowFn): Result<seq<Expr>>
    requires Ranked(nodes, rank) && FlowsWellFormed(nodes, flows)
    requires forall f :: 0 <= f < |flows| ==> AllBelow(flows[f].children, |flows|)
  {
    ADFlow(nodes, rank, flows, |flows|, diff, pow)
  }

  /** The statements among the first `n` that something reads. */
  function ReadFlows(flows: seq<Flow>, n: nat): (r: seq<nat>)
    requires n <= |flows|
    ensures forall k :: 0 <= k < |r| ==> r[k] < n && flows[r[k]].children != []
  {
    if n == 0 then []
    else ReadFlows(flows, n - 1) + (if flows[n - 1].children != [] then [n - 1] else [])
  }

  /** Statement `f` is read by nobody, or its adjoint sum folds. */
  ghost predicate SumFolds(nodes: seq<Node>, rank: seq<nat>, flows: seq<Flow>, f: nat, diff: DiffFn, pow: PowFn)
    requires Ranked(nodes, rank) && FlowsWellFormed(nodes, flows) && f < |flows|
    requires forall f :: 0 <= f < |flows| ==> AllBelow(flows[f].children, |flows|)
  {
    flows[f].children != [] ==> AdjointSum(nodes, rank, flows, f, flows[f].children, diff, pow).Ok?
  }

  /** Collecting fails exactly when the adjoint sum of a statement that something reads does not fold. */
  lemma ADFlowFails(nodes: seq<Node>, rank: seq<nat>, flows: seq<Flow>, n: nat, diff: DiffFn, pow: PowFn)
    requires Ranked(nodes, rank) && FlowsWellFormed(nodes, flows) && n <= |flows|
    requires forall f :: 0 <= f < |flows| ==> AllBelow(flows[f].children, |flows|)
    ensures ADFlow(nodes, rank, flows, n, diff, pow).Ok? <==> forall f :: 0 <= f < n ==> SumFolds(nodes, rank, flows, f, diff, pow)
  {
    if ADFlow(nodes, rank, flows, n, diff, pow).Ok? {
      forall f | 0 <= f < n
        ensures SumFolds(nodes, rank, flows, f, diff, pow)
      {
        ADFlowOkFolds(nodes, rank, flows, n, f, diff, pow);
      }
    } else if forall f :: 0 <= f < n ==> SumFolds(nodes, rank, flows, f, diff, pow) {
      ADFlowFoldsOk(nodes, rank, flows, n, diff, pow);
    }
  }

  /** When the first `n` statements fold, so does each of them. */
  lemma {:induction false} ADFlowOkFolds(nodes: seq<Node>, rank: seq<nat>, flows: seq<Flow>, n: nat, f: nat, diff: DiffFn, pow: PowFn)
    requires Ranked(nodes, rank) && FlowsWellFormed(nodes, flows) && f < n <= |flows|
    requires forall f :: 0 <= f < |flows| ==> AllBelow(flows[f].children, |flows|)
    requires ADFlow(nodes, rank, flows, n, diff, pow).Ok?
    ensures SumFolds(nodes, rank, flows, f, diff, pow)
  {
    var m: nat := n - 1;
    ADFlowStep(nodes, rank, flows, n, m, diff, pow);
    if f < m {
      ADFlowOkFolds(nodes, rank, flows, m, f, diff, pow);
    } else {
      assert f == m;
    }
  }

  /** When each of the first `n` statements folds, so do they all. */
  lemma {:induction false} ADFlowFoldsOk(nodes: seq<Node>, rank: seq<nat>, flows: seq<Flow>, n: nat, diff: DiffFn, pow: PowFn)
    requires Ranked(nodes, rank) && FlowsWellFormed(nodes, flows) && n <= |flows|
    requires forall f :: 0 <= f < |flows| ==> AllBelow(flows[f].children, |flows|)
    requires forall f :: 0 <= f < n ==> SumFolds(nodes, rank, flows, f, diff, pow)
    ensures ADFlow(nodes, rank, flows, n, diff, pow).Ok?
  {
    if n > 0 {
      var m: nat := n - 1;
      ADFlowStep(nodes, rank, flows, n, m, diff, pow);
      assert SumFolds(nodes, rank, flows, m, diff, pow);
      ADFlowFoldsOk(nodes, rank, flows, m, diff, pow);
    }
  }

  /** The first `n` statements fold exactly when the first `n - 1` do and statement `n - 1` does. */
  lemma ADFlowStep(nodes: seq<Node>, rank: seq<nat>, flows: seq<Flow>, n: nat, m: nat, diff: DiffFn, pow: PowFn)
    requires Ranked(nodes, rank) && FlowsWellFormed(nodes, flows) && 0 < n <= |flows| && m == n - 1
    requires forall f :: 0 <= f < |flows| ==> AllBelow(flows[f].children, |flows|)
    ensures ADFlow(nodes, rank, flows, n, diff, pow).Ok? <==>
      ADFlow(nodes, rank, flows, m, diff, pow).Ok? && SumFolds(nodes, rank, flows, m, diff, pow)
  {
  }

  /** A statement whose adjoint sum does not fold stops the collection of every longer prefix. */
  lemma ADFlowStopsAt(nodes: seq<Node>, rank: seq<nat>, flows: seq<Flow>, f: nat, n: nat, diff: DiffFn, pow: PowFn)
    requires Ranked(nodes, rank) && FlowsWellFormed(nodes, flows) && f < n <= |flows|
    requires forall f :: 0 <= f < |flows| ==> AllBelow(flows[f].children, |flows|)
    requires !SumFolds(nodes, rank, flows, f, diff, pow)
    ensures ADFlow(nodes, rank, flows, n, diff, pow).Err?
  {
    if ADFlow(nodes, rank, flows, n, diff, pow).Ok? {
      ADFlowOkFolds(nodes, rank, flows, n, f, diff, pow);
    }
  }

  /** Something reads statement `f`, its adjoint sum folds, and `e` binds the adjoint to that sum. */
  ghost predicate AdjointEntry(nodes: seq<Node>, rank: seq<nat>, flows: seq<Flow>, f: nat, e: Expr, diff: DiffFn, pow: PowFn)
    requires Ranked(nodes, rank) && FlowsWellFormed(nodes, flows) && f < |flows|
    requires forall f :: 0 <= f < |flows| ==> AllBelow(flows[f].children, |flows|)
  {
    && flows[f].children != []
    && var sum := AdjointSum(nodes, rank, flows, f, flows[f].children, diff, pow);
       sum.Ok? && e == Endo(AdName(Name(nodes, flows[f])), sum.value)
  }

  /** One more entry on each side keeps the entries matched up. */
  lemma EntriesSnoc(nodes: seq<Node>, rank: seq<nat>, flows: seq<Flow>, pre: seq<nat>, r0: seq<Expr>, f: nat, e: Expr, diff: DiffFn, pow: PowFn)
    requires Ranked(nodes, rank) && FlowsWellFormed(nodes, flows) && f < |flows|
    requires forall f :: 0 <= f < |flows| ==> AllBelow(flows[f].children, |flows|)
    requires |r0| == |pre| && AllBelow(pre, |flows|)
    requires forall k :: 0 <= k < |pre| ==> AdjointEntry(nodes, rank, flows, pre[k], r0[k], diff, pow)
    requires AdjointEntry(nodes, rank, flows, f, e, diff, pow)
    ensures AllBelow(pre + [f], |flows|)
    ensures forall k :: 0 <= k < |pre| + 1 ==> AdjointEntry(nodes, rank, flows, (pre + [f])[k], (r0 + [e])[k], diff, pow)
  {
    forall k | 0 <= k < |pre| + 1
      ensures AdjointEntry(nodes, rank, flows, (pre + [f])[k], (r0 + [e])[k], diff, pow)
    {
      if k < |pre| {
        assert (pre + [f])[k] == pre[k] && (r0 + [e])[k] == r0[k];
      }
    }
  }

  /**
   * The collected computation has one binding per statement that something
   * reads, in statement order, named after its adjoint and wrapping its
   * adjoint sum.
   */
  lemma {:induction false} ADFlowEntries(nodes: seq<Node>, rank: seq<nat>, flows: seq<Flow>, n: nat, diff: DiffFn, pow: PowFn)
    requires Ranked(nodes, rank) && FlowsWellFormed(nodes, flows) && n <= |flows|
    requires forall f :: 0 <= f < |flows| ==> AllBelow(flows[f].children, |flows|)
    requires ADFlow(nodes, rank, flows, n, diff, pow).Ok?
    ensures var r := ADFlow(nodes, rank, flows, n, diff, pow).value;
      var read := ReadFlows(flows, n);
      && |r| == |read|
      && forall k :: 0 <= k < |read| ==> AdjointEntry(nodes, rank, flows, read[k], r[k], diff, pow)
  {
    if n > 0 {
      var m: nat := n - 1;
      assert ADFlow(nodes, rank, flows, m, diff, pow).Ok?;
      ADFlowEntries(nodes, rank, flows, m, diff, pow);
      var pre := ReadFlows(flows, m);
      var r0 := ADFlow(nodes, rank, flows, m, diff, pow).value;
      if flows[m].children != [] {
        var sum := AdjointSum(nodes, rank, flows, m, flows[m].children, diff, pow);
        var e := Endo(AdName(Name(nodes, flows[m])), sum.value);
        assert ReadFlows(flows, n) == pre + [m];
        assert ADFlow(nodes, rank, flows, n, diff, pow) == Ok(r0 + [e]);
        EntriesSnoc(nodes, rank, flows, pre, r0, m, e, diff, pow);
      } else {
        assert ReadFlows(flows, n) == pre;
        assert ADFlow(nodes, rank, flows, n, diff, pow) == Ok(r0);
      }
    }
  }
}
