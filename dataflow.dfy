/**
 * `DataFlowGraph`: the statements of a program in the order they were
 * added, an index from names to statements, and the links between them;
 * forward emission walks the statements in order, reverse-mode emission
 * walks them backwards and declares each statement's adjoint.
 */
module DataFlowGraphs {
  import opened Syntax
  import opened Folding
  import opened Heap
  import opened Passes
  import opened Remap
  import opened Instructions
  import opened Flows
  import opened Adjoint
  import opened ReverseSweep

  class DataFlowGraph {
    const arena: Arena
    /** `rank_`: the flows in the order they were added. */
    var rank: seq<Flow>
    /** `index_`: the flow most recently added under each name. */
    var index: map<string, nat>

    ghost predicate Valid()
      reads this, arena
    {
      arena.Valid() && GraphOK(arena.nodes, rank, index)
    }

    constructor (arena: Arena)
      requires arena.Valid()
      ensures Valid() && this.arena == arena && rank == [] && index == map[]
    {
      this.arena := arena;
      rank := [];
      index := map[];
    }

    /**
     * `DataFlowGraph::Add`: the flow of binding `sym` is appended and
     * indexed under its name first; then each binding met directly below
     * it is looked up by name and linked, up to the first name that is not
     * known, which fails with the flow already added.
     */
    method Add(sym: Handle) returns (res: Outcome)
      requires Valid() && sym < |arena.nodes| && arena.nodes[sym].NEndo?
      modifies this
      ensures Valid()
      ensures (rank, index) == Added(arena.nodes, arena.rank, old(rank), old(index), sym)
      ensures var names := DependencyNames(arena.nodes, arena.rank, sym);
        var resolved := Resolve(index, names);
        && (res.Done? <==> |resolved| == |names|)
        && (res.Failed? ==> res.error == UnresolvedDependency(names[|resolved|]))
    {
      AddKeepsGraph(arena.nodes, arena.rank, rank, index, sym);
      var f := |rank|;
      var index' := index[arena.nodes[sym].name := f];
      var names := DependencyNames(arena.nodes, arena.rank, sym);
      var flows;
      flows, res := LinkDependencies(rank + [Flow(sym, [], [])], f, index', names);
      rank, index := flows, index';
    }

    /** `DataFlowGraph::EmitInstructions`: each statement's instructions, in statement order. */
    method EmitInstructions(B: InstructionBlock)
      requires arena.Valid() && FlowsWellFormed(arena.nodes, rank)
      modifies B
      ensures B.instrs == old(B.instrs) + ForwardCode(arena.nodes, arena.rank, rank, |rank|)
    {
      var f := 0;
      while f < |rank|
        invariant 0 <= f <= |rank|
        invariant B.instrs == old(B.instrs) + ForwardCode(arena.nodes, arena.rank, rank, f)
      {
        EmitFlowInstructions(f, B);
        f := f + 1;
      }
    }

    /**
     * `DataFlowGraph::CollectADFlow`: each statement in turn through
     * `EmitADFlowImpl`, which appends the binding `__rev_ad_<name>` of the
     * adjoint sum of every statement something reads to `computation`; the
     * first term that does not fold stops it.
     */
    method CollectADFlow(computation: seq<Expr>, diff: DiffFn, pow: PowFn) returns (r: Result<seq<Expr>>)
      requires Valid()
      ensures forall f :: 0 <= f < |rank| ==> AllBelow(rank[f].children, |rank|)
      ensures r.Ok? <==> ADFlow(arena.nodes, arena.rank, rank, |rank|, diff, pow).Ok?
      ensures r.Ok? <==> forall f :: 0 <= f < |rank| ==> SumFolds(arena.nodes, arena.rank, rank, f, diff, pow)
      ensures r.Ok? ==> r.value == computation + ADFlow(arena.nodes, arena.rank, rank, |rank|, diff, pow).value
      ensures r.Err? ==> r.error == FoldError.DivideByZero
    {
      var nodes, flows := arena.nodes, rank;
      ghost var rk := arena.rank;
      assert forall f :: 0 <= f < |flows| ==> AllBelow(flows[f].children, |flows|) by {
        assert LinksBackward(flows);
      }
      ADFlowFails(nodes, rk, flows, |flows|, diff, pow);
      var out := CollectFlows(nodes, rk, flows, diff, pow);
      if out.Err? {
        return Err(FoldError.DivideByZero);
      }
      r := Ok(computation + out.value);
    }

    /**
     * `DataFlowGraph::EmitADInstructions`: the statements from last to
     * first, each through `EmitADInstructionsImpl`, up to the first that
     * fails; a failure keeps what the statements after it appended to `B`
     * and declared in `info`.
     */
    method EmitADInstructions(info: DependentsProfile, ru: RemapUnique, B: InstructionBlock,
                              diff: DiffFn, pow: PowFn, render: RenderFn)
      returns (res: Outcome, ghost segs: seq<seq<Instruction>>, ghost adjs: seq<Handle>,
               ghost depss: seq<seq<Handle>>, ghost texts: seq<string>)
      requires Valid() && ru.Valid() && ru.arena == arena
      modifies arena, ru, info, B
      ensures Valid() && ru.Valid()
      ensures SweepResult(old(arena.nodes), old(arena.rank), arena.nodes, arena.rank, rank, diff, pow, render, res,
                          old(info.seen), info.seen, segs, adjs, depss, texts)
      ensures B.instrs == old(B.instrs) + Flatten(segs)
    {
      var seen, instrs;
      res, seen, instrs, segs, adjs, depss, texts := SweepAdjoints(info.seen, B.instrs, ru, diff, pow, render);
      B.instrs, info.seen := instrs, seen;
    }

    /**
     * The loop of `EmitADInstructions`, from the last statement down, over
     * the instructions and the declared bindings gathered so far.
     */
    method SweepAdjoints(seen0: set<Handle>, instrs0: seq<Instruction>, ru: RemapUnique,
                         diff: DiffFn, pow: PowFn, render: RenderFn)
      returns (res: Outcome, seen: set<Handle>, instrs: seq<Instruction>, ghost segs: seq<seq<Instruction>>,
               ghost adjs: seq<Handle>, ghost depss: seq<seq<Handle>>, ghost texts: seq<string>)
      requires Valid() && ru.Valid() && ru.arena == arena
      modifies arena, ru
      ensures Valid() && ru.Valid()
      ensures SweepResult(old(arena.nodes), old(arena.rank), arena.nodes, arena.rank, rank, diff, pow, render, res,
                          seen0, seen, segs, adjs, depss, texts)
      ensures instrs == instrs0 + Flatten(segs)
    {
      ghost var n0, r0 := arena.nodes, arena.rank;
      forall f | 0 <= f < |rank|
        ensures AllBelow(rank[f].children, |rank|)
      {
        assert AllBelow(rank[f].children, |rank|);
      }
      SweepStart(n0, r0, rank, diff, pow, render, seen0);
      seen, instrs := seen0, instrs0;
      segs, adjs, depss, texts := [], [], [], [];
      var idx: nat := |rank|;
      while idx > 0
        invariant Valid() && ru.Valid()
        invariant Sweeping(n0, r0, arena.nodes, arena.rank, rank, diff, pow, render, idx, seen0, seen, segs, adjs, depss, texts)
        invariant instrs == instrs0 + Flatten(segs)
      {
        ghost var n1, r1 := arena.nodes, arena.rank;
        var f: nat := idx - 1;
        var out, after, seg, adj, deps, text := EmitADFlowInstructions(f, seen, ru, diff, pow, render);
        ghost var n2, r2 := arena.nodes, arena.rank;
        if out.Failed? {
          SweepingFails(n0, r0, n1, r1, n2, r2, rank, diff, pow, render, f, seen0, seen, segs, adjs, depss, texts);
          return out, seen, instrs, segs, adjs, depss, texts;
        }
        SweepingNext(n0, r0, n1, r1, n2, r2, rank, diff, pow, render, f,
                     seen0, seen, segs, adjs, depss, texts, seg, adj, deps, text);
        InstructionsNext(instrs0, instrs, segs, seg);
        segs, adjs, depss, texts := segs + [seg], adjs + [adj], depss + [deps], texts + [text];
        instrs, seen := instrs + seg, after;
        idx := f;
      }
      res := Done;
    }

    /**
     * `DataFlow::EmitADInstructionsImpl` for the flow at position `f`,
     * given the bindings declared so far: the adjoint of a statement nobody
     * reads is the constant 1; otherwise the adjoint sum, remapped, is
     * declared after the bindings it mentions that are not declared yet,
     * between two comments carrying its rendered text; a statement that
     * reads nothing then writes its output slot.
     */
    method EmitADFlowInstructions(f: nat, seen: set<Handle>, ru: RemapUnique, diff: DiffFn, pow: PowFn, render: RenderFn)
      returns (res: Outcome, after: set<Handle>, seg: seq<Instruction>,
               ghost adj: Handle, ghost deps: seq<Handle>, ghost text: string)
      requires Valid() && ru.Valid() && ru.arena == arena && f < |rank|
      modifies arena, ru
      ensures Valid() && ru.Valid()
      ensures old(arena.nodes) <= arena.nodes && old(arena.rank) <= arena.rank
      ensures AllBelow(rank[f].children, |rank|) && res == ADStep(arena.nodes, arena.rank, rank, f, diff, pow)
      ensures res.Done? ==>
        && Segment(arena.nodes, arena.rank, rank, f, diff, pow, render, seg, adj, deps, text)
        && deps == Unseen(AllBindings(arena.nodes, arena.rank, adj, []), seen)
        && after == seen + Elems(AllBindings(arena.nodes, arena.rank, adj, []))
    {
      var r, rendered := BuildAdjoint(f, ru, diff, pow, render);
      if r.Err? {
        return Failed(GraphError.DivideByZero), seen, [], 0, [], "";
      }
      if !InputShaped(arena.nodes, rank, f) {
        return Failed(NotAnInput(Name(arena.nodes, rank[f]))), seen, [], 0, [], "";
      }
      res, adj, text := Done, r.value, rendered;
      assert ReadyToDeclare(arena.nodes, arena.rank, rank, f, r.value);
      after, seg, deps := EmitAdjointDeclaration(arena.nodes, arena.rank, rank, f, seen, r.value, rendered);
    }

    /**
     * The adjoint of the flow at position `f`, built in the arena: the
     * constant 1 when nobody reads it, and otherwise the remapped adjoint
     * sum, which fails when one of its terms does not fold.
     */
    method BuildAdjoint(f: nat, ru: RemapUnique, diff: DiffFn, pow: PowFn, render: RenderFn)
      returns (r: Result<Handle>, text: string)
      requires Valid() && ru.Valid() && ru.arena == arena && f < |rank|
      modifies arena, ru
      ensures Valid() && ru.Valid()
      ensures old(arena.nodes) <= arena.nodes && old(arena.rank) <= arena.rank
      ensures AllBelow(rank[f].children, |rank|)
      ensures r.Ok? <==>
        rank[f].children == [] || AdjointSum(arena.nodes, arena.rank, rank, f, rank[f].children, diff, pow).Ok?
      ensures r.Ok? ==> AdjointValue(arena.nodes, arena.rank, rank, f, diff, pow, r.value)
      ensures r.Ok? && rank[f].children == [] ==> arena.nodes[r.value] == NConst(1.0)
      ensures r.Ok? && rank[f].children != [] ==>
        text == render(InlineBelow(AdjointSum(arena.nodes, arena.rank, rank, f, rank[f].children, diff, pow).value))
    {
      ghost var n0, r0 := arena.nodes, arena.rank;
      assert AllBelow(rank[f].children, |rank|);
      text := "";
      if rank[f].children == [] {
        var a := arena.Alloc(NConst(1.0));
        TableSoundExtends(ru.ops, ru.registered, n0, r0, arena.nodes, arena.rank);
        GraphOKExtends(n0, arena.nodes, rank, index);
        assert arena.TreeAt(a) == Constant(1.0);
        r := Ok(a);
      } else {
        r, text := RemappedAdjoint(ru, rank, f, diff, pow, render);
        GraphOKExtends(n0, arena.nodes, rank, index);
        AdjointSumExtends(n0, r0, arena.nodes, arena.rank, rank, f, rank[f].children, diff, pow);
      }
    }

    /** `DataFlow::EmitInstructionsImpl` for the flow at position `f`. */
    method EmitFlowInstructions(f: nat, B: InstructionBlock)
      requires arena.Valid() && FlowsWellFormed(arena.nodes, rank) && f < |rank|
      modifies B
      ensures B.instrs == old(B.instrs) + ForwardStep(arena.nodes, arena.rank, rank, f)
    {
      var sym := rank[f].sym;
      var name := Name(arena.nodes, rank[f]);
      B.Add(DeclareVariable(name, arena.nodes[sym].body));
      if rank[f].children == [] {
        var dependents := AllStep(arena.nodes, arena.rank, sym, []);
        B.Add(Comment(BindingNames(arena.nodes, dependents)));
        B.Add(Return(name));
      }
    }
  }

  /**
   * The adjoint of a statement that something reads, as
   * `EmitADInstructionsImpl` builds it: the adjoint sum is built into the
   * arena, cloned through `RemoveEndo`, rendered, and cloned through the
   * table.  A term that does not fold stops it before anything is built.
   */
  method RemappedAdjoint(ru: RemapUnique, flows: seq<Flow>, f: nat, diff: DiffFn, pow: PowFn, render: RenderFn)
    returns (res: Result<Handle>, text: string)
    requires ru.Valid() && FlowsWellFormed(ru.arena.nodes, flows) && f < |flows|
    requires flows[f].children != [] && AllBelow(flows[f].children, |flows|)
    modifies ru, ru.arena
    ensures ru.Valid()
    ensures old(ru.arena.nodes) <= ru.arena.nodes && old(ru.arena.rank) <= ru.arena.rank
    ensures var sum := AdjointSum(old(ru.arena.nodes), old(ru.arena.rank), flows, f, flows[f].children, diff, pow);
      && (res.Ok? <==> sum.Ok?)
      && (res.Ok? ==>
            && res.value < |ru.arena.nodes|
            && Inline(ru.arena.TreeAt(res.value)) == Inline(sum.value)
            && text == render(InlineBelow(sum.value)))
  {
    var arena := ru.arena;
    var head := AdjointHead(arena.nodes, arena.rank, flows, f, diff, pow);
    if head.Err? {
      return Err(head.error), "";
    }
    ghost var n0, r0 := arena.nodes, arena.rank;
    var loaded := arena.Load(head.value);
    var cloned := RemoveEndoClone(arena, loaded);
    TableSoundExtends(ru.ops, ru.registered, n0, r0, arena.nodes, arena.rank);
    text := render(Tree(arena.nodes, arena.rank, cloned));
    ghost var n1, r1 := arena.nodes, arena.rank;
    var remapped := ru.Clone(cloned);
    TreeExtends(n1, r1, arena.nodes, arena.rank, cloned);
    InlineBelowSameInline(head.value);
    res := Ok(remapped);
  }

  /** The loop of `DataFlowGraph::CollectADFlow` over the statements, in order. */
  method CollectFlows(nodes: seq<Node>, ghost rank: seq<nat>, flows: seq<Flow>, diff: DiffFn, pow: PowFn)
    returns (r: Result<seq<Expr>>)
    requires Ranked(nodes, rank) && FlowsWellFormed(nodes, flows)
    requires forall f :: 0 <= f < |flows| ==> AllBelow(flows[f].children, |flows|)
    ensures r == Collected(nodes, rank, flows, diff, pow)
  {
    var out: seq<Expr> := [];
    var f := 0;
    while f < |flows|
      invariant f <= |flows| && ADFlow(nodes, rank, flows, f, diff, pow) == Ok(out)
    {
      if flows[f].children != [] {
        var head := AdjointHead(nodes, rank, flows, f, diff, pow);
        assert head == AdjointSum(nodes, rank, flows, f, flows[f].children, diff, pow);
        if head.Err? {
          ADFlowStopsAt(nodes, rank, flows, f, |flows|, diff, pow);
          return Err(FoldError.DivideByZero);
        }
        out := out + [Endo(AdName(Name(nodes, flows[f])), head.value)];
      }
      f := f + 1;
    }
    r := Ok(out);
  }

  /**
   * What `EmitAdjointDeclaration` needs: statement `f` is input-shaped and
   * its adjoint `adj` is in the arena, the constant 1 when nobody reads `f`.
   */
  ghost predicate ReadyToDeclare(nodes: seq<Node>, rank: seq<nat>, flows: seq<Flow>, f: nat, adj: Handle)
  {
    && Ranked(nodes, rank) && FlowsWellFormed(nodes, flows) && f < |flows| && adj < |nodes|
    && InputShaped(nodes, flows, f)
    && (flows[f].children == [] ==> nodes[adj] == NConst(1.0))
  }

  /**
   * The instructions `EmitADInstructionsImpl` appends for flow `f` once its
   * adjoint `adj` is built: for a statement that something reads, the
   * declarations of the bindings the adjoint mentions that are not in
   * `seen`, between two comments; the declaration of the adjoint
   * variable; and, for a statement that reads nothing, its output-slot
   * write.  `after` is `seen` with those bindings.
   */
  method EmitAdjointDeclaration(nodes: seq<Node>, ghost rank: seq<nat>, flows: seq<Flow>, f: nat,
                                seen: set<Handle>, adj: Handle, text: string)
    returns (after: set<Handle>, seg: seq<Instruction>, ghost deps: seq<Handle>)
    requires ReadyToDeclare(nodes, rank, flows, f, adj)
    ensures SegmentShape(nodes, flows, f, seg, adj, deps, text)
    ensures deps == Unseen(AllBindings(nodes, rank, adj, []), seen)
    ensures after == seen + Elems(AllBindings(nodes, rank, adj, []))
  {
    var decl := DeclareVariable(AdName(Name(nodes, flows[f])), adj);
    if flows[f].children == [] {
      after, deps := seen, [];
      assert AllBindings(nodes, rank, adj, []) == [];
      assert Elems(AllBindings(nodes, rank, adj, [])) == {};
      seg := [decl];
    } else {
      var decls;
      after, decls, deps := DeclareUnseen(nodes, AllBindings(nodes, rank, adj, []), seen);
      seg := [Comment(["BEGIN " + text])] + decls + [Comment(["END " + text]), decl];
    }
    if flows[f].parents == [] {
      var exo := nodes[nodes[flows[f].sym].body].name;
      seg := seg + [PointerAssign(SlotName(exo), AdName(Name(nodes, flows[f])))];
    }
  }

  /** The declaration loop after its first `k` turns. */
  ghost predicate DeclaredUpTo(nodes: seq<Node>, hs: seq<Handle>, k: nat, seen0: set<Handle>, seen: set<Handle>, deps: seq<Handle>)
  {
    && k <= |hs|
    && deps == Unseen(hs[..k], seen0)
    && (forall i :: 0 <= i < |deps| ==> deps[i] < |nodes| && nodes[deps[i]].NEndo?)
    && seen == seen0 + Elems(hs[..k])
  }

  /**
   * The declaration loop of `EmitADInstructionsImpl`: each binding of `hs`
   * not in `seen` is declared once, in order, and added to the set.
   */
  method DeclareUnseen(nodes: seq<Node>, hs: seq<Handle>, seen: set<Handle>)
    returns (after: set<Handle>, decls: seq<Instruction>, ghost deps: seq<Handle>)
    requires forall k :: 0 <= k < |hs| ==> hs[k] < |nodes| && nodes[hs[k]].NEndo?
    ensures deps == Unseen(hs, seen)
    ensures forall k :: 0 <= k < |deps| ==> deps[k] < |nodes| && nodes[deps[k]].NEndo?
    ensures after == seen + Elems(hs)
    ensures decls == Declarations(nodes, deps)
  {
    after, decls, deps := seen, [], [];
    var k := 0;
    while k < |hs|
      invariant DeclaredUpTo(nodes, hs, k, seen, after, deps)
      invariant decls == Declarations(nodes, deps)
    {
      var dep := hs[k];
      DeclaredNext(nodes, hs, k, seen, after, deps);
      if dep !in after {
        after := after + {dep};
        assert (deps + [dep])[..|deps|] == deps;
        decls, deps := decls + [DeclareVariable(nodes[dep].name, nodes[dep].body)], deps + [dep];
      }
      k := k + 1;
    }
    assert hs[..k] == hs;
  }

  /** One more turn of the declaration loop: `hs[k]` is declared exactly when it is not seen yet. */
  lemma DeclaredNext(nodes: seq<Node>, hs: seq<Handle>, k: nat, seen0: set<Handle>, seen: set<Handle>, deps: seq<Handle>)
    requires forall k :: 0 <= k < |hs| ==> hs[k] < |nodes| && nodes[hs[k]].NEndo?
    requires DeclaredUpTo(nodes, hs, k, seen0, seen, deps) && k < |hs|
    ensures hs[k] in seen ==> DeclaredUpTo(nodes, hs, k + 1, seen0, seen, deps)
    ensures hs[k] !in seen ==> DeclaredUpTo(nodes, hs, k + 1, seen0, seen + {hs[k]}, deps + [hs[k]])
  {
    UnseenElements(hs[..k], seen0);
    assert hs[..k + 1][..k] == hs[..k] && hs[..k + 1] == hs[..k] + [hs[k]];
    assert Elems(hs[..k + 1]) == Elems(hs[..k]) + {hs[k]};
  }
}
