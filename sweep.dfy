/**
 * What the reverse sweep of `DataFlowGraph::EmitADInstructions` owes: for
 * each statement, from the last one down, the outcome of its emission and
 * the segment of instructions it appends; across the sweep, every binding
 * an adjoint mentions is declared once, before that adjoint, unless the
 * profile already held it.
 */
module ReverseSweep {
  import opened Syntax
  import opened Folding
  import opened Heap
  import opened Instructions
  import opened Flows
  import opened Adjoint

  /** The elements of `s`. */
  function Elems(s: seq<Handle>): set<Handle> {
    set x | x in s
  }

  /**
   * How the emission of statement `f` ends: a chain-rule term that does not
   * fold stops it first; then a statement that reads nothing but does not
   * wrap an input variable has no output slot to write.
   */
  function ADStep(nodes: seq<Node>, ghost rank: seq<nat>, flows: seq<Flow>, f: nat, diff: DiffFn, pow: PowFn): Outcome
    requires Ranked(nodes, rank) && FlowsWellFormed(nodes, flows) && f < |flows|
    requires AllBelow(flows[f].children, |flows|)
  {
    if flows[f].children != [] && AdjointSum(nodes, rank, flows, f, flows[f].children, diff, pow).Err? then
      Failed(GraphError.DivideByZero)
    else if !InputShaped(nodes, flows, f) then
      Failed(NotAnInput(Name(nodes, flows[f])))
    else
      Done
  }

  /** The sweep over the statements below `n`, from `n - 1` down: the first failure, if any. */
  function ADSweep(nodes: seq<Node>, ghost rank: seq<nat>, flows: seq<Flow>, n: nat, diff: DiffFn, pow: PowFn): Outcome
    requires Ranked(nodes, rank) && FlowsWellFormed(nodes, flows) && n <= |flows|
    requires forall f :: 0 <= f < |flows| ==> AllBelow(flows[f].children, |flows|)
  {
    if n == 0 then Done
    else
      var r := ADStep(nodes, rank, flows, n - 1, diff, pow);
      if r.Failed? then r else ADSweep(nodes, rank, flows, n - 1, diff, pow)
  }

  /** The sweep succeeds exactly when the emission of every statement does. */
  lemma {:induction false} ADSweepOutcome(nodes: seq<Node>, rank: seq<nat>, flows: seq<Flow>, n: nat, diff: DiffFn, pow: PowFn)
    requires Ranked(nodes, rank) && FlowsWellFormed(nodes, flows) && n <= |flows|
    requires forall f :: 0 <= f < |flows| ==> AllBelow(flows[f].children, |flows|)
    ensures ADSweep(nodes, rank, flows, n, diff, pow).Done? <==> forall f :: 0 <= f < n ==> ADStep(nodes, rank, flows, f, diff, pow).Done?
  {
    if n > 0 {
      var m: nat := n - 1;
      ADSweepOutcome(nodes, rank, flows, m, diff, pow);
      if ADSweep(nodes, rank, flows, n, diff, pow).Done? {
        forall f | 0 <= f < n
          ensures ADStep(nodes, rank, flows, f, diff, pow).Done?
        {
          if f < m {
            assert ADStep(nodes, rank, flows, f, diff, pow).Done?;
          } else {
            assert f == m;
          }
        }
      } else {
        assert !ADStep(nodes, rank, flows, m, diff, pow).Done? || !ADSweep(nodes, rank, flows, m, diff, pow).Done?;
      }
    }
  }

  /** A statement's outcome does not change when the arena grows. */
  lemma ADStepExtends(n1: seq<Node>, r1: seq<nat>, n2: seq<Node>, r2: seq<nat>, flows: seq<Flow>, f: nat, diff: DiffFn, pow: PowFn)
    requires Ranked(n1, r1) && Ranked(n2, r2) && n1 <= n2 && r1 <= r2
    requires FlowsWellFormed(n1, flows) && f < |flows| && AllBelow(flows[f].children, |flows|)
    ensures FlowsWellFormed(n2, flows)
    ensures ADStep(n2, r2, flows, f, diff, pow) == ADStep(n1, r1, flows, f, diff, pow)
  {
    assert forall g :: 0 <= g < |n1| ==> n2[g] == n1[g];
    assert NodeRanked(n1, r1, flows[f].sym);
    if flows[f].children != [] {
      AdjointSumExtends(n1, r1, n2, r2, flows, f, flows[f].children, diff, pow);
    }
  }

  /**
   * The state of the sweep after its first turns: `segs[k]` is the segment
   * of statement `|flows| - 1 - k`, with adjoint `adjs[k]`, declarations
   * `depss[k]` and rendered sum `texts[k]`; no binding is declared twice or
   * was in the profile `seen0` before; the profile `seen` is `seen0` and what
   * was declared; every binding below the `k`-th adjoint was in `seen0`
   * or is declared in segments `0` to `k`; and every declared binding comes
   * after each binding directly below it that was not in `seen0`.
   */
  ghost predicate Swept(nodes: seq<Node>, rank: seq<nat>, flows: seq<Flow>, diff: DiffFn, pow: PowFn, render: RenderFn,
                        seen0: set<Handle>, seen: set<Handle>, segs: seq<seq<Instruction>>,
                        adjs: seq<Handle>, depss: seq<seq<Handle>>, texts: seq<string>)
    requires Ranked(nodes, rank) && FlowsWellFormed(nodes, flows)
  {
    && |segs| <= |flows| && |adjs| == |segs| && |depss| == |segs| && |texts| == |segs|
    && Segments(nodes, rank, flows, diff, pow, render, segs, adjs, depss, texts)
    && Once(seen0, seen, depss)
    && Covered(nodes, rank, seen0, adjs, depss)
    && InDependencyOrder(nodes, rank, seen0, Flatten(depss))
  }

  /** No binding is declared twice or was in `seen0`, and `seen` is `seen0` with what was declared. */
  ghost predicate Once(seen0: set<Handle>, seen: set<Handle>, depss: seq<seq<Handle>>) {
    && Distinct(Flatten(depss))
    && (forall x :: x in Flatten(depss) ==> x !in seen0)
    && seen == seen0 + Elems(Flatten(depss))
  }

  /** Every binding below the `k`-th adjoint was in `seen0` or is declared in the first `k + 1` segments. */
  ghost predicate Covered(nodes: seq<Node>, rank: seq<nat>, seen0: set<Handle>, adjs: seq<Handle>, depss: seq<seq<Handle>>)
    requires Ranked(nodes, rank)
  {
    && |depss| == |adjs|
    && forall k :: 0 <= k < |adjs| ==>
         && adjs[k] < |nodes|
         && forall x :: x in AllBindings(nodes, rank, adjs[k], []) ==> x in seen0 || x in Flatten(depss[..k + 1])
  }

  /** `segs[k]` is the segment of statement `|flows| - 1 - k`, with adjoint `adjs[k]`, declarations `depss[k]` and text `texts[k]`. */
  ghost predicate SegmentOf(nodes: seq<Node>, rank: seq<nat>, flows: seq<Flow>, diff: DiffFn, pow: PowFn, render: RenderFn,
                            segs: seq<seq<Instruction>>, adjs: seq<Handle>, depss: seq<seq<Handle>>, texts: seq<string>, k: nat)
    requires Ranked(nodes, rank) && FlowsWellFormed(nodes, flows)
    requires |segs| <= |flows| && |adjs| == |segs| && |depss| == |segs| && |texts| == |segs| && k < |segs|
  {
    Segment(nodes, rank, flows, |flows| - 1 - k, diff, pow, render, segs[k], adjs[k], depss[k], texts[k])
  }

  /** Every one of the segments is the one of its statement. */
  ghost predicate Segments(nodes: seq<Node>, rank: seq<nat>, flows: seq<Flow>, diff: DiffFn, pow: PowFn, render: RenderFn,
                           segs: seq<seq<Instruction>>, adjs: seq<Handle>, depss: seq<seq<Handle>>, texts: seq<string>)
    requires Ranked(nodes, rank) && FlowsWellFormed(nodes, flows)
    requires |segs| <= |flows| && |adjs| == |segs| && |depss| == |segs| && |texts| == |segs|
  {
    forall k :: 0 <= k < |segs| ==> SegmentOf(nodes, rank, flows, diff, pow, render, segs, adjs, depss, texts, k)
  }

  /** The segments stay what they are when the arena grows. */
  lemma SegmentsExtend(n1: seq<Node>, r1: seq<nat>, n2: seq<Node>, r2: seq<nat>, flows: seq<Flow>,
                       diff: DiffFn, pow: PowFn, render: RenderFn, segs: seq<seq<Instruction>>, adjs: seq<Handle>,
                       depss: seq<seq<Handle>>, texts: seq<string>)
    requires Ranked(n1, r1) && Ranked(n2, r2) && n1 <= n2 && r1 <= r2 && FlowsWellFormed(n1, flows)
    requires |segs| <= |flows| && |adjs| == |segs| && |depss| == |segs| && |texts| == |segs|
    requires Segments(n1, r1, flows, diff, pow, render, segs, adjs, depss, texts)
    ensures FlowsWellFormed(n2, flows)
    ensures Segments(n2, r2, flows, diff, pow, render, segs, adjs, depss, texts)
  {
    FlowsWellFormedExtends(n1, n2, flows);
    forall k | 0 <= k < |segs|
      ensures SegmentOf(n2, r2, flows, diff, pow, render, segs, adjs, depss, texts, k)
    {
      SegmentOfExtends(n1, r1, n2, r2, flows, diff, pow, render, segs, adjs, depss, texts, k);
    }
  }

  /** The `k`-th segment stays what it is when the arena grows. */
  lemma SegmentOfExtends(n1: seq<Node>, r1: seq<nat>, n2: seq<Node>, r2: seq<nat>, flows: seq<Flow>,
                         diff: DiffFn, pow: PowFn, render: RenderFn, segs: seq<seq<Instruction>>, adjs: seq<Handle>,
                         depss: seq<seq<Handle>>, texts: seq<string>, k: nat)
    requires Ranked(n1, r1) && Ranked(n2, r2) && n1 <= n2 && r1 <= r2 && FlowsWellFormed(n1, flows) && FlowsWellFormed(n2, flows)
    requires |segs| <= |flows| && |adjs| == |segs| && |depss| == |segs| && |texts| == |segs| && k < |segs|
    requires SegmentOf(n1, r1, flows, diff, pow, render, segs, adjs, depss, texts, k)
    ensures SegmentOf(n2, r2, flows, diff, pow, render, segs, adjs, depss, texts, k)
  {
    var f: nat := |flows| - 1 - k;
    SegmentOfIs(n1, r1, flows, diff, pow, render, segs, adjs, depss, texts, k, f);
    SegmentOfIs(n2, r2, flows, diff, pow, render, segs, adjs, depss, texts, k, f);
    SegmentExtends(n1, r1, n2, r2, flows, f, diff, pow, render, segs[k], adjs[k], depss[k], texts[k]);
  }

  /** The `k`-th segment is the one of statement `|flows| - 1 - k`. */
  lemma SegmentOfIs(nodes: seq<Node>, rank: seq<nat>, flows: seq<Flow>, diff: DiffFn, pow: PowFn, render: RenderFn,
                    segs: seq<seq<Instruction>>, adjs: seq<Handle>, depss: seq<seq<Handle>>, texts: seq<string>, k: nat, f: nat)
    requires Ranked(nodes, rank) && FlowsWellFormed(nodes, flows)
    requires |segs| <= |flows| && |adjs| == |segs| && |depss| == |segs| && |texts| == |segs| && k < |segs|
    requires f == |flows| - 1 - k
    ensures SegmentOf(nodes, rank, flows, diff, pow, render, segs, adjs, depss, texts, k)
            == Segment(nodes, rank, flows, f, diff, pow, render, segs[k], adjs[k], depss[k], texts[k])
  {
    assert |flows| - 1 - k == f;
  }

  /** Declaring `Unseen(hs, seen)` next keeps every binding declared once. */
  lemma OnceNext(seen0: set<Handle>, seen: set<Handle>, depss: seq<seq<Handle>>, hs: seq<Handle>)
    requires Once(seen0, seen, depss)
    ensures Once(seen0, seen + Elems(hs), depss + [Unseen(hs, seen)])
  {
    var deps := Unseen(hs, seen);
    UnseenElements(hs, seen);
    FlattenAppend(depss, deps);
    DistinctAppend(Flatten(depss), deps);
    assert seen + Elems(hs) == seen0 + Elems(Flatten(depss) + deps);
  }

  /** The bindings below the new adjoint are covered once its declarations are added. */
  lemma CoveredNext(n1: seq<Node>, r1: seq<nat>, n2: seq<Node>, r2: seq<nat>, seen0: set<Handle>, seen: set<Handle>,
                    adjs: seq<Handle>, depss: seq<seq<Handle>>, adj: Handle)
    requires Ranked(n1, r1) && Ranked(n2, r2) && n1 <= n2 && r1 <= r2
    requires Covered(n1, r1, seen0, adjs, depss) && seen == seen0 + Elems(Flatten(depss)) && adj < |n2|
    ensures Covered(n2, r2, seen0, adjs + [adj], depss + [Unseen(AllBindings(n2, r2, adj, []), seen)])
  {
    var hs := AllBindings(n2, r2, adj, []);
    var depss' := depss + [Unseen(hs, seen)];
    var adjs' := adjs + [adj];
    forall k | 0 <= k < |adjs'|
      ensures adjs'[k] < |n2|
      ensures forall x :: x in AllBindings(n2, r2, adjs'[k], []) ==> x in seen0 || x in Flatten(depss'[..k + 1])
    {
      if k < |adjs| {
        assert adjs'[k] == adjs[k] && depss'[..k + 1] == depss[..k + 1];
        AllBindingsExtends(n1, r1, n2, r2, adjs[k], []);
      } else {
        assert depss'[..k + 1] == depss';
        UnseenElements(hs, seen);
        FlattenAppend(depss, Unseen(hs, seen));
      }
    }
  }

  /** One more statement emitted: the sweep state carries over to the grown arena and takes the new segment. */
  lemma SweptNext(n1: seq<Node>, r1: seq<nat>, n2: seq<Node>, r2: seq<nat>, flows: seq<Flow>, diff: DiffFn, pow: PowFn, render: RenderFn,
                  seen0: set<Handle>, seen: set<Handle>, segs: seq<seq<Instruction>>, adjs: seq<Handle>,
                  depss: seq<seq<Handle>>, texts: seq<string>,
                  seg: seq<Instruction>, adj: Handle, deps: seq<Handle>, text: string, f: nat)
    requires Ranked(n1, r1) && Ranked(n2, r2) && n1 <= n2 && r1 <= r2 && FlowsWellFormed(n1, flows)
    requires Swept(n1, r1, flows, diff, pow, render, seen0, seen, segs, adjs, depss, texts) && |segs| < |flows|
    requires FlowsWellFormed(n2, flows) && f == |flows| - 1 - |segs|
    requires Segment(n2, r2, flows, f, diff, pow, render, seg, adj, deps, text)
    requires deps == Unseen(AllBindings(n2, r2, adj, []), seen)
    ensures Swept(n2, r2, flows, diff, pow, render, seen0, seen + Elems(AllBindings(n2, r2, adj, [])),
                  segs + [seg], adjs + [adj], depss + [deps], texts + [text])
  {
    assert Segments(n2, r2, flows, diff, pow, render, segs + [seg], adjs + [adj], depss + [deps], texts + [text]) by {
      SegmentsExtend(n1, r1, n2, r2, flows, diff, pow, render, segs, adjs, depss, texts);
      SegmentsSnoc(n2, r2, flows, diff, pow, render, segs, adjs, depss, texts, seg, adj, deps, text, f);
    }
    assert Once(seen0, seen + Elems(AllBindings(n2, r2, adj, [])), depss + [deps]) by {
      OnceNext(seen0, seen, depss, AllBindings(n2, r2, adj, []));
    }
    assert Covered(n2, r2, seen0, adjs + [adj], depss + [deps]) by {
      CoveredNext(n1, r1, n2, r2, seen0, seen, adjs, depss, adj);
    }
    assert InDependencyOrder(n2, r2, seen0, Flatten(depss + [deps])) by {
      OrderExtends(n1, r1, n2, r2, seen0, Flatten(depss));
      DeclarationsOrdered(n2, r2, adj, seen);
      assert seen == seen0 + (set x | x in Flatten(depss));
      OrderAppend(n2, r2, seen0, Flatten(depss), deps);
      FlattenAppend(depss, deps);
    }
  }

  /** The segment of the next statement down joins the others. */
  lemma SegmentsSnoc(nodes: seq<Node>, rank: seq<nat>, flows: seq<Flow>, diff: DiffFn, pow: PowFn, render: RenderFn,
                     segs: seq<seq<Instruction>>, adjs: seq<Handle>, depss: seq<seq<Handle>>, texts: seq<string>,
                     seg: seq<Instruction>, adj: Handle, deps: seq<Handle>, text: string, f: nat)
    requires Ranked(nodes, rank) && FlowsWellFormed(nodes, flows)
    requires |segs| < |flows| && |adjs| == |segs| && |depss| == |segs| && |texts| == |segs| && f == |flows| - 1 - |segs|
    requires Segments(nodes, rank, flows, diff, pow, render, segs, adjs, depss, texts)
    requires Segment(nodes, rank, flows, f, diff, pow, render, seg, adj, deps, text)
    ensures Segments(nodes, rank, flows, diff, pow, render, segs + [seg], adjs + [adj], depss + [deps], texts + [text])
  {
    forall k | 0 <= k < |segs| + 1
      ensures SegmentOf(nodes, rank, flows, diff, pow, render, segs + [seg], adjs + [adj], depss + [deps], texts + [text], k)
    {
      SegmentOfSnoc(nodes, rank, flows, diff, pow, render, segs, adjs, depss, texts, seg, adj, deps, text, f, k);
      if k < |segs| {
        assert SegmentOf(nodes, rank, flows, diff, pow, render, segs, adjs, depss, texts, k);
      }
    }
  }

  /** The `k`-th of the segments with one more is the `k`-th of the others or the new one. */
  lemma SegmentOfSnoc(nodes: seq<Node>, rank: seq<nat>, flows: seq<Flow>, diff: DiffFn, pow: PowFn, render: RenderFn,
                      segs: seq<seq<Instruction>>, adjs: seq<Handle>, depss: seq<seq<Handle>>, texts: seq<string>,
                      seg: seq<Instruction>, adj: Handle, deps: seq<Handle>, text: string, f: nat, k: nat)
    requires Ranked(nodes, rank) && FlowsWellFormed(nodes, flows)
    requires |segs| < |flows| && |adjs| == |segs| && |depss| == |segs| && |texts| == |segs| && k <= |segs|
    requires f == |flows| - 1 - |segs|
    ensures SegmentOf(nodes, rank, flows, diff, pow, render, segs + [seg], adjs + [adj], depss + [deps], texts + [text], k)
            == if k < |segs| then SegmentOf(nodes, rank, flows, diff, pow, render, segs, adjs, depss, texts, k)
               else Segment(nodes, rank, flows, f, diff, pow, render, seg, adj, deps, text)
  {
    if k < |segs| {
      assert (segs + [seg])[k] == segs[k] && (adjs + [adj])[k] == adjs[k];
      assert (depss + [deps])[k] == depss[k] && (texts + [text])[k] == texts[k];
    } else {
      assert (segs + [seg])[k] == seg && (adjs + [adj])[k] == adj;
      assert (depss + [deps])[k] == deps && (texts + [text])[k] == text;
    }
  }

  /** The bindings below the adjoints stay covered when the arena grows. */
  lemma CoveredExtends(n1: seq<Node>, r1: seq<nat>, n2: seq<Node>, r2: seq<nat>, seen0: set<Handle>,
                       adjs: seq<Handle>, depss: seq<seq<Handle>>)
    requires Ranked(n1, r1) && Ranked(n2, r2) && n1 <= n2 && r1 <= r2
    requires Covered(n1, r1, seen0, adjs, depss)
    ensures Covered(n2, r2, seen0, adjs, depss)
  {
    forall k | 0 <= k < |adjs|
      ensures adjs[k] < |n2|
      ensures forall x :: x in AllBindings(n2, r2, adjs[k], []) ==> x in seen0 || x in Flatten(depss[..k + 1])
    {
      AllBindingsExtends(n1, r1, n2, r2, adjs[k], []);
    }
  }

  /** The sweep state carries over to a grown arena. */
  lemma SweptExtends(n1: seq<Node>, r1: seq<nat>, n2: seq<Node>, r2: seq<nat>, flows: seq<Flow>, diff: DiffFn, pow: PowFn, render: RenderFn,
                     seen0: set<Handle>, seen: set<Handle>, segs: seq<seq<Instruction>>, adjs: seq<Handle>,
                     depss: seq<seq<Handle>>, texts: seq<string>)
    requires Ranked(n1, r1) && Ranked(n2, r2) && n1 <= n2 && r1 <= r2 && FlowsWellFormed(n1, flows)
    requires Swept(n1, r1, flows, diff, pow, render, seen0, seen, segs, adjs, depss, texts)
    ensures FlowsWellFormed(n2, flows)
    ensures Swept(n2, r2, flows, diff, pow, render, seen0, seen, segs, adjs, depss, texts)
  {
    SegmentsExtend(n1, r1, n2, r2, flows, diff, pow, render, segs, adjs, depss, texts);
    CoveredExtends(n1, r1, n2, r2, seen0, adjs, depss);
    OrderExtends(n1, r1, n2, r2, seen0, Flatten(depss));
  }

  /**
   * `EmitADInstructions` after the statements from `idx` up were emitted,
   * last first, into an arena grown from `n0` to `nodes`: the outcome of
   * the whole sweep is that of the statements still to come.
   */
  ghost predicate Sweeping(n0: seq<Node>, r0: seq<nat>, nodes: seq<Node>, rank: seq<nat>, flows: seq<Flow>,
                           diff: DiffFn, pow: PowFn, render: RenderFn, idx: nat, seen0: set<Handle>, seen: set<Handle>,
                           segs: seq<seq<Instruction>>,
                           adjs: seq<Handle>, depss: seq<seq<Handle>>, texts: seq<string>)
  {
    && Ranked(n0, r0) && Ranked(nodes, rank) && n0 <= nodes && r0 <= rank
    && FlowsWellFormed(n0, flows) && FlowsWellFormed(nodes, flows)
    && (forall f :: 0 <= f < |flows| ==> AllBelow(flows[f].children, |flows|))
    && idx <= |flows| && |segs| == |flows| - idx
    && ADSweep(n0, r0, flows, |flows|, diff, pow) == ADSweep(n0, r0, flows, idx, diff, pow)
    && Swept(nodes, rank, flows, diff, pow, render, seen0, seen, segs, adjs, depss, texts)
  }

  /**
   * What `EmitADInstructions` leaves behind when it stops in an arena
   * grown from `n0` to `nodes`: its outcome is the sweep's, it emitted the
   * segment of every statement when it succeeds and of every statement
   * after the failing one when it fails.
   */
  ghost predicate SweepResult(n0: seq<Node>, r0: seq<nat>, nodes: seq<Node>, rank: seq<nat>, flows: seq<Flow>,
                              diff: DiffFn, pow: PowFn, render: RenderFn, res: Outcome, seen0: set<Handle>, seen: set<Handle>,
                              segs: seq<seq<Instruction>>,
                              adjs: seq<Handle>, depss: seq<seq<Handle>>, texts: seq<string>)
  {
    && Ranked(n0, r0) && Ranked(nodes, rank) && n0 <= nodes && r0 <= rank
    && FlowsWellFormed(n0, flows) && FlowsWellFormed(nodes, flows)
    && (forall f :: 0 <= f < |flows| ==> AllBelow(flows[f].children, |flows|))
    && res == ADSweep(n0, r0, flows, |flows|, diff, pow)
    && (res.Done? ==> |segs| == |flows|)
    && (res.Failed? ==> |segs| < |flows| && res == ADStep(n0, r0, flows, |flows| - 1 - |segs|, diff, pow))
    && Swept(nodes, rank, flows, diff, pow, render, seen0, seen, segs, adjs, depss, texts)
  }

  /** Before the first statement nothing is emitted. */
  lemma SweepStart(n0: seq<Node>, r0: seq<nat>, flows: seq<Flow>, diff: DiffFn, pow: PowFn, render: RenderFn, seen0: set<Handle>)
    requires Ranked(n0, r0) && FlowsWellFormed(n0, flows)
    requires forall f :: 0 <= f < |flows| ==> AllBelow(flows[f].children, |flows|)
    ensures Sweeping(n0, r0, n0, r0, flows, diff, pow, render, |flows|, seen0, seen0, [], [], [], [])
  {
    assert Flatten<Handle>([]) == [];
    assert Elems([]) == {};
  }

  /** Appending the next segment keeps the instructions the concatenation of the segments. */
  lemma InstructionsNext(instrs0: seq<Instruction>, instrs: seq<Instruction>, segs: seq<seq<Instruction>>, seg: seq<Instruction>)
    requires instrs == instrs0 + Flatten(segs)
    ensures instrs + seg == instrs0 + Flatten(segs + [seg])
  {
    FlattenAppend(segs, seg);
  }

  /** Statement `f` emitted its segment: the sweep goes on one statement down. */
  lemma SweepingNext(n0: seq<Node>, r0: seq<nat>, n1: seq<Node>, r1: seq<nat>, n2: seq<Node>, r2: seq<nat>,
                     flows: seq<Flow>, diff: DiffFn, pow: PowFn, render: RenderFn, f: nat, seen0: set<Handle>, seen: set<Handle>,
                     segs: seq<seq<Instruction>>, adjs: seq<Handle>, depss: seq<seq<Handle>>, texts: seq<string>,
                     seg: seq<Instruction>, adj: Handle, deps: seq<Handle>, text: string)
    requires Sweeping(n0, r0, n1, r1, flows, diff, pow, render, f + 1, seen0, seen, segs, adjs, depss, texts)
    requires Ranked(n2, r2) && n1 <= n2 && r1 <= r2 && FlowsWellFormed(n2, flows)
    requires ADStep(n2, r2, flows, f, diff, pow).Done?
    requires Segment(n2, r2, flows, f, diff, pow, render, seg, adj, deps, text)
    requires deps == Unseen(AllBindings(n2, r2, adj, []), seen)
    ensures Sweeping(n0, r0, n2, r2, flows, diff, pow, render, f, seen0, seen + Elems(AllBindings(n2, r2, adj, [])),
                     segs + [seg], adjs + [adj], depss + [deps], texts + [text])
  {
    assert n0 <= n2 && r0 <= r2 by {
      assert n2[..|n0|] == n1[..|n0|] && r2[..|r0|] == r1[..|r0|];
    }
    assert ADSweep(n0, r0, flows, |flows|, diff, pow) == ADSweep(n0, r0, flows, f, diff, pow) by {
      ADStepExtends(n0, r0, n2, r2, flows, f, diff, pow);
    }
    assert Swept(n2, r2, flows, diff, pow, render, seen0, seen + Elems(AllBindings(n2, r2, adj, [])),
                 segs + [seg], adjs + [adj], depss + [deps], texts + [text]) by {
      SweptNext(n1, r1, n2, r2, flows, diff, pow, render, seen0, seen, segs, adjs, depss, texts, seg, adj, deps, text, f);
    }
  }

  /** Statement `f` failed: the sweep stops with its outcome. */
  lemma SweepingFails(n0: seq<Node>, r0: seq<nat>, n1: seq<Node>, r1: seq<nat>, n2: seq<Node>, r2: seq<nat>,
                      flows: seq<Flow>, diff: DiffFn, pow: PowFn, render: RenderFn, f: nat, seen0: set<Handle>, seen: set<Handle>,
                      segs: seq<seq<Instruction>>, adjs: seq<Handle>, depss: seq<seq<Handle>>, texts: seq<string>)
    requires Sweeping(n0, r0, n1, r1, flows, diff, pow, render, f + 1, seen0, seen, segs, adjs, depss, texts)
    requires Ranked(n2, r2) && n1 <= n2 && r1 <= r2 && FlowsWellFormed(n2, flows)
    requires ADStep(n2, r2, flows, f, diff, pow).Failed?
    ensures SweepResult(n0, r0, n2, r2, flows, diff, pow, render, ADStep(n2, r2, flows, f, diff, pow),
                        seen0, seen, segs, adjs, depss, texts)
  {
    assert n0 <= n2 && r0 <= r2 by {
      assert n2[..|n0|] == n1[..|n0|] && r2[..|r0|] == r1[..|r0|];
    }
    var out := ADStep(n2, r2, flows, f, diff, pow);
    ADStepExtends(n0, r0, n2, r2, flows, f, diff, pow);
    assert ADSweep(n0, r0, flows, |flows|, diff, pow) == out by {
      assert ADSweep(n0, r0, flows, f + 1, diff, pow) == out;
    }
    assert |flows| - 1 - |segs| == f;
    assert Swept(n2, r2, flows, diff, pow, render, seen0, seen, segs, adjs, depss, texts) by {
      SweptExtends(n1, r1, n2, r2, flows, diff, pow, render, seen0, seen, segs, adjs, depss, texts);
    }
  }
}
