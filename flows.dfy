/**
 * The statements of a `DataFlowGraph` and their links, as values.  A
 * `DataFlow` is identified with its position in the graph's `rank_`; its
 * `parents_` are the statements it reads and its `children_` the
 * statements that read it.
 */
module Flows {
  import opened Syntax
  import opened Heap
  import opened Instructions

  /** A `DataFlow`: the binding it stands for, and its links as positions in `rank_`. */
  datatype Flow = Flow(sym: Handle, parents: seq<nat>, children: seq<nat>)

  /** Every flow stands for a binding of the arena. */
  predicate FlowsWellFormed(nodes: seq<Node>, flows: seq<Flow>) {
    forall f :: 0 <= f < |flows| ==> flows[f].sym < |nodes| && nodes[flows[f].sym].NEndo?
  }

  /** `DataFlow::Name`. */
  function Name(nodes: seq<Node>, flow: Flow): string
    requires flow.sym < |nodes| && nodes[flow.sym].NEndo?
  {
    nodes[flow.sym].name
  }

  /** The names of the bindings `hs`, in order. */
  function BindingNames(nodes: seq<Node>, hs: seq<Handle>): (r: seq<string>)
    requires forall k :: 0 <= k < |hs| ==> hs[k] < |nodes| && nodes[hs[k]].NEndo?
    ensures |r| == |hs| && forall k :: 0 <= k < |hs| ==> r[k] == nodes[hs[k]].name
  {
    if hs == [] then [] else BindingNames(nodes, hs[..|hs| - 1]) + [nodes[hs[|hs| - 1]].name]
  }

  // ---------------------------------------------------------------- links

  /** `link_dependency(flow, dep)`: `p` becomes a parent of `f`, and `f` a child of `p`. */
  function Link(flows: seq<Flow>, f: nat, p: nat): (r: seq<Flow>)
    requires f < |flows| && p < |flows|
    ensures |r| == |flows|
    ensures forall j :: 0 <= j < |flows| ==>
      r[j] == Flow(flows[j].sym,
                   flows[j].parents + (if j == f then [p] else []),
                   flows[j].children + (if j == p then [f] else []))
  {
    var fl := flows[f := flows[f].(parents := flows[f].parents + [p])];
    fl[p := fl[p].(children := fl[p].children + [f])]
  }

  /** `n` copies of `x`. */
  function Repeat(x: nat, n: nat): (r: seq<nat>)
    ensures |r| == n && forall k :: 0 <= k < n ==> r[k] == x
  {
    if n == 0 then [] else Repeat(x, n - 1) + [x]
  }

  lemma RepeatCount(x: nat, n: nat, y: nat)
    ensures multiset(Repeat(x, n))[y] == if x == y then n else 0
  {
    if n > 0 {
      assert Repeat(x, n) == Repeat(x, n - 1) + [x];
      RepeatCount(x, n - 1, y);
    }
  }

  /**
   * The links `Add` makes for `f`, one per resolved dependency, in order:
   * `f` gains exactly the parents `ps`, each flow `j` gains `f` as a child
   * once for each time it occurs in `ps`, and nothing else changes.
   */
  function LinkAll(flows: seq<Flow>, f: nat, ps: seq<nat>): (r: seq<Flow>)
    requires f < |flows| && forall k :: 0 <= k < |ps| ==> ps[k] < |flows|
    ensures |r| == |flows|
    ensures forall j :: 0 <= j < |flows| ==> r[j].sym == flows[j].sym
    ensures r[f].parents == flows[f].parents + ps
    ensures forall j :: 0 <= j < |flows| && j != f ==> r[j].parents == flows[j].parents
    ensures forall j :: 0 <= j < |flows| ==>
      r[j].children == flows[j].children + Repeat(f, multiset(ps)[j])
    decreases |ps|
  {
    if ps == [] then flows
    else
      var init := ps[..|ps| - 1];
      var p := ps[|ps| - 1];
      assert ps == init + [p];
      var fl := LinkAll(flows, f, init);
      LinkAllStep(flows, f, init, p, fl);
      Link(fl, f, p)
  }

  /** One more link on top of `LinkAll`: the closed form above still holds. */
  lemma LinkAllStep(flows: seq<Flow>, f: nat, init: seq<nat>, p: nat, fl: seq<Flow>)
    requires f < |flows| && p < |flows| && |fl| == |flows|
    requires forall j :: 0 <= j < |flows| ==> fl[j].sym == flows[j].sym
    requires fl[f].parents == flows[f].parents + init
    requires forall j :: 0 <= j < |flows| && j != f ==> fl[j].parents == flows[j].parents
    requires forall j :: 0 <= j < |flows| ==> fl[j].children == flows[j].children + Repeat(f, multiset(init)[j])
    ensures var r := Link(fl, f, p);
      && (forall j :: 0 <= j < |flows| ==> r[j].sym == flows[j].sym)
      && r[f].parents == flows[f].parents + (init + [p])
      && (forall j :: 0 <= j < |flows| && j != f ==> r[j].parents == flows[j].parents)
      && (forall j :: 0 <= j < |flows| ==> r[j].children == flows[j].children + Repeat(f, multiset(init + [p])[j]))
  {
    var r := Link(fl, f, p);
    assert r[f].parents == flows[f].parents + (init + [p]) by {
      assert r[f].parents == (flows[f].parents + init) + [p];
    }
    forall j | 0 <= j < |flows|
      ensures r[j].children == flows[j].children + Repeat(f, multiset(init + [p])[j])
    {
      var m := multiset(init)[j];
      assert r[j].children == (flows[j].children + Repeat(f, m)) + (if j == p then [f] else []);
      if j == p {
        assert multiset(init + [p])[j] == m + 1;
        assert Repeat(f, m + 1) == Repeat(f, m) + [f];
      } else {
        assert multiset(init + [p])[j] == m;
      }
    }
  }


  /** `LinkAll` leaves alone every flow other than `f` and those in `ps`. */
  lemma LinkAllFrame(flows: seq<Flow>, f: nat, ps: seq<nat>, j: nat)
    requires f < |flows| && forall k :: 0 <= k < |ps| ==> ps[k] < |flows|
    requires j < |flows| && j != f && j !in ps
    ensures LinkAll(flows, f, ps)[j] == flows[j]
  {
    var r := LinkAll(flows, f, ps);
    assert multiset(ps)[j] == 0;
    assert r[j].children == flows[j].children;
  }

  /** Each resolved dependency `d` ends up with `d` among the parents of `f` and `f` among the children of `d`. */
  lemma LinkAllLinks(flows: seq<Flow>, f: nat, ps: seq<nat>, d: nat)
    requires f < |flows| && forall k :: 0 <= k < |ps| ==> ps[k] < |flows|
    requires d in ps
    ensures d in LinkAll(flows, f, ps)[f].parents && f in LinkAll(flows, f, ps)[d].children
  {
    var r := LinkAll(flows, f, ps);
    assert r[f].parents == flows[f].parents + ps;
    var n := multiset(ps)[d];
    assert n > 0;
    assert r[d].children == flows[d].children + Repeat(f, n);
    assert r[d].children[|flows[d].children|] == f;
  }

  /** Parent and child links agree, counting repetitions. */
  ghost predicate Symmetric(flows: seq<Flow>) {
    forall f, p :: 0 <= f < |flows| && 0 <= p < |flows| ==>
      multiset(flows[f].parents)[p] == multiset(flows[p].children)[f]
  }

  /** A statement only reads statements added before it (or itself). */
  predicate LinksBackward(flows: seq<Flow>) {
    && (forall f, k :: 0 <= f < |flows| && 0 <= k < |flows[f].parents| ==> flows[f].parents[k] <= f)
    && (forall f, k :: 0 <= f < |flows| && 0 <= k < |flows[f].children| ==>
          f <= flows[f].children[k] < |flows|)
  }

  lemma {:induction false} LinkAllSymmetric(flows: seq<Flow>, f: nat, ps: seq<nat>)
    requires f < |flows| && forall k :: 0 <= k < |ps| ==> ps[k] < |flows|
    requires Symmetric(flows)
    ensures Symmetric(LinkAll(flows, f, ps))
  {
    var r := LinkAll(flows, f, ps);
    forall a, b | 0 <= a < |r| && 0 <= b < |r|
      ensures multiset(r[a].parents)[b] == multiset(r[b].children)[a]
    {
      RepeatCount(f, multiset(ps)[b], a);
      assert multiset(r[b].children)[a] == multiset(flows[b].children)[a] + (if a == f then multiset(ps)[b] else 0);
      if a == f {
        assert multiset(r[a].parents) == multiset(flows[a].parents) + multiset(ps);
      }
    }
  }

  lemma LinkAllBackward(flows: seq<Flow>, f: nat, ps: seq<nat>)
    requires f < |flows| && forall k :: 0 <= k < |ps| ==> ps[k] <= f
    requires LinksBackward(flows)
    ensures LinksBackward(LinkAll(flows, f, ps))
  {
    var r := LinkAll(flows, f, ps);
    forall j, k | 0 <= j < |r| && 0 <= k < |r[j].children|
      ensures j <= r[j].children[k] < |r|
    {
      if k >= |flows[j].children| {
        var n := multiset(ps)[j];
        assert r[j].children[k] == f;
        assert n > 0 && j in multiset(ps);
        var i :| 0 <= i < |ps| && ps[i] == j;
      }
    }
  }

  // ---------------------------------------------------------------- index

  /** `Resolve`: the flows `index_` names for `names`, up to the first name it does not know. */
  function Resolve(index: map<string, nat>, names: seq<string>): (r: seq<nat>)
    ensures |r| <= |names|
    ensures forall k :: 0 <= k < |r| ==> names[k] in index && r[k] == index[names[k]]
    ensures |r| < |names| ==> names[|r|] !in index
  {
    if names == [] || names[0] !in index then []
    else [index[names[0]]] + Resolve(index, names[1..])
  }

  /** Resolving one more name after a fully resolved list adds its flow, or stops there. */
  lemma {:induction false} ResolveAppend(index: map<string, nat>, names: seq<string>, n: string)
    requires |Resolve(index, names)| == |names|
    ensures Resolve(index, names + [n]) == Resolve(index, names) + (if n in index then [index[n]] else [])
    decreases |names|
  {
    if names == [] {
      assert names + [n] == [n];
    } else {
      assert (names + [n])[1..] == names[1..] + [n];
      ResolveAppend(index, names[1..], n);
    }
  }

  /** `ResolveAppend` on the prefixes of one list. */
  lemma ResolveNext(index: map<string, nat>, names: seq<string>, k: nat)
    requires k < |names| && |Resolve(index, names[..k])| == k
    ensures Resolve(index, names[..k + 1]) ==
      Resolve(index, names[..k]) + (if names[k] in index then [index[names[k]]] else [])
  {
    assert names[..k + 1] == names[..k] + [names[k]];
    ResolveAppend(index, names[..k], names[k]);
  }

  /** Linking one more parent on top of `LinkAll` is `LinkAll` of the longer list. */
  lemma LinkAllSnoc(flows: seq<Flow>, f: nat, ps: seq<nat>, p: nat)
    requires f < |flows| && p < |flows| && forall k :: 0 <= k < |ps| ==> ps[k] < |flows|
    ensures LinkAll(flows, f, ps + [p]) == Link(LinkAll(flows, f, ps), f, p)
  {
    assert (ps + [p])[..|ps|] == ps;
  }

  /** Resolution stops at the first name the index does not know. */
  lemma ResolveStops(index: map<string, nat>, names: seq<string>, k: nat)
    requires k < |names| && |Resolve(index, names[..k])| == k && names[k] !in index
    ensures Resolve(index, names) == Resolve(index, names[..k])
  {
    var r, p := Resolve(index, names), Resolve(index, names[..k]);
    assert forall j :: 0 <= j < k ==> names[j] == names[..k][j];
    assert |r| == k;
  }

  /** Why building or emitting a graph stops. */
  datatype GraphError =
    | UnresolvedDependency(name: string)
    | DivideByZero
    | NotAnInput(name: string)

  datatype Outcome = Done | Failed(error: GraphError)

  /** Every flow the index names lies below `n`. */
  predicate IndexBelow(index: map<string, nat>, n: nat) {
    forall name :: name in index ==> index[name] < n
  }

  /**
   * The loop of `DataFlowGraph::Add` from the `k`-th name on: each name is
   * looked up and linked to flow `f` in turn, and the first name the index
   * does not know stops it.
   */
  function LinkFrom(flows: seq<Flow>, f: nat, index: map<string, nat>, names: seq<string>, k: nat): (seq<Flow>, Outcome)
    requires f < |flows| && IndexBelow(index, |flows|) && k <= |names|
    decreases |names| - k
  {
    if k == |names| then (flows, Done)
    else if names[k] !in index then (flows, Failed(UnresolvedDependency(names[k])))
    else LinkFrom(Link(flows, f, index[names[k]]), f, index, names, k + 1)
  }

  /**
   * Once the first `k` names are resolved and linked, the loop links exactly
   * the longest resolvable prefix of the names, and fails exactly when that
   * prefix stops short, on the first name it could not resolve.
   */
  lemma {:induction false} LinkFromResolves(base: seq<Flow>, f: nat, index: map<string, nat>, names: seq<string>, k: nat, flows: seq<Flow>)
    requires f < |base| && IndexBelow(index, |base|) && k <= |names|
    requires |Resolve(index, names[..k])| == k && flows == LinkAll(base, f, Resolve(index, names[..k]))
    ensures LinkFrom(flows, f, index, names, k).0 == LinkAll(base, f, Resolve(index, names))
    ensures LinkFrom(flows, f, index, names, k).1.Done? <==> |Resolve(index, names)| == |names|
    ensures LinkFrom(flows, f, index, names, k).1.Failed? ==>
      LinkFrom(flows, f, index, names, k).1.error == UnresolvedDependency(names[|Resolve(index, names)|])
    decreases |names| - k
  {
    if k == |names| {
      assert names[..k] == names;
    } else if names[k] !in index {
      ResolveStops(index, names, k);
    } else {
      LinkFromNext(base, f, index, names, k, flows);
      LinkFromResolves(base, f, index, names, k + 1, Link(flows, f, index[names[k]]));
    }
  }

  /** Linking the `k`-th name extends the resolved and linked prefix by one. */
  lemma LinkFromNext(base: seq<Flow>, f: nat, index: map<string, nat>, names: seq<string>, k: nat, flows: seq<Flow>)
    requires f < |base| && IndexBelow(index, |base|) && k < |names| && names[k] in index
    requires |Resolve(index, names[..k])| == k && flows == LinkAll(base, f, Resolve(index, names[..k]))
    ensures |Resolve(index, names[..k + 1])| == k + 1
    ensures Link(flows, f, index[names[k]]) == LinkAll(base, f, Resolve(index, names[..k + 1]))
  {
    ResolveNext(index, names, k);
    LinkAllSnoc(base, f, Resolve(index, names[..k]), index[names[k]]);
  }

  /** The loop of `DataFlowGraph::Add`, on the flows with the new one appended at `f`. */
  method LinkDependencies(base: seq<Flow>, f: nat, index: map<string, nat>, names: seq<string>)
    returns (flows: seq<Flow>, res: Outcome)
    requires f < |base| && IndexBelow(index, |base|)
    ensures flows == LinkAll(base, f, Resolve(index, names))
    ensures res.Done? <==> |Resolve(index, names)| == |names|
    ensures res.Failed? ==> res.error == UnresolvedDependency(names[|Resolve(index, names)|])
  {
    flows := base;
    var k := 0;
    while k < |names|
      invariant 0 <= k <= |names| && |flows| == |base|
      invariant LinkFrom(flows, f, index, names, k) == LinkFrom(base, f, index, names, 0)
    {
      if names[k] !in index {
        res := Failed(UnresolvedDependency(names[k]));
        LinkDependenciesMeaning(base, f, index, names, flows, res);
        return;
      }
      flows := Link(flows, f, index[names[k]]);
      k := k + 1;
    }
    res := Done;
    LinkDependenciesMeaning(base, f, index, names, flows, res);
  }

  /** What the loop of `DataFlowGraph::Add` ends with, in terms of the names that resolve. */
  lemma LinkDependenciesMeaning(base: seq<Flow>, f: nat, index: map<string, nat>, names: seq<string>, flows: seq<Flow>, res: Outcome)
    requires f < |base| && IndexBelow(index, |base|)
    requires (flows, res) == LinkFrom(base, f, index, names, 0)
    ensures flows == LinkAll(base, f, Resolve(index, names))
    ensures res.Done? <==> |Resolve(index, names)| == |names|
    ensures res.Failed? ==> res.error == UnresolvedDependency(names[|Resolve(index, names)|])
  {
    LinkFromResolves(base, f, index, names, 0, base);
  }

  /** `index_` maps each name to a flow of that name, and knows every flow's name. */
  ghost predicate IndexOK(nodes: seq<Node>, flows: seq<Flow>, index: map<string, nat>)
    requires FlowsWellFormed(nodes, flows)
  {
    && (forall n :: n in index ==> index[n] < |flows| && Name(nodes, flows[index[n]]) == n)
    && (forall f :: 0 <= f < |flows| ==> Name(nodes, flows[f]) in index)
  }

  /** The invariant of a `DataFlowGraph`. */
  ghost predicate GraphOK(nodes: seq<Node>, flows: seq<Flow>, index: map<string, nat>) {
    && FlowsWellFormed(nodes, flows)
    && LinksBackward(flows)
    && Symmetric(flows)
    && IndexOK(nodes, flows, index)
  }

  /** Well-formedness only looks at the arena nodes the flows name. */
  lemma FlowsWellFormedExtends(n1: seq<Node>, n2: seq<Node>, flows: seq<Flow>)
    requires n1 <= n2 && FlowsWellFormed(n1, flows)
    ensures FlowsWellFormed(n2, flows)
  {
    forall f | 0 <= f < |flows|
      ensures n2[flows[f].sym] == n1[flows[f].sym]
    {
      assert n2[..|n1|] == n1;
    }
  }

  /** The graph invariant only looks at the arena nodes its flows name. */
  lemma GraphOKExtends(n1: seq<Node>, n2: seq<Node>, flows: seq<Flow>, index: map<string, nat>)
    requires n1 <= n2 && GraphOK(n1, flows, index)
    ensures GraphOK(n2, flows, index)
  {
    assert forall f :: 0 <= f < |flows| ==> n2[flows[f].sym] == n1[flows[f].sym];
  }

  /** The dependencies `Add` resolves for a binding: the bindings met directly below it. */
  function DependencyNames(nodes: seq<Node>, ghost rank: seq<nat>, sym: Handle): (r: seq<string>)
    requires Ranked(nodes, rank) && sym < |nodes|
  {
    BindingNames(nodes, DirectBindings(nodes, rank, sym, []))
  }

  /** `DataFlowGraph::Add` on values: the new flow is indexed, then linked to what resolves. */
  ghost function Added(nodes: seq<Node>, rank: seq<nat>, flows: seq<Flow>, index: map<string, nat>, sym: Handle): (r: (seq<Flow>, map<string, nat>))
    requires Ranked(nodes, rank) && sym < |nodes| && nodes[sym].NEndo?
    requires forall n :: n in index ==> index[n] < |flows|
  {
    var index' := index[nodes[sym].name := |flows|];
    var ps := Resolve(index', DependencyNames(nodes, rank, sym));
    assert forall k :: 0 <= k < |ps| ==> ps[k] <= |flows|;
    (LinkAll(flows + [Flow(sym, [], [])], |flows|, ps), index')
  }

  /** A new, unlinked flow indexed under its name keeps the graph invariant. */
  lemma AppendKeepsGraph(nodes: seq<Node>, flows: seq<Flow>, index: map<string, nat>, sym: Handle)
    requires sym < |nodes| && nodes[sym].NEndo?
    requires GraphOK(nodes, flows, index)
    ensures GraphOK(nodes, flows + [Flow(sym, [], [])], index[nodes[sym].name := |flows|])
  {
    var f := |flows|;
    var base := flows + [Flow(sym, [], [])];
    var index' := index[nodes[sym].name := f];
    assert forall g :: 0 <= g < f ==> base[g] == flows[g];
    assert Symmetric(base) by {
      forall a, b | 0 <= a < |base| && 0 <= b < |base|
        ensures multiset(base[a].parents)[b] == multiset(base[b].children)[a]
      {
        if a < f && b < f {
          assert base[a] == flows[a] && base[b] == flows[b];
        }
      }
    }
    forall n | n in index'
      ensures index'[n] < |base| && Name(nodes, base[index'[n]]) == n
    {
      if n != nodes[sym].name {
        assert base[index[n]] == flows[index[n]];
      }
    }
  }

  /** Links that point backwards keep the graph invariant. */
  lemma LinkAllKeepsGraph(nodes: seq<Node>, flows: seq<Flow>, index: map<string, nat>, f: nat, ps: seq<nat>)
    requires f < |flows| && forall k :: 0 <= k < |ps| ==> ps[k] <= f
    requires GraphOK(nodes, flows, index)
    ensures GraphOK(nodes, LinkAll(flows, f, ps), index)
  {
    var r := LinkAll(flows, f, ps);
    LinkAllSymmetric(flows, f, ps);
    LinkAllBackward(flows, f, ps);
    assert FlowsWellFormed(nodes, r) by {
      forall g | 0 <= g < |r|
        ensures r[g].sym < |nodes| && nodes[r[g].sym].NEndo?
      {
        assert r[g].sym == flows[g].sym;
      }
    }
    forall n | n in index
      ensures index[n] < |r| && Name(nodes, r[index[n]]) == n
    {
      assert r[index[n]].sym == flows[index[n]].sym;
    }
    forall g | 0 <= g < |r|
      ensures Name(nodes, r[g]) in index
    {
      assert r[g].sym == flows[g].sym;
    }
  }

  /** `Add` keeps the graph invariant, whether or not every dependency resolves. */
  lemma AddKeepsGraph(nodes: seq<Node>, rank: seq<nat>, flows: seq<Flow>, index: map<string, nat>, sym: Handle)
    requires Ranked(nodes, rank) && sym < |nodes| && nodes[sym].NEndo?
    requires GraphOK(nodes, flows, index)
    ensures GraphOK(nodes, Added(nodes, rank, flows, index, sym).0, Added(nodes, rank, flows, index, sym).1)
  {
    var index' := index[nodes[sym].name := |flows|];
    var ps := Resolve(index', DependencyNames(nodes, rank, sym));
    AppendKeepsGraph(nodes, flows, index, sym);
    LinkAllKeepsGraph(nodes, flows + [Flow(sym, [], [])], index', |flows|, ps);
  }

  // ---------------------------------------------------------------- forward code

  /** `DataFlow::EmitInstructionsImpl`: the declaration, and for a statement nobody reads, the comment and the return. */
  function ForwardStep(nodes: seq<Node>, ghost rank: seq<nat>, flows: seq<Flow>, f: nat): seq<Instruction>
    requires Ranked(nodes, rank) && FlowsWellFormed(nodes, flows) && f < |flows|
  {
    var sym := flows[f].sym;
    [DeclareVariable(Name(nodes, flows[f]), nodes[sym].body)]
    + (if flows[f].children == [] then
         [Comment(BindingNames(nodes, AllStep(nodes, rank, sym, []))), Return(Name(nodes, flows[f]))]
       else [])
  }

  /** The instructions of the first `n` statements, in order. */
  function ForwardCode(nodes: seq<Node>, ghost rank: seq<nat>, flows: seq<Flow>, n: nat): seq<Instruction>
    requires Ranked(nodes, rank) && FlowsWellFormed(nodes, flows) && n <= |flows|
  {
    if n == 0 then [] else ForwardCode(nodes, rank, flows, n - 1) + ForwardStep(nodes, rank, flows, n - 1)
  }

  /** The names of the first `n` statements. */
  function FlowNames(nodes: seq<Node>, flows: seq<Flow>, n: nat): (r: seq<string>)
    requires FlowsWellFormed(nodes, flows) && n <= |flows|
    ensures |r| == n && forall f :: 0 <= f < n ==> r[f] == Name(nodes, flows[f])
  {
    if n == 0 then [] else FlowNames(nodes, flows, n - 1) + [Name(nodes, flows[n - 1])]
  }

  /** The names of the statements among the first `n` that no statement reads. */
  function SinkNames(nodes: seq<Node>, flows: seq<Flow>, n: nat): seq<string>
    requires FlowsWellFormed(nodes, flows) && n <= |flows|
  {
    if n == 0 then []
    else SinkNames(nodes, flows, n - 1) + (if flows[n - 1].children == [] then [Name(nodes, flows[n - 1])] else [])
  }

  /** One statement's instructions declare its name once and return it when nobody reads it. */
  lemma ForwardStepShape(nodes: seq<Node>, rank: seq<nat>, flows: seq<Flow>, f: nat)
    requires Ranked(nodes, rank) && FlowsWellFormed(nodes, flows) && f < |flows|
    ensures Declared(ForwardStep(nodes, rank, flows, f)) == [Name(nodes, flows[f])]
    ensures Returned(ForwardStep(nodes, rank, flows, f)) ==
      if flows[f].children == [] then [Name(nodes, flows[f])] else []
  {
    var step := ForwardStep(nodes, rank, flows, f);
    var d := step[0];
    assert [d][..0] == [];
    assert Declared([d]) == [Name(nodes, flows[f])];
    assert Returned([d]) == [];
    if flows[f].children != [] {
      assert step == [d];
    } else {
      assert step == [d, step[1], step[2]];
      assert [d, step[1], step[2]][..2] == [d, step[1]];
      assert [d, step[1]][..1] == [d];
    }
  }

  /** The forward code declares one variable per statement, in statement order. */
  lemma {:induction false} ForwardDeclaresInOrder(nodes: seq<Node>, rank: seq<nat>, flows: seq<Flow>, n: nat)
    requires Ranked(nodes, rank) && FlowsWellFormed(nodes, flows) && n <= |flows|
    ensures Declared(ForwardCode(nodes, rank, flows, n)) == FlowNames(nodes, flows, n)
  {
    if n > 0 {
      var m: nat := n - 1;
      var code, step := ForwardCode(nodes, rank, flows, m), ForwardStep(nodes, rank, flows, m);
      assert Declared(code + step) == FlowNames(nodes, flows, m) + [Name(nodes, flows[m])] by {
        ForwardDeclaresInOrder(nodes, rank, flows, m);
        ForwardStepShape(nodes, rank, flows, m);
        DeclaredSnoc(code, step, FlowNames(nodes, flows, m), [Name(nodes, flows[m])]);
      }
    }
  }

  /** The forward code returns exactly the statements no statement reads, in statement order. */
  lemma {:induction false} ForwardReturnsSinks(nodes: seq<Node>, rank: seq<nat>, flows: seq<Flow>, n: nat)
    requires Ranked(nodes, rank) && FlowsWellFormed(nodes, flows) && n <= |flows|
    ensures Returned(ForwardCode(nodes, rank, flows, n)) == SinkNames(nodes, flows, n)
  {
    if n > 0 {
      var m: nat := n - 1;
      var code, step := ForwardCode(nodes, rank, flows, m), ForwardStep(nodes, rank, flows, m);
      var tail := if flows[m].children == [] then [Name(nodes, flows[m])] else [];
      assert Returned(code + step) == SinkNames(nodes, flows, m) + tail by {
        ForwardReturnsSinks(nodes, rank, flows, m);
        ForwardStepShape(nodes, rank, flows, m);
        ReturnedSnoc(code, step, SinkNames(nodes, flows, m), tail);
      }
    }
  }

  lemma DeclaredSnoc(code: seq<Instruction>, step: seq<Instruction>, names: seq<string>, tail: seq<string>)
    requires Declared(code) == names && Declared(step) == tail
    ensures Declared(code + step) == names + tail
  {
    DeclaredAppend(code, step);
  }

  lemma ReturnedSnoc(code: seq<Instruction>, step: seq<Instruction>, sinks: seq<string>, tail: seq<string>)
    requires Returned(code) == sinks && Returned(step) == tail
    ensures Returned(code + step) == sinks + tail
  {
    ReturnedAppend(code, step);
  }

  /**
   * Every statement a statement reads is declared before it: the forward
   * code is in dependency order by construction.
   */
  lemma DeclaredBeforeUse(nodes: seq<Node>, rank: seq<nat>, flows: seq<Flow>, index: map<string, nat>, f: nat, k: nat)
    requires Ranked(nodes, rank) && GraphOK(nodes, flows, index)
    requires f < |flows| && k < |flows[f].parents| && flows[f].parents[k] != f
    ensures Name(nodes, flows[flows[f].parents[k]]) in Declared(ForwardCode(nodes, rank, flows, f))
  {
    ForwardDeclaresInOrder(nodes, rank, flows, f);
    var p := flows[f].parents[k];
    assert FlowNames(nodes, flows, f)[p] == Name(nodes, flows[p]);
  }
}
