/**
 * Operator nodes with identity.  The C++ nodes are shared, reference-counted
 * objects whose children can be rebound in place; here they live in an
 * arena and are addressed by integer handles.  `Tree` reads back the
 * expression value a handle denotes.
 */
module Heap {
  import opened Syntax

  type Handle = nat

  datatype Node =
    | NConst(value: real)
    | NExo(name: string)
    | NEndo(name: string, body: Handle)
    | NNeg(arg: Handle)
    | NBin(op: BinOp, left: Handle, right: Handle)
    | NFn(kind: FnKind, arg: Handle)

  /** `Operator::Children()`, in order. */
  function Children(n: Node): seq<Handle> {
    match n
    case NConst(_) => []
    case NExo(_) => []
    case NEndo(_, b) => [b]
    case NNeg(a) => [a]
    case NBin(_, l, r) => [l, r]
    case NFn(_, a) => [a]
  }

  /** What `NameInvariantOfChildren` tells apart: a node without its children. */
  datatype Label =
    | LConst(value: real)
    | LExo(name: string)
    | LEndo(name: string)
    | LNeg
    | LBin(op: BinOp)
    | LFn(kind: FnKind)

  function LabelOf(n: Node): Label {
    match n
    case NConst(v) => LConst(v)
    case NExo(x) => LExo(x)
    case NEndo(x, _) => LEndo(x)
    case NNeg(_) => LNeg
    case NBin(op, _, _) => LBin(op)
    case NFn(k, _) => LFn(k)
  }

  /** The key of the common-subexpression table: label and child identities. */
  datatype Key = Key(tag: Label, children: seq<Handle>)

  function KeyOf(n: Node): Key {
    Key(LabelOf(n), Children(n))
  }

  /** `Operator::Rebind`: the node with the child at position `i` replaced by `c`. */
  function WithChild(n: Node, i: nat, c: Handle): (m: Node)
    requires i < |Children(n)|
    ensures Children(m) == Children(n)[i := c]
    ensures LabelOf(m) == LabelOf(n)
  {
    match n
    case NEndo(x, _) => NEndo(x, c)
    case NNeg(_) => NNeg(c)
    case NBin(op, l, r) => if i == 0 then NBin(op, c, r) else NBin(op, l, c)
    case NFn(k, _) => NFn(k, c)
  }

  /** Every child handle of `n` is below `bound`. */
  predicate HandlesBelow(n: Node, bound: nat) {
    match n
    case NConst(_) => true
    case NExo(_) => true
    case NEndo(_, b) => b < bound
    case NNeg(a) => a < bound
    case NBin(_, l, r) => l < bound && r < bound
    case NFn(_, a) => a < bound
  }

  /** Every child of `n` has a rank below `top`. */
  ghost predicate RanksBelow(rank: seq<nat>, n: Node, top: nat)
    requires HandlesBelow(n, |rank|)
  {
    match n
    case NConst(_) => true
    case NExo(_) => true
    case NEndo(_, b) => rank[b] < top
    case NNeg(a) => rank[a] < top
    case NBin(_, l, r) => rank[l] < top && rank[r] < top
    case NFn(_, a) => rank[a] < top
  }

  /** The children of node `h` exist and have a smaller rank than `h`. */
  ghost predicate NodeRanked(nodes: seq<Node>, rank: seq<nat>, h: nat)
    requires h < |nodes| && |rank| == |nodes|
  {
    HandlesBelow(nodes[h], |nodes|) && RanksBelow(rank, nodes[h], rank[h])
  }

  /** A node is determined by what `NameInvariantOfChildren` sees and by its children. */
  lemma KeyDeterminesNode(a: Node, b: Node)
    requires KeyOf(a) == KeyOf(b)
    ensures a == b
  {
  }

  /** The arena is a DAG, witnessed by a rank that strictly decreases from parent to child. */
  ghost predicate Ranked(nodes: seq<Node>, rank: seq<nat>) {
    |rank| == |nodes| && forall h :: 0 <= h < |nodes| ==> NodeRanked(nodes, rank, h)
  }

  /** Child `i` of node `h` exists and has a smaller rank. */
  lemma ChildRanked(nodes: seq<Node>, rank: seq<nat>, h: Handle, i: nat)
    requires Ranked(nodes, rank) && h < |nodes| && i < |Children(nodes[h])|
    ensures Children(nodes[h])[i] < |nodes| && rank[Children(nodes[h])[i]] < rank[h]
  {
    assert NodeRanked(nodes, rank, h);
  }

  /** The expression value of the node at `h`, with every shared child expanded. */
  function Tree(nodes: seq<Node>, ghost rank: seq<nat>, h: Handle): Expr
    requires Ranked(nodes, rank) && h < |nodes|
    decreases rank[h]
  {
    assert NodeRanked(nodes, rank, h);
    match nodes[h]
    case NConst(v) => Constant(v)
    case NExo(x) => Exo(x)
    case NEndo(x, b) => Endo(x, Tree(nodes, rank, b))
    case NNeg(a) => Neg(Tree(nodes, rank, a))
    case NBin(op, l, r) => Bin(op, Tree(nodes, rank, l), Tree(nodes, rank, r))
    case NFn(k, a) => Fn(k, Tree(nodes, rank, a))
  }

  /** Two handles holding the same node denote the same tree. */
  lemma SameNodeSameTree(nodes: seq<Node>, rank: seq<nat>, a: Handle, b: Handle)
    requires Ranked(nodes, rank) && a < |nodes| && b < |nodes| && nodes[a] == nodes[b]
    ensures Tree(nodes, rank, a) == Tree(nodes, rank, b)
  {
    assert NodeRanked(nodes, rank, a);
    assert NodeRanked(nodes, rank, b);
  }

  /** Appending nodes to the arena changes the value of no existing handle. */
  lemma {:induction false} TreeExtends(n1: seq<Node>, r1: seq<nat>, n2: seq<Node>, r2: seq<nat>, h: Handle)
    requires Ranked(n1, r1) && Ranked(n2, r2)
    requires n1 <= n2 && r1 <= r2 && h < |n1|
    ensures Tree(n2, r2, h) == Tree(n1, r1, h)
    decreases r1[h]
  {
    assert NodeRanked(n1, r1, h);
    assert n2[h] == n1[h] && r2[h] == r1[h];
    match n1[h]
    case NConst(_) =>
    case NExo(_) =>
    case NEndo(_, b) => TreeExtends(n1, r1, n2, r2, b);
    case NNeg(a) => TreeExtends(n1, r1, n2, r2, a);
    case NBin(_, l, r) => TreeExtends(n1, r1, n2, r2, l); TreeExtends(n1, r1, n2, r2, r);
    case NFn(_, a) => TreeExtends(n1, r1, n2, r2, a);
  }

  /** A node rebuilt with the same label over children of the same inlined values has the same inlined value. */
  lemma RebuiltSameInline(n0: seq<Node>, r0: seq<nat>, ptr: Handle, n1: seq<Node>, r1: seq<nat>, cand: Handle)
    requires Ranked(n0, r0) && Ranked(n1, r1) && ptr < |n0| && cand < |n1|
    requires LabelOf(n1[cand]) == LabelOf(n0[ptr])
    requires forall j :: 0 <= j < |Children(n0[ptr])| ==>
      && j < |Children(n1[cand])|
      && Children(n1[cand])[j] < |n1| && Children(n0[ptr])[j] < |n0|
      && Inline(Tree(n1, r1, Children(n1[cand])[j])) == Inline(Tree(n0, r0, Children(n0[ptr])[j]))
    ensures Inline(Tree(n1, r1, cand)) == Inline(Tree(n0, r0, ptr))
  {
    assert NodeRanked(n1, r1, cand);
    assert NodeRanked(n0, r0, ptr);
    var c := n1[cand];
    match n0[ptr]
    case NConst(v) =>
      assert c == NConst(v);
    case NExo(x) =>
      assert c == NExo(x);
    case NEndo(x, b) =>
      assert Children(n0[ptr])[0] == b && Children(c)[0] == c.body;
      assert Tree(n1, r1, cand) == Endo(x, Tree(n1, r1, c.body));
    case NNeg(a) =>
      assert Children(n0[ptr])[0] == a && Children(c)[0] == c.arg;
      assert Tree(n1, r1, cand) == Neg(Tree(n1, r1, c.arg));
    case NFn(k, a) =>
      assert Children(n0[ptr])[0] == a && Children(c)[0] == c.arg;
      assert Tree(n1, r1, cand) == Fn(k, Tree(n1, r1, c.arg));
    case NBin(op, left, right) =>
      assert Children(n0[ptr])[0] == left && Children(c)[0] == c.left;
      assert Children(n0[ptr])[1] == right && Children(c)[1] == c.right;
      BinSameInline(op, Tree(n1, r1, c.left), Tree(n1, r1, c.right), Tree(n0, r0, left), Tree(n0, r0, right));
      assert Tree(n1, r1, cand) == Bin(op, Tree(n1, r1, c.left), Tree(n1, r1, c.right));
  }

  lemma BinSameInline(op: BinOp, l1: Expr, r1: Expr, l0: Expr, r0: Expr)
    requires Inline(l1) == Inline(l0) && Inline(r1) == Inline(r0)
    ensures Inline(Bin(op, l1, r1)) == Inline(Bin(op, l0, r0))
  {
  }

  /** A node rebuilt with the same label over children of the same trees has the same tree. */
  lemma RebuiltSameTree(n0: seq<Node>, r0: seq<nat>, ptr: Handle, n1: seq<Node>, r1: seq<nat>, cand: Handle)
    requires Ranked(n0, r0) && Ranked(n1, r1) && ptr < |n0| && cand < |n1|
    requires LabelOf(n1[cand]) == LabelOf(n0[ptr])
    requires forall j :: 0 <= j < |Children(n0[ptr])| ==>
      && j < |Children(n1[cand])|
      && Children(n1[cand])[j] < |n1| && Children(n0[ptr])[j] < |n0|
      && Tree(n1, r1, Children(n1[cand])[j]) == Tree(n0, r0, Children(n0[ptr])[j])
    ensures Tree(n1, r1, cand) == Tree(n0, r0, ptr)
  {
    assert NodeRanked(n1, r1, cand);
    assert NodeRanked(n0, r0, ptr);
    var c := n1[cand];
    match n0[ptr]
    case NConst(v) =>
      assert c == NConst(v);
    case NExo(x) =>
      assert c == NExo(x);
    case NEndo(x, b) =>
      assert c.NEndo? && Children(n0[ptr])[0] == b && Children(c)[0] == c.body;
    case NNeg(a) =>
      assert c.NNeg? && Children(n0[ptr])[0] == a && Children(c)[0] == c.arg;
    case NFn(k, a) =>
      assert c.NFn? && c.kind == k && Children(n0[ptr])[0] == a && Children(c)[0] == c.arg;
    case NBin(op, left, right) =>
      assert c.NBin? && c.op == op;
      assert Children(n0[ptr])[0] == left && Children(c)[0] == c.left;
      assert Children(n0[ptr])[1] == right && Children(c)[1] == c.right;
  }

  /** A binding-free tree is rooted at a node that is not a binding, over binding-free children. */
  lemma BindingFreeChildren(nodes: seq<Node>, rank: seq<nat>, h: Handle)
    requires Ranked(nodes, rank) && h < |nodes| && BindingFree(Tree(nodes, rank, h))
    ensures !nodes[h].NEndo?
    ensures forall j :: 0 <= j < |Children(nodes[h])| ==>
      Children(nodes[h])[j] < |nodes| && BindingFree(Tree(nodes, rank, Children(nodes[h])[j]))
  {
    assert NodeRanked(nodes, rank, h);
  }

  /** The rank a newly allocated node receives: one more than its highest child. */
  ghost function NewRank(rank: seq<nat>, n: Node): nat
    requires HandlesBelow(n, |rank|)
  {
    match n
    case NConst(_) => 0
    case NExo(_) => 0
    case NEndo(_, b) => rank[b] + 1
    case NNeg(a) => rank[a] + 1
    case NBin(_, l, r) => (if rank[l] < rank[r] then rank[r] else rank[l]) + 1
    case NFn(_, a) => rank[a] + 1
  }

  predicate Distinct<T(==)>(s: seq<T>) {
    forall i, j :: 0 <= i < j < |s| ==> s[i] != s[j]
  }

  /**
   * `EndgenousDependencies` (also `DepthFirstAnySymbolicDependencyNoRecurse`):
   * the bindings reachable from the children of `h` without passing through
   * a binding, appended to `acc` in first-visit order, each once.
   */
  function DirectBindings(nodes: seq<Node>, ghost rank: seq<nat>, h: Handle, acc: seq<Handle>): (r: seq<Handle>)
    requires Ranked(nodes, rank) && h < |nodes|
    ensures acc <= r
    ensures forall k :: |acc| <= k < |r| ==> r[k] < |nodes| && nodes[r[k]].NEndo? && rank[r[k]] < rank[h]
    ensures Distinct(acc) ==> Distinct(r)
    decreases rank[h], 0
  {
    assert NodeRanked(nodes, rank, h);
    match nodes[h]
    case NConst(_) => acc
    case NExo(_) => acc
    case NEndo(_, b) => DirectStep(nodes, rank, b, acc)
    case NNeg(a) => DirectStep(nodes, rank, a, acc)
    case NBin(_, l, r) => DirectStep(nodes, rank, r, DirectStep(nodes, rank, l, acc))
    case NFn(_, a) => DirectStep(nodes, rank, a, acc)
  }

  /** One child of the search above: a binding is collected, anything else searched through. */
  function DirectStep(nodes: seq<Node>, ghost rank: seq<nat>, c: Handle, acc: seq<Handle>): (r: seq<Handle>)
    requires Ranked(nodes, rank) && c < |nodes|
    ensures acc <= r
    ensures forall k :: |acc| <= k < |r| ==> r[k] < |nodes| && nodes[r[k]].NEndo? && rank[r[k]] <= rank[c]
    ensures Distinct(acc) ==> Distinct(r)
    decreases rank[c], 1
  {
    if nodes[c].NEndo? then
      (if c in acc then acc else acc + [c])
    else
      DirectBindings(nodes, rank, c, acc)
  }

  /**
   * `DepthFirstAnySymbolicDependency`: every binding reachable from the
   * children of `h`, searching through bindings too, each appended after
   * the bindings below it and at most once.
   */
  function AllBindings(nodes: seq<Node>, ghost rank: seq<nat>, h: Handle, acc: seq<Handle>): (r: seq<Handle>)
    requires Ranked(nodes, rank) && h < |nodes|
    ensures acc <= r
    ensures forall k :: |acc| <= k < |r| ==> r[k] < |nodes| && nodes[r[k]].NEndo?
    ensures Distinct(acc) ==> Distinct(r)
    decreases rank[h], 0
  {
    assert NodeRanked(nodes, rank, h);
    match nodes[h]
    case NConst(_) => acc
    case NExo(_) => acc
    case NEndo(_, b) => AllStep(nodes, rank, b, acc)
    case NNeg(a) => AllStep(nodes, rank, a, acc)
    case NBin(_, l, r) => AllStep(nodes, rank, r, AllStep(nodes, rank, l, acc))
    case NFn(_, a) => AllStep(nodes, rank, a, acc)
  }

  /** `DepthFirstAnySymbolicDependencyAndThis` when called on the node itself. */
  function AllStep(nodes: seq<Node>, ghost rank: seq<nat>, c: Handle, acc: seq<Handle>): (r: seq<Handle>)
    requires Ranked(nodes, rank) && c < |nodes|
    ensures acc <= r
    ensures forall k :: |acc| <= k < |r| ==> r[k] < |nodes| && nodes[r[k]].NEndo?
    ensures Distinct(acc) ==> Distinct(r)
    decreases rank[c], 1
  {
    if nodes[c].NEndo? && c in acc then acc
    else
      var below := AllBindings(nodes, rank, c, acc);
      if nodes[c].NEndo? && c !in below then below + [c] else below
  }

  /** Appending nodes to the arena changes the bindings found below no existing handle. */
  lemma {:induction false} AllBindingsExtends(n1: seq<Node>, r1: seq<nat>, n2: seq<Node>, r2: seq<nat>, h: Handle, acc: seq<Handle>)
    requires Ranked(n1, r1) && Ranked(n2, r2)
    requires n1 <= n2 && r1 <= r2 && h < |n1|
    ensures AllBindings(n2, r2, h, acc) == AllBindings(n1, r1, h, acc)
    decreases r1[h], 0
  {
    assert NodeRanked(n1, r1, h);
    assert n2[h] == n1[h];
    match n1[h]
    case NConst(_) =>
    case NExo(_) =>
    case NEndo(_, b) => AllStepExtends(n1, r1, n2, r2, b, acc);
    case NNeg(a) => AllStepExtends(n1, r1, n2, r2, a, acc);
    case NBin(_, l, r) =>
      AllStepExtends(n1, r1, n2, r2, l, acc);
      AllStepExtends(n1, r1, n2, r2, r, AllStep(n1, r1, l, acc));
    case NFn(_, a) => AllStepExtends(n1, r1, n2, r2, a, acc);
  }

  lemma {:induction false} AllStepExtends(n1: seq<Node>, r1: seq<nat>, n2: seq<Node>, r2: seq<nat>, c: Handle, acc: seq<Handle>)
    requires Ranked(n1, r1) && Ranked(n2, r2)
    requires n1 <= n2 && r1 <= r2 && c < |n1|
    ensures AllStep(n2, r2, c, acc) == AllStep(n1, r1, c, acc)
    decreases r1[c], 1
  {
    assert n2[c] == n1[c];
    AllBindingsExtends(n1, r1, n2, r2, c, acc);
  }

  /**
   * Binding `d` is met below `h` without passing through another binding:
   * one of the dependencies `DirectBindings` collects for `h`.
   */
  ghost predicate DirectlyBelow(nodes: seq<Node>, rank: seq<nat>, h: Handle, d: Handle)
    requires Ranked(nodes, rank) && h < |nodes|
    decreases rank[h], 0
  {
    assert NodeRanked(nodes, rank, h);
    match nodes[h]
    case NConst(_) => false
    case NExo(_) => false
    case NEndo(_, b) => StepBelow(nodes, rank, b, d)
    case NNeg(a) => StepBelow(nodes, rank, a, d)
    case NBin(_, l, r) => StepBelow(nodes, rank, l, d) || StepBelow(nodes, rank, r, d)
    case NFn(_, a) => StepBelow(nodes, rank, a, d)
  }

  /** Child `c` is the binding `d`, or leads to it through non-bindings. */
  ghost predicate StepBelow(nodes: seq<Node>, rank: seq<nat>, c: Handle, d: Handle)
    requires Ranked(nodes, rank) && c < |nodes|
    decreases rank[c], 1
  {
    if nodes[c].NEndo? then d == c else DirectlyBelow(nodes, rank, c, d)
  }

  /** `DirectBindings` collects exactly the bindings directly below `h`, after `acc`. */
  lemma {:induction false} DirectBindingsHas(nodes: seq<Node>, rank: seq<nat>, h: Handle, acc: seq<Handle>)
    requires Ranked(nodes, rank) && h < |nodes|
    ensures forall d :: d in DirectBindings(nodes, rank, h, acc) <==> d in acc || DirectlyBelow(nodes, rank, h, d)
    decreases rank[h], 0
  {
    assert NodeRanked(nodes, rank, h);
    match nodes[h]
    case NConst(_) =>
    case NExo(_) =>
    case NEndo(_, b) => DirectStepHas(nodes, rank, b, acc);
    case NNeg(a) => DirectStepHas(nodes, rank, a, acc);
    case NBin(_, l, r) =>
      DirectStepHas(nodes, rank, l, acc);
      DirectStepHas(nodes, rank, r, DirectStep(nodes, rank, l, acc));
    case NFn(_, a) => DirectStepHas(nodes, rank, a, acc);
  }

  lemma {:induction false} DirectStepHas(nodes: seq<Node>, rank: seq<nat>, c: Handle, acc: seq<Handle>)
    requires Ranked(nodes, rank) && c < |nodes|
    ensures forall d :: d in DirectStep(nodes, rank, c, acc) <==> d in acc || StepBelow(nodes, rank, c, d)
    decreases rank[c], 1
  {
    if !nodes[c].NEndo? {
      DirectBindingsHas(nodes, rank, c, acc);
    }
  }

  /**
   * Every binding of `s` comes after each binding directly below it, unless
   * that one is already in `seen`: the order in which declarations can be
   * emitted.
   */
  ghost predicate InDependencyOrder(nodes: seq<Node>, rank: seq<nat>, seen: set<Handle>, s: seq<Handle>)
    requires Ranked(nodes, rank)
  {
    forall i :: 0 <= i < |s| ==>
      && s[i] < |nodes|
      && forall d :: DirectlyBelow(nodes, rank, s[i], d) ==> d in seen || d in s[..i]
  }

  /** A sequence of nodes in dependency order, followed by one whose dependencies it holds. */
  lemma OrderSnoc(nodes: seq<Node>, rank: seq<nat>, seen: set<Handle>, s: seq<Handle>, x: Handle)
    requires Ranked(nodes, rank) && InDependencyOrder(nodes, rank, seen, s) && x < |nodes|
    requires forall d :: DirectlyBelow(nodes, rank, x, d) ==> d in seen || d in s
    ensures InDependencyOrder(nodes, rank, seen, s + [x])
  {
    var t := s + [x];
    forall i | 0 <= i < |t|
      ensures t[i] < |nodes|
      ensures forall d :: DirectlyBelow(nodes, rank, t[i], d) ==> d in seen || d in t[..i]
    {
      if i < |s| {
        assert t[i] == s[i] && t[..i] == s[..i];
      } else {
        assert t[i] == x && t[..i] == s;
      }
    }
  }

  lemma PrefixMembers<T>(a: seq<T>, b: seq<T>)
    requires a <= b
    ensures forall x :: x in a ==> x in b
  {
    forall x | x in a
      ensures x in b
    {
      var i :| 0 <= i < |a| && a[i] == x;
      assert b[i] == x;
    }
  }

  /**
   * `AllBindings` emits in dependency order: from an `acc` in dependency
   * order it appends each binding after the bindings directly below it, and
   * it ends holding every binding directly below `h`.
   */
  lemma {:induction false} AllBindingsOrdered(nodes: seq<Node>, rank: seq<nat>, h: Handle, acc: seq<Handle>)
    requires Ranked(nodes, rank) && h < |nodes| && InDependencyOrder(nodes, rank, {}, acc)
    ensures InDependencyOrder(nodes, rank, {}, AllBindings(nodes, rank, h, acc))
    ensures forall d :: DirectlyBelow(nodes, rank, h, d) ==> d in AllBindings(nodes, rank, h, acc)
    decreases rank[h], 0
  {
    assert NodeRanked(nodes, rank, h);
    match nodes[h]
    case NConst(_) =>
    case NExo(_) =>
    case NEndo(_, b) => AllStepOrdered(nodes, rank, b, acc);
    case NNeg(a) => AllStepOrdered(nodes, rank, a, acc);
    case NBin(_, l, r) =>
      var a1 := AllStep(nodes, rank, l, acc);
      AllStepOrdered(nodes, rank, l, acc);
      AllStepOrdered(nodes, rank, r, a1);
      PrefixMembers(a1, AllStep(nodes, rank, r, a1));
    case NFn(_, a) => AllStepOrdered(nodes, rank, a, acc);
  }

  lemma {:induction false} AllStepOrdered(nodes: seq<Node>, rank: seq<nat>, c: Handle, acc: seq<Handle>)
    requires Ranked(nodes, rank) && c < |nodes| && InDependencyOrder(nodes, rank, {}, acc)
    ensures InDependencyOrder(nodes, rank, {}, AllStep(nodes, rank, c, acc))
    ensures forall d :: StepBelow(nodes, rank, c, d) ==> d in AllStep(nodes, rank, c, acc)
    decreases rank[c], 1
  {
    if !(nodes[c].NEndo? && c in acc) {
      var below := AllBindings(nodes, rank, c, acc);
      AllBindingsOrdered(nodes, rank, c, acc);
      if nodes[c].NEndo? && c !in below {
        OrderSnoc(nodes, rank, {}, below, c);
        PrefixMembers(below, below + [c]);
      }
    }
  }

  /** Appending nodes to the arena changes no dependency between existing nodes. */
  lemma {:induction false} DirectlyBelowExtends(n1: seq<Node>, r1: seq<nat>, n2: seq<Node>, r2: seq<nat>, h: Handle, d: Handle)
    requires Ranked(n1, r1) && Ranked(n2, r2)
    requires n1 <= n2 && r1 <= r2 && h < |n1|
    ensures DirectlyBelow(n2, r2, h, d) == DirectlyBelow(n1, r1, h, d)
    decreases r1[h], 0
  {
    assert NodeRanked(n1, r1, h);
    assert n2[h] == n1[h];
    match n1[h]
    case NConst(_) =>
    case NExo(_) =>
    case NEndo(_, b) => StepBelowExtends(n1, r1, n2, r2, b, d);
    case NNeg(a) => StepBelowExtends(n1, r1, n2, r2, a, d);
    case NBin(_, l, r) =>
      StepBelowExtends(n1, r1, n2, r2, l, d);
      StepBelowExtends(n1, r1, n2, r2, r, d);
    case NFn(_, a) => StepBelowExtends(n1, r1, n2, r2, a, d);
  }

  lemma {:induction false} StepBelowExtends(n1: seq<Node>, r1: seq<nat>, n2: seq<Node>, r2: seq<nat>, c: Handle, d: Handle)
    requires Ranked(n1, r1) && Ranked(n2, r2)
    requires n1 <= n2 && r1 <= r2 && c < |n1|
    ensures StepBelow(n2, r2, c, d) == StepBelow(n1, r1, c, d)
    decreases r1[c], 1
  {
    assert n2[c] == n1[c];
    if !n1[c].NEndo? {
      DirectlyBelowExtends(n1, r1, n2, r2, c, d);
    }
  }

  /** Dependency order survives the arena growing. */
  lemma OrderExtends(n1: seq<Node>, r1: seq<nat>, n2: seq<Node>, r2: seq<nat>, seen: set<Handle>, s: seq<Handle>)
    requires Ranked(n1, r1) && Ranked(n2, r2) && n1 <= n2 && r1 <= r2
    requires InDependencyOrder(n1, r1, seen, s)
    ensures InDependencyOrder(n2, r2, seen, s)
  {
    forall i, d | 0 <= i < |s| && DirectlyBelow(n2, r2, s[i], d)
      ensures d in seen || d in s[..i]
    {
      DirectlyBelowExtends(n1, r1, n2, r2, s[i], d);
    }
  }

  /** Two runs in dependency order, the second after the first and `seen`, make one. */
  lemma OrderAppend(nodes: seq<Node>, rank: seq<nat>, seen: set<Handle>, a: seq<Handle>, b: seq<Handle>)
    requires Ranked(nodes, rank) && InDependencyOrder(nodes, rank, seen, a)
    requires InDependencyOrder(nodes, rank, seen + (set x | x in a), b)
    ensures InDependencyOrder(nodes, rank, seen, a + b)
  {
    var t := a + b;
    forall i | 0 <= i < |t|
      ensures t[i] < |nodes|
      ensures forall d :: DirectlyBelow(nodes, rank, t[i], d) ==> d in seen || d in t[..i]
    {
      if i < |a| {
        assert t[i] == a[i] && t[..i] == a[..i];
      } else {
        var j := i - |a|;
        assert t[i] == b[j] && t[..i] == a + b[..j];
      }
    }
  }

  /** The shared node store. */
  class Arena {
    var nodes: seq<Node>
    ghost var rank: seq<nat>

    ghost predicate Valid()
      reads this
    {
      Ranked(nodes, rank)
    }

    ghost function TreeAt(h: Handle): Expr
      reads this
      requires Valid() && h < |nodes|
    {
      Tree(nodes, rank, h)
    }

    constructor ()
      ensures Valid() && nodes == []
    {
      nodes := [];
      rank := [];
    }

    /** `std::make_shared` of a node whose children already exist. */
    method Alloc(n: Node) returns (h: Handle)
      requires Valid()
      requires HandlesBelow(n, |nodes|)
      modifies this
      ensures Valid()
      ensures nodes == old(nodes) + [n] && h == |old(nodes)|
      ensures rank == old(rank) + [NewRank(old(rank), n)]
      ensures forall g :: 0 <= g < |old(nodes)| ==> TreeAt(g) == old(TreeAt(g))
    {
      ghost var n0, r0 := nodes, rank;
      h := |nodes|;
      nodes := nodes + [n];
      rank := rank + [NewRank(rank, n)];
      forall g | 0 <= g < |nodes|
        ensures NodeRanked(nodes, rank, g)
      {
        if g < h {
          assert NodeRanked(n0, r0, g);
        }
      }
      forall g | 0 <= g < |n0|
        ensures TreeAt(g) == Tree(n0, r0, g)
      {
        TreeExtends(n0, r0, nodes, rank, g);
      }
    }

    /** `Operator::Rebind(i, c)` on the node at `h`; `c` must sit lower in the DAG. */
    method Rebind(h: Handle, i: nat, c: Handle)
      requires Valid() && h < |nodes| && i < |Children(nodes[h])|
      requires c < |nodes| && rank[c] < rank[h]
      modifies this
      ensures Valid() && rank == old(rank)
      ensures nodes == old(nodes)[h := WithChild(old(nodes)[h], i, c)]
    {
      ghost var n0 := nodes;
      nodes := nodes[h := WithChild(nodes[h], i, c)];
      forall g | 0 <= g < |nodes|
        ensures NodeRanked(nodes, rank, g)
      {
        assert NodeRanked(n0, rank, g);
      }
    }

    /** Builds fresh nodes for the expression `e`, children first. */
    method Load(e: Expr) returns (h: Handle)
      requires Valid()
      modifies this
      ensures Valid() && old(nodes) <= nodes && old(rank) <= rank
      ensures h < |nodes| && TreeAt(h) == e
      ensures forall g :: 0 <= g < |old(nodes)| ==> TreeAt(g) == old(TreeAt(g))
      decreases e
    {
      match e
      case Constant(v) =>
        h := Alloc(NConst(v));
      case Exo(x) =>
        h := Alloc(NExo(x));
      case Endo(x, b) =>
        var hb := Load(b);
        h := Alloc(NEndo(x, hb));
      case Neg(a) =>
        var ha := Load(a);
        h := Alloc(NNeg(ha));
      case Fn(k, a) =>
        var ha := Load(a);
        h := Alloc(NFn(k, ha));
      case Bin(op, l, r) =>
        var hl := Load(l);
        var hr := Load(r);
        h := Alloc(NBin(op, hl, hr));
    }
  }
}
