/**
 * The two binding-removal passes of driver.cpp: `RemoveEndgenousFolder`
 * rewrites the children of shared nodes in place, `RemoveEndo` clones.
 * Both are proved to compute `Inline` of what the node denoted.
 */
module Passes {
  import opened Syntax
  import opened Heap
  import opened Transform

  /**
   * What an in-place inlining pass guarantees about every node that existed
   * before it ran: its inlined value is unchanged, and a node free of
   * bindings is not changed at all.
   */
  ghost predicate InlinePreserved(n1: seq<Node>, r1: seq<nat>, n2: seq<Node>, r2: seq<nat>)
    requires Ranked(n1, r1) && Ranked(n2, r2) && |n1| <= |n2|
  {
    forall g :: 0 <= g < |n1| ==>
      Inline(Tree(n2, r2, g)) == Inline(Tree(n1, r1, g)) &&
      (BindingFree(Tree(n1, r1, g)) ==> Tree(n2, r2, g) == Tree(n1, r1, g))
  }

  lemma InlinePreservedTrans(n1: seq<Node>, r1: seq<nat>, n2: seq<Node>, r2: seq<nat>,
                             n3: seq<Node>, r3: seq<nat>)
    requires Ranked(n1, r1) && Ranked(n2, r2) && Ranked(n3, r3) && |n1| <= |n2| <= |n3|
    requires InlinePreserved(n1, r1, n2, r2) && InlinePreserved(n2, r2, n3, r3)
    ensures InlinePreserved(n1, r1, n3, r3)
  {
  }

  /**
   * Rebinding child `i` of node `h` to a node holding the inlined value of
   * that child keeps the inlined value of every node, and changes no node
   * that was free of bindings.
   */
  lemma {:induction false} RebindKeepsInline(nodes: seq<Node>, rank: seq<nat>, h: Handle, i: nat, c: Handle, g: Handle)
    requires Ranked(nodes, rank) && h < |nodes| && i < |Children(nodes[h])|
    requires c < |nodes| && rank[c] < rank[h] && Children(nodes[h])[i] < |nodes|
    requires Tree(nodes, rank, c) == Inline(Tree(nodes, rank, Children(nodes[h])[i]))
    requires g < |nodes|
    ensures Ranked(nodes[h := WithChild(nodes[h], i, c)], rank)
    ensures Inline(Tree(nodes[h := WithChild(nodes[h], i, c)], rank, g)) == Inline(Tree(nodes, rank, g))
    ensures BindingFree(Tree(nodes, rank, g)) ==> Tree(nodes[h := WithChild(nodes[h], i, c)], rank, g) == Tree(nodes, rank, g)
    decreases rank[g]
  {
    var n2 := nodes[h := WithChild(nodes[h], i, c)];
    RebindRanked(nodes, rank, h, i, c);
    var ci := Children(nodes[h])[i];
    ChildRanked(nodes, rank, h, i);
    forall j | 0 <= j < |Children(nodes[g])|
      ensures Children(nodes[g])[j] < |nodes|
      ensures Inline(Tree(n2, rank, Children(nodes[g])[j])) == Inline(Tree(nodes, rank, Children(nodes[g])[j]))
      ensures BindingFree(Tree(nodes, rank, Children(nodes[g])[j])) ==>
        Tree(n2, rank, Children(nodes[g])[j]) == Tree(nodes, rank, Children(nodes[g])[j])
    {
      ChildRanked(nodes, rank, g, j);
      RebindKeepsInline(nodes, rank, h, i, c, Children(nodes[g])[j]);
    }
    if g == h {
      RebindKeepsInline(nodes, rank, h, i, c, c);
      InlineIdempotent(Tree(nodes, rank, ci));
      RebindAtRoot(nodes, rank, h, i, c);
    } else {
      assert n2[g] == nodes[g];
      RebuiltSameInline(nodes, rank, g, n2, rank, g);
      if BindingFree(Tree(nodes, rank, g)) {
        BindingFreeChildren(nodes, rank, g);
        RebuiltSameTree(nodes, rank, g, n2, rank, g);
      }
    }
  }

  /** The rebound node itself, once its children and the new child are known to keep their values. */
  lemma RebindAtRoot(nodes: seq<Node>, rank: seq<nat>, h: Handle, i: nat, c: Handle)
    requires Ranked(nodes, rank) && h < |nodes| && i < |Children(nodes[h])|
    requires c < |nodes| && rank[c] < rank[h] && Children(nodes[h])[i] < |nodes|
    requires Tree(nodes, rank, c) == Inline(Tree(nodes, rank, Children(nodes[h])[i]))
    requires Ranked(nodes[h := WithChild(nodes[h], i, c)], rank)
    requires forall j :: 0 <= j < |Children(nodes[h])| ==>
      && Children(nodes[h])[j] < |nodes|
      && Inline(Tree(nodes[h := WithChild(nodes[h], i, c)], rank, Children(nodes[h])[j])) ==
         Inline(Tree(nodes, rank, Children(nodes[h])[j]))
      && (BindingFree(Tree(nodes, rank, Children(nodes[h])[j])) ==>
          Tree(nodes[h := WithChild(nodes[h], i, c)], rank, Children(nodes[h])[j]) == Tree(nodes, rank, Children(nodes[h])[j]))
    requires Inline(Tree(nodes[h := WithChild(nodes[h], i, c)], rank, c)) == Inline(Tree(nodes, rank, c))
    requires BindingFree(Tree(nodes, rank, c)) ==> Tree(nodes[h := WithChild(nodes[h], i, c)], rank, c) == Tree(nodes, rank, c)
    requires Inline(Inline(Tree(nodes, rank, Children(nodes[h])[i]))) == Inline(Tree(nodes, rank, Children(nodes[h])[i]))
    ensures Inline(Tree(nodes[h := WithChild(nodes[h], i, c)], rank, h)) == Inline(Tree(nodes, rank, h))
    ensures BindingFree(Tree(nodes, rank, h)) ==> Tree(nodes[h := WithChild(nodes[h], i, c)], rank, h) == Tree(nodes, rank, h)
  {
    var n2 := nodes[h := WithChild(nodes[h], i, c)];
    var ci := Children(nodes[h])[i];
    assert Children(n2[h]) == Children(nodes[h])[i := c];
    RebuiltSameInline(nodes, rank, h, n2, rank, h);
    if BindingFree(Tree(nodes, rank, h)) {
      BindingFreeChildren(nodes, rank, h);
      InlineFixesBindingFree(Tree(nodes, rank, ci));
      RebuiltSameTree(nodes, rank, h, n2, rank, h);
    }
  }

  /**
   * A node that is not a binding, whose children now hold the inlined
   * values of its former children, holds the inlined value of the node.
   */
  lemma RebuiltInline(n0: seq<Node>, n1: seq<Node>, rank: seq<nat>, root: Handle, done: seq<Handle>)
    requires Ranked(n0, rank) && Ranked(n1, rank) && root < |n0| == |n1|
    requires !n0[root].NEndo? && LabelOf(n1[root]) == LabelOf(n0[root])
    requires Children(n1[root]) == done && |done| == |Children(n0[root])|
    requires forall j :: 0 <= j < |done| ==>
      done[j] < |n1| && Children(n0[root])[j] < |n0| &&
      Tree(n1, rank, done[j]) == Inline(Tree(n0, rank, Children(n0[root])[j]))
    ensures Tree(n1, rank, root) == Inline(Tree(n0, rank, root))
  {
    match n0[root]
    case NConst(v) =>
      KeyDeterminesNode(n1[root], n0[root]);
    case NExo(x) =>
      KeyDeterminesNode(n1[root], n0[root]);
    case NNeg(a) =>
      KeyDeterminesNode(n1[root], NNeg(done[0]));
    case NFn(k, a) =>
      KeyDeterminesNode(n1[root], NFn(k, done[0]));
    case NBin(op, l, r) =>
      KeyDeterminesNode(n1[root], NBin(op, done[0], done[1]));
  }

  /**
   * `RemoveEndgenousFolder::Fold`: a binding answers with the pass applied
   * to what it wraps; any other non-terminal has each child replaced, in
   * place, by the pass applied to it.  The answer denotes the inlined value
   * of `root`; no node is allocated, and every node keeps its inlined
   * value (one already free of bindings is left untouched).
   */
  method RemoveEndgenousFolder(arena: Arena, root: Handle) returns (r: Handle)
    requires arena.Valid() && root < |arena.nodes|
    modifies arena
    ensures arena.Valid() && arena.rank == old(arena.rank) && |arena.nodes| == |old(arena.nodes)|
    ensures HighUnchanged(old(arena.nodes), old(arena.rank), arena.nodes, old(arena.rank)[root])
    ensures InlinePreserved(old(arena.nodes), old(arena.rank), arena.nodes, arena.rank)
    ensures r < |arena.nodes| && arena.rank[r] <= arena.rank[root]
    ensures arena.TreeAt(r) == Inline(old(arena.TreeAt(root)))
    decreases arena.rank[root], 2
  {
    assert NodeRanked(arena.nodes, arena.rank, root);
    if arena.nodes[root].NEndo? {
      r := RemoveEndgenousFolder(arena, arena.nodes[root].body);
    } else {
      r := RemoveInChildren(arena, root);
    }
  }

  /** The non-binding branch of `RemoveEndgenousFolder::Fold`: the loop over the children. */
  method RemoveInChildren(arena: Arena, root: Handle) returns (r: Handle)
    requires arena.Valid() && root < |arena.nodes| && !arena.nodes[root].NEndo?
    modifies arena
    ensures arena.Valid() && arena.rank == old(arena.rank) && |arena.nodes| == |old(arena.nodes)|
    ensures HighUnchanged(old(arena.nodes), old(arena.rank), arena.nodes, old(arena.rank)[root])
    ensures InlinePreserved(old(arena.nodes), old(arena.rank), arena.nodes, arena.rank)
    ensures r == root
    ensures arena.TreeAt(r) == Inline(old(arena.TreeAt(root)))
    decreases arena.rank[root], 1
  {
    ghost var n0, r0 := arena.nodes, arena.rank;
    forall j | 0 <= j < |Children(n0[root])|
      ensures Children(n0[root])[j] < |n0|
    {
      ChildRanked(n0, r0, root, j);
    }
    var idx := 0;
    ghost var done: seq<Handle> := [];
    while idx < |Children(arena.nodes[root])|
      invariant arena.Valid() && arena.rank == r0 && |arena.nodes| == |n0|
      invariant 0 <= idx <= |Children(n0[root])| && |done| == idx
      invariant LabelOf(arena.nodes[root]) == LabelOf(n0[root])
      invariant Children(arena.nodes[root]) == done + Children(n0[root])[idx..]
      invariant forall j :: 0 <= j < idx ==>
        && done[j] < |n0|
        && arena.TreeAt(done[j]) == Inline(Tree(n0, r0, Children(n0[root])[j]))
      invariant InlinePreserved(n0, r0, arena.nodes, arena.rank)
      invariant HighUnchanged(n0, r0, arena.nodes, r0[root])
      decreases |Children(n0[root])| - idx
    {
      ghost var n1 := arena.nodes;
      var folded := RemoveInChild(arena, root, idx);
      InlinePreservedTrans(n0, r0, n1, r0, arena.nodes, r0);
      InlineLoopStep(n0, n1, arena.nodes, r0, root, idx, done, folded);
      done := done + [folded];
      idx := idx + 1;
    }
    RebuiltInline(n0, arena.nodes, r0, root, done);
    r := root;
  }

  /** Replacing the element after a prefix moves it into the prefix. */
  lemma ReplaceNext<T>(done: seq<T>, rest: seq<T>, x: T)
    requires |rest| > 0
    ensures (done + rest)[|done| := x] == (done + [x]) + rest[1..]
  {
  }

  /** The invariant of the loop of `RemoveInChildren` survives one turn. */
  lemma InlineLoopStep(n0: seq<Node>, n1: seq<Node>, n2: seq<Node>, rank: seq<nat>, root: Handle, idx: nat, done: seq<Handle>, folded: Handle)
    requires Ranked(n0, rank) && Ranked(n1, rank) && Ranked(n2, rank) && root < |n0| == |n1| == |n2|
    requires idx < |Children(n0[root])| == |Children(n1[root])| && |done| == idx && folded < |n2|
    requires forall j :: 0 <= j < |Children(n0[root])| ==> Children(n0[root])[j] < |n0|
    requires Children(n1[root]) == done + Children(n0[root])[idx..]
    requires n2[root] == WithChild(n1[root], idx, folded)
    requires forall j :: 0 <= j < idx ==>
      done[j] < |n0| && Tree(n1, rank, done[j]) == Inline(Tree(n0, rank, Children(n0[root])[j]))
    requires InlinePreserved(n0, rank, n1, rank) && InlinePreserved(n1, rank, n2, rank)
    requires Tree(n2, rank, folded) == Inline(Tree(n1, rank, Children(n1[root])[idx]))
    ensures Children(n2[root]) == (done + [folded]) + Children(n0[root])[idx + 1..]
    ensures forall j :: 0 <= j < idx + 1 ==>
      (done + [folded])[j] < |n0| &&
      Tree(n2, rank, (done + [folded])[j]) == Inline(Tree(n0, rank, Children(n0[root])[j]))
  {
    assert Children(n1[root])[idx] == Children(n0[root])[idx];
    ReplaceNext(done, Children(n0[root])[idx..], folded);
    assert Children(n0[root])[idx..][1..] == Children(n0[root])[idx + 1..];
    forall j | 0 <= j < idx + 1
      ensures (done + [folded])[j] < |n0|
      ensures Tree(n2, rank, (done + [folded])[j]) == Inline(Tree(n0, rank, Children(n0[root])[j]))
    {
      if j < idx {
        assert (done + [folded])[j] == done[j];
        assert BindingFree(Tree(n1, rank, done[j]));
      }
    }
  }

  /** One turn of that loop: the pass applied to child `idx`, which is then rebound to the answer. */
  method RemoveInChild(arena: Arena, root: Handle, idx: nat) returns (folded: Handle)
    requires arena.Valid() && root < |arena.nodes| && idx < |Children(arena.nodes[root])|
    modifies arena
    ensures arena.Valid() && arena.rank == old(arena.rank) && |arena.nodes| == |old(arena.nodes)|
    ensures HighUnchanged(old(arena.nodes), old(arena.rank), arena.nodes, old(arena.rank)[root])
    ensures InlinePreserved(old(arena.nodes), old(arena.rank), arena.nodes, arena.rank)
    ensures folded < |arena.nodes| && arena.nodes[root] == WithChild(old(arena.nodes)[root], idx, folded)
    ensures Children(old(arena.nodes)[root])[idx] < |old(arena.nodes)|
    ensures arena.TreeAt(folded) == Inline(old(arena.TreeAt(Children(arena.nodes[root])[idx])))
    decreases arena.rank[root], 0
  {
    ghost var n1, r0 := arena.nodes, arena.rank;
    ChildRanked(n1, r0, root, idx);
    var child := Children(arena.nodes[root])[idx];
    folded := RemoveEndgenousFolder(arena, child);
    ghost var n2 := arena.nodes;
    assert n2[root] == n1[root];
    arena.Rebind(root, idx, folded);
    forall g | 0 <= g < |n2|
      ensures Inline(arena.TreeAt(g)) == Inline(Tree(n2, r0, g))
      ensures BindingFree(Tree(n2, r0, g)) ==> arena.TreeAt(g) == Tree(n2, r0, g)
    {
      RebindKeepsInline(n2, r0, root, idx, folded, g);
    }
    InlinePreservedTrans(n1, r0, n2, r0, arena.nodes, r0);
  }

  /** The expression with every binding strictly below its top node inlined. */
  function InlineBelow(e: Expr): (r: Expr)
    ensures r.Endo? <==> e.Endo?
    ensures Inline(e) == if e.Endo? then r.body else r
  {
    match e
    case Constant(_) => e
    case Exo(_) => e
    case Endo(x, b) => Endo(x, Inline(b))
    case Neg(a) => Neg(Inline(a))
    case Bin(op, l, r) => Bin(op, Inline(l), Inline(r))
    case Fn(k, a) => Fn(k, Inline(a))
  }

  /**
   * `RemoveEndo::Apply`: a copy of the node whose children are the pass
   * applied to the original children; a copy that is a binding answers with
   * what it wraps.  Only fresh nodes are made, and the answer denotes the
   * inlined value of `ptr`.
   */
  method RemoveEndo(arena: Arena, ptr: Handle) returns (r: Handle)
    requires arena.Valid() && ptr < |arena.nodes|
    modifies arena
    ensures arena.Valid() && old(arena.nodes) <= arena.nodes && old(arena.rank) <= arena.rank
    ensures forall g :: 0 <= g < |old(arena.nodes)| ==> arena.TreeAt(g) == old(arena.TreeAt(g))
    ensures r < |arena.nodes| && arena.TreeAt(r) == Inline(old(arena.TreeAt(ptr)))
    decreases arena.rank[ptr], 1
  {
    var candidate := RemoveEndoClone(arena, ptr);
    assert NodeRanked(arena.nodes, arena.rank, candidate);
    if arena.nodes[candidate].NEndo? {
      r := arena.nodes[candidate].body;
    } else {
      r := candidate;
    }
  }

  /** `Operator::Clone` with `RemoveEndo` as the transform: a fresh node over the transformed children. */
  method RemoveEndoClone(arena: Arena, ptr: Handle) returns (candidate: Handle)
    requires arena.Valid() && ptr < |arena.nodes|
    modifies arena
    ensures arena.Valid() && old(arena.nodes) <= arena.nodes && old(arena.rank) <= arena.rank
    ensures forall g :: 0 <= g < |old(arena.nodes)| ==> arena.TreeAt(g) == old(arena.TreeAt(g))
    ensures candidate < |arena.nodes| && arena.TreeAt(candidate) == InlineBelow(old(arena.TreeAt(ptr)))
    decreases arena.rank[ptr], 0
  {
    ghost var n0, r0 := arena.nodes, arena.rank;
    assert NodeRanked(arena.nodes, arena.rank, ptr);
    match arena.nodes[ptr] {
      case NConst(v) =>
        candidate := arena.Alloc(NConst(v));
      case NExo(x) =>
        candidate := arena.Alloc(NExo(x));
      case NEndo(x, b) =>
        var b' := RemoveEndo(arena, b);
        candidate := arena.Alloc(NEndo(x, b'));
      case NNeg(a) =>
        var a' := RemoveEndo(arena, a);
        candidate := arena.Alloc(NNeg(a'));
      case NFn(k, a) =>
        var a' := RemoveEndo(arena, a);
        candidate := arena.Alloc(NFn(k, a'));
      case NBin(op, left, right) =>
        var l' := RemoveEndo(arena, left);
        var r' := RemoveEndo(arena, right);
        candidate := arena.Alloc(NBin(op, l', r'));
    }
  }
}
