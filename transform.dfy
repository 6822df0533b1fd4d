/**
 * `Transform::FoldZero` on shared nodes: binary and unary nodes are rebuilt
 * (fresh nodes), every other non-terminal has its children folded and
 * rebound in place.  The pass is proved against the value-level `Fold`.
 */
module Transform {
  import opened Syntax
  import opened Folding
  import opened Heap

  /**
   * What an in-place folding pass guarantees about every node that existed
   * before it ran: its fold is unchanged, and a node already in folded form
   * keeps the same tree.
   */
  ghost predicate FoldPreserved(n1: seq<Node>, r1: seq<nat>, n2: seq<Node>, r2: seq<nat>, pow: PowFn)
    requires Ranked(n1, r1) && Ranked(n2, r2) && |n1| <= |n2|
  {
    forall g :: 0 <= g < |n1| ==>
      Fold(Tree(n2, r2, g), pow) == Fold(Tree(n1, r1, g), pow) &&
      (Folded(Tree(n1, r1, g)) ==> Tree(n2, r2, g) == Tree(n1, r1, g))
  }

  lemma FoldPreservedTrans(n1: seq<Node>, r1: seq<nat>, n2: seq<Node>, r2: seq<nat>,
                           n3: seq<Node>, r3: seq<nat>, pow: PowFn)
    requires Ranked(n1, r1) && Ranked(n2, r2) && Ranked(n3, r3) && |n1| <= |n2| <= |n3|
    requires FoldPreserved(n1, r1, n2, r2, pow) && FoldPreserved(n2, r2, n3, r3, pow)
    ensures FoldPreserved(n1, r1, n3, r3, pow)
  {
  }

  /** Appending nodes keeps every old tree, hence its fold. */
  lemma ExtendFoldPreserved(n1: seq<Node>, r1: seq<nat>, n2: seq<Node>, r2: seq<nat>, pow: PowFn)
    requires Ranked(n1, r1) && Ranked(n2, r2) && n1 <= n2 && r1 <= r2
    ensures FoldPreserved(n1, r1, n2, r2, pow)
  {
    forall g | 0 <= g < |n1|
      ensures Tree(n2, r2, g) == Tree(n1, r1, g)
    {
      TreeExtends(n1, r1, n2, r2, g);
    }
  }

  /**
   * Rebinding child `i` of node `h` to a node holding the fold of that
   * child keeps the fold of every node, and changes no node that was
   * already folded.
   */
  lemma {:induction false} RebindKeepsFold(nodes: seq<Node>, rank: seq<nat>, h: Handle, i: nat, c: Handle, pow: PowFn, g: Handle)
    requires Ranked(nodes, rank) && h < |nodes| && i < |Children(nodes[h])|
    requires c < |nodes| && rank[c] < rank[h] && Children(nodes[h])[i] < |nodes|
    requires Fold(Tree(nodes, rank, Children(nodes[h])[i]), pow) == Ok(Tree(nodes, rank, c))
    requires g < |nodes|
    ensures Ranked(nodes[h := WithChild(nodes[h], i, c)], rank)
    ensures Fold(Tree(nodes[h := WithChild(nodes[h], i, c)], rank, g), pow) == Fold(Tree(nodes, rank, g), pow)
    ensures Folded(Tree(nodes, rank, g)) ==> Tree(nodes[h := WithChild(nodes[h], i, c)], rank, g) == Tree(nodes, rank, g)
    decreases rank[g]
  {
    var n2 := nodes[h := WithChild(nodes[h], i, c)];
    RebindRanked(nodes, rank, h, i, c);
    assert NodeRanked(nodes, rank, g);
    assert NodeRanked(n2, rank, g);
    var ci := Children(nodes[h])[i];
    FoldNormal(Tree(nodes, rank, ci), pow);
    FoldFixesFolded(Tree(nodes, rank, c), pow);
    if Folded(Tree(nodes, rank, ci)) {
      FoldFixesFolded(Tree(nodes, rank, ci), pow);
    }
    if g == h {
      RebindKeepsFold(nodes, rank, h, i, c, pow, c);
      assert Tree(n2, rank, c) == Tree(nodes, rank, c);
    }
    match nodes[g]
    case NConst(_) =>
    case NExo(_) =>
    case NEndo(_, b) =>
      RebindKeepsFold(nodes, rank, h, i, c, pow, b);
    case NNeg(a) =>
      RebindKeepsFold(nodes, rank, h, i, c, pow, a);
    case NFn(_, a) =>
      RebindKeepsFold(nodes, rank, h, i, c, pow, a);
    case NBin(_, l, r) =>
      RebindKeepsFold(nodes, rank, h, i, c, pow, l);
      RebindKeepsFold(nodes, rank, h, i, c, pow, r);
  }

  lemma RebindRanked(nodes: seq<Node>, rank: seq<nat>, h: Handle, i: nat, c: Handle)
    requires Ranked(nodes, rank) && h < |nodes| && i < |Children(nodes[h])|
    requires c < |nodes| && rank[c] < rank[h]
    ensures Ranked(nodes[h := WithChild(nodes[h], i, c)], rank)
  {
    var n2 := nodes[h := WithChild(nodes[h], i, c)];
    forall g | 0 <= g < |n2|
      ensures NodeRanked(n2, rank, g)
    {
      assert NodeRanked(nodes, rank, g);
    }
  }

  /** Nodes ranked above `top` are exactly as they were. */
  ghost predicate HighUnchanged(n1: seq<Node>, r1: seq<nat>, n2: seq<Node>, top: nat)
    requires |r1| == |n1|
  {
    |n1| <= |n2| && forall g :: 0 <= g < |n1| && r1[g] > top ==> n2[g] == n1[g]
  }

  function Max(a: nat, b: nat): nat {
    if a < b then b else a
  }

  /** `ConstantDescription::IsZero` on a node. */
  predicate ZeroNode(n: Node) {
    n == NConst(0.0)
  }

  /** `ConstantDescription::IsOne` on a node. */
  predicate OneNode(n: Node) {
    n == NConst(1.0)
  }

  /**
   * The identities of one binary node on its folded operand nodes `lf` and
   * `rf`: answers with an operand, or with a freshly made constant, negation
   * or binary node, or raises the division-by-zero error.
   */
  method FoldBinaryNode(arena: Arena, op: BinOp, lf: Handle, rf: Handle, pow: PowFn) returns (res: Result<Handle>)
    requires arena.Valid() && lf < |arena.nodes| && rf < |arena.nodes|
    modifies arena
    ensures arena.Valid() && old(arena.nodes) <= arena.nodes && old(arena.rank) <= arena.rank
    ensures res.Ok? <==> FoldBinary(op, old(arena.TreeAt(lf)), old(arena.TreeAt(rf)), pow).Ok?
    ensures res.Ok? ==>
      && res.value < |arena.nodes|
      && arena.TreeAt(res.value) == FoldBinary(op, old(arena.TreeAt(lf)), old(arena.TreeAt(rf)), pow).value
      && arena.rank[res.value] <= Max(arena.rank[lf], arena.rank[rf]) + 1
  {
    var ln, rn := arena.nodes[lf], arena.nodes[rf];
    ghost var L, R := arena.TreeAt(lf), arena.TreeAt(rf);
    assert L.Constant? <==> ln.NConst?;
    assert L.Constant? ==> L.value == ln.value;
    assert R.Constant? <==> rn.NConst?;
    assert R.Constant? ==> R.value == rn.value;
    match op {
      case Add =>
        if ln.NConst? && rn.NConst? {
          var h := arena.Alloc(NConst(0.0 + ln.value + rn.value));
          return Ok(h);
        }
        if ZeroNode(ln) {
          return Ok(rf);
        }
        if ZeroNode(rn) {
          return Ok(lf);
        }
      case Sub =>
        if ln.NConst? && rn.NConst? {
          var h := arena.Alloc(NConst(0.0 + ln.value - rn.value));
          return Ok(h);
        }
        if ZeroNode(rn) {
          return Ok(lf);
        }
        if ZeroNode(ln) {
          var h := arena.Alloc(NNeg(rf));
          return Ok(h);
        }
      case Mul =>
        if ZeroNode(ln) || ZeroNode(rn) {
          var h := arena.Alloc(NConst(0.0));
          return Ok(h);
        }
        if OneNode(ln) {
          return Ok(rf);
        }
        if OneNode(rn) {
          return Ok(lf);
        }
      case Div =>
        if !ZeroNode(ln) {
          if ZeroNode(rn) {
            return Err(DivideByZero);
          }
        } else {
          var h := arena.Alloc(NConst(0.0));
          return Ok(h);
        }
      case Pow =>
        if ln.NConst? && rn.NConst? {
          var h := arena.Alloc(NConst(pow(ln.value, rn.value)));
          return Ok(h);
        }
        if ZeroNode(ln) {
          var h := arena.Alloc(NConst(0.0));
          return Ok(h);
        }
        if OneNode(rn) {
          return Ok(lf);
        }
        if ZeroNode(rn) {
          var h := arena.Alloc(NConst(1.0));
          return Ok(h);
        }
    }
    var h := arena.Alloc(NBin(op, lf, rf));
    res := Ok(h);
  }

  /**
   * What folding the node `root` of the arena `(n0, r0)` in place has
   * achieved once the arena is `(n1, r1)` and the answer is `res`.
   */
  ghost predicate FoldedInPlace(n0: seq<Node>, r0: seq<nat>, root: Handle, n1: seq<Node>, r1: seq<nat>, res: Result<Handle>, pow: PowFn)
    requires Ranked(n0, r0) && root < |n0|
  {
    && Ranked(n1, r1) && r0 <= r1
    && HighUnchanged(n0, r0, n1, r0[root])
    && FoldPreserved(n0, r0, n1, r1, pow)
    && (res.Ok? <==> Fold(Tree(n0, r0, root), pow).Ok?)
    && (res.Ok? ==>
         && res.value < |n1| && r1[res.value] <= r0[root]
         && Tree(n1, r1, res.value) == Fold(Tree(n0, r0, root), pow).value)
  }

  /**
   * `FoldZero::Fold` on the node at `root`.  The result denotes the fold of
   * what `root` denoted, the pass fails exactly when that fold fails, and
   * every node that existed before keeps its fold (a folded one keeps the
   * same tree), although the children of non-terminals other than unary
   * minus and the binary operators are rebound in place.
   */
  method FoldZero(arena: Arena, root: Handle, pow: PowFn) returns (res: Result<Handle>)
    requires arena.Valid() && root < |arena.nodes|
    modifies arena
    ensures arena.Valid() && old(arena.rank) <= arena.rank
    ensures HighUnchanged(old(arena.nodes), old(arena.rank), arena.nodes, old(arena.rank)[root])
    ensures FoldPreserved(old(arena.nodes), old(arena.rank), arena.nodes, arena.rank, pow)
    ensures res.Ok? <==> Fold(old(arena.TreeAt(root)), pow).Ok?
    ensures res.Ok? ==>
      && res.value < |arena.nodes| && arena.rank[res.value] <= arena.rank[root]
      && arena.TreeAt(res.value) == Fold(old(arena.TreeAt(root)), pow).value
    decreases arena.rank[root], 1
  {
    ghost var n0, r0 := arena.nodes, arena.rank;
    match arena.nodes[root]
    case NConst(_) =>
      FoldFixesFolded(arena.TreeAt(root), pow);
      ExtendFoldPreserved(n0, r0, n0, r0, pow);
      res := Ok(root);
    case NExo(_) =>
      FoldFixesFolded(arena.TreeAt(root), pow);
      ExtendFoldPreserved(n0, r0, n0, r0, pow);
      res := Ok(root);
    case NBin(_, _, _) =>
      res := FoldZeroBinary(arena, root, pow);
    case NNeg(_) =>
      res := FoldZeroUnary(arena, root, pow);
    case NEndo(_, _) =>
      res := FoldZeroChildren(arena, root, pow);
    case NFn(_, _) =>
      res := FoldZeroChildren(arena, root, pow);
    assert FoldedInPlace(n0, r0, root, arena.nodes, arena.rank, res, pow);
  }

  /** The binary branch: both operands folded, left first, then the operator's identities. */
  method FoldZeroBinary(arena: Arena, root: Handle, pow: PowFn) returns (res: Result<Handle>)
    requires arena.Valid() && root < |arena.nodes| && arena.nodes[root].NBin?
    modifies arena
    ensures arena.Valid()
    ensures FoldedInPlace(old(arena.nodes), old(arena.rank), root, arena.nodes, arena.rank, res, pow)
    decreases arena.rank[root], 0
  {
    ghost var n0, r0 := arena.nodes, arena.rank;
    assert NodeRanked(n0, r0, root);
    var op, l, r := arena.nodes[root].op, arena.nodes[root].left, arena.nodes[root].right;
    var lres := FoldZero(arena, l, pow);
    if lres.Err? {
      return Err(lres.error);
    }
    var lf := lres.value;
    ghost var n1, r1 := arena.nodes, arena.rank;
    FoldNormal(Tree(n0, r0, l), pow);
    var rres := FoldZero(arena, r, pow);
    FoldPreservedTrans(n0, r0, n1, r1, arena.nodes, arena.rank, pow);
    if rres.Err? {
      return Err(rres.error);
    }
    var rf := rres.value;
    assert arena.TreeAt(lf) == Tree(n1, r1, lf);
    ghost var n2, r2 := arena.nodes, arena.rank;
    res := FoldBinaryNode(arena, op, lf, rf, pow);
    ExtendFoldPreserved(n2, r2, arena.nodes, arena.rank, pow);
    FoldPreservedTrans(n0, r0, n2, r2, arena.nodes, arena.rank, pow);
  }

  /** The unary-minus branch: a folded zero argument gives the constant zero. */
  method FoldZeroUnary(arena: Arena, root: Handle, pow: PowFn) returns (res: Result<Handle>)
    requires arena.Valid() && root < |arena.nodes| && arena.nodes[root].NNeg?
    modifies arena
    ensures arena.Valid()
    ensures FoldedInPlace(old(arena.nodes), old(arena.rank), root, arena.nodes, arena.rank, res, pow)
    decreases arena.rank[root], 0
  {
    ghost var n0, r0 := arena.nodes, arena.rank;
    assert NodeRanked(n0, r0, root);
    var ares := FoldZero(arena, arena.nodes[root].arg, pow);
    if ares.Err? {
      return Err(ares.error);
    }
    var af := ares.value;
    ghost var n1, r1 := arena.nodes, arena.rank;
    if ZeroNode(arena.nodes[af]) {
      var z := arena.Alloc(NConst(0.0));
      res := Ok(z);
    } else {
      var m := arena.Alloc(NNeg(af));
      res := Ok(m);
    }
    ExtendFoldPreserved(n1, r1, arena.nodes, arena.rank, pow);
    FoldPreservedTrans(n0, r0, n1, r1, arena.nodes, arena.rank, pow);
  }

  /**
   * Any other non-terminal (a binding or an elementary function, both of
   * arity one): each child is folded and rebound in place, and the node
   * itself is the answer.
   */
  method FoldZeroChildren(arena: Arena, root: Handle, pow: PowFn) returns (res: Result<Handle>)
    requires arena.Valid() && root < |arena.nodes| && (arena.nodes[root].NEndo? || arena.nodes[root].NFn?)
    modifies arena
    ensures arena.Valid()
    ensures FoldedInPlace(old(arena.nodes), old(arena.rank), root, arena.nodes, arena.rank, res, pow)
    decreases arena.rank[root], 0
  {
    ghost var n0, r0 := arena.nodes, arena.rank;
    ChildRanked(n0, r0, root, 0);
    ghost var c0 := Children(n0[root])[0];
    ghost var folded: Handle := 0;
    ExtendFoldPreserved(n0, r0, n0, r0, pow);
    var idx := 0;
    while idx < |Children(arena.nodes[root])|
      invariant arena.Valid() && root < |arena.nodes| && r0 <= arena.rank
      invariant 0 <= idx <= 1
      invariant idx == 0 ==> arena.nodes[root] == n0[root]
      invariant idx == 1 ==>
        && folded < |arena.nodes|
        && arena.nodes[root] == WithChild(n0[root], 0, folded)
        && Fold(Tree(n0, r0, c0), pow) == Ok(arena.TreeAt(folded))
      invariant FoldPreserved(n0, r0, arena.nodes, arena.rank, pow)
      invariant HighUnchanged(n0, r0, arena.nodes, r0[root])
      decreases 1 - idx
    {
      ghost var n1, r1 := arena.nodes, arena.rank;
      var child := Children(arena.nodes[root])[idx];
      var fres := FoldZero(arena, child, pow);
      FoldPreservedTrans(n0, r0, n1, r1, arena.nodes, arena.rank, pow);
      if fres.Err? {
        return Err(fres.error);
      }
      ghost var n2, rk2 := arena.nodes, arena.rank;
      FoldNormal(Tree(n1, r1, child), pow);
      arena.Rebind(root, idx, fres.value);
      forall g | 0 <= g < |n2|
        ensures Fold(arena.TreeAt(g), pow) == Fold(Tree(n2, rk2, g), pow)
        ensures Folded(Tree(n2, rk2, g)) ==> arena.TreeAt(g) == Tree(n2, rk2, g)
      {
        RebindKeepsFold(n2, arena.rank, root, idx, fres.value, pow, g);
      }
      FoldPreservedTrans(n0, r0, n2, arena.rank, arena.nodes, arena.rank, pow);
      folded := fres.value;
      idx := idx + 1;
    }
    res := Ok(root);
  }
}
