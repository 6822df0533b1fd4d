/**
 * Hash-consing with fresh symbol names: `RemapUnique` (driver.cpp).  Each
 * node is rebuilt over the canonical nodes of its children and looked up by
 * its label and those children; the first node seen for a key is
 * remembered, wrapped in a freshly named binding unless it is a constant or
 * already a binding.
 */
module Remap {
  import opened Syntax
  import opened Heap

  function Digit(d: nat): char
    requires d < 10
  {
    ('0' as int + d) as char
  }

  /** The decimal numeral of `n`, as a stream writes a `size_t`. */
  function Decimal(n: nat): (s: string)
    ensures 1 <= |s|
    ensures n < 10 <==> |s| == 1
  {
    if n < 10 then [Digit(n)] else Decimal(n / 10) + [Digit(n % 10)]
  }

  /** Different numbers have different numerals. */
  lemma {:induction false} DecimalInjective(a: nat, b: nat)
    requires Decimal(a) == Decimal(b)
    ensures a == b
  {
    if 10 <= a && 10 <= b {
      var da, db := Decimal(a), Decimal(b);
      assert da[..|da| - 1] == Decimal(a / 10);
      assert db[..|db| - 1] == Decimal(b / 10);
      DecimalInjective(a / 10, b / 10);
      assert da[|da| - 1] == Digit(a % 10);
    }
  }

  /** The name of the `n`-th entry of the table: `prefix_ << n`. */
  function SymbolName(prefix: string, n: nat): (r: string)
    ensures |prefix| < |r| && r[..|prefix|] == prefix
  {
    prefix + Decimal(n)
  }

  /** Two different counters give two different names under one prefix. */
  lemma SymbolNamesDistinct(prefix: string, a: nat, b: nat)
    requires a != b
    ensures SymbolName(prefix, a) != SymbolName(prefix, b)
  {
    if SymbolName(prefix, a) == SymbolName(prefix, b) {
      assert Decimal(a) == SymbolName(prefix, a)[|prefix|..];
      DecimalInjective(a, b);
    }
  }

  /** A node that, met for the first time, is wrapped in a fresh binding. */
  predicate Wrapped(n: Node) {
    !n.NEndo? && !n.NConst?
  }

  /**
   * Every entry of the table is sound: its key is the key of the node it
   * was registered for, and the stored node denotes, once bindings are
   * inlined, what that node denotes.
   */
  ghost predicate TableSound(ops: map<Key, Handle>, registered: map<Key, Handle>, nodes: seq<Node>, rank: seq<nat>)
    requires Ranked(nodes, rank)
  {
    && ops.Keys == registered.Keys
    && forall k :: k in ops ==> EntrySound(nodes, rank, k, ops[k], registered[k])
  }

  /** One entry: `reg` has key `k`, and `stored` denotes what `reg` denotes once bindings are inlined. */
  ghost predicate EntrySound(nodes: seq<Node>, rank: seq<nat>, k: Key, stored: Handle, reg: Handle)
    requires Ranked(nodes, rank)
  {
    && stored < |nodes| && reg < |nodes|
    && KeyOf(nodes[reg]) == k
    && Inline(Tree(nodes, rank, stored)) == Inline(Tree(nodes, rank, reg))
  }

  /** Appending nodes keeps the table sound. */
  lemma TableSoundExtends(ops: map<Key, Handle>, registered: map<Key, Handle>,
                          n1: seq<Node>, r1: seq<nat>, n2: seq<Node>, r2: seq<nat>)
    requires Ranked(n1, r1) && Ranked(n2, r2) && n1 <= n2 && r1 <= r2
    requires TableSound(ops, registered, n1, r1)
    ensures TableSound(ops, registered, n2, r2)
  {
    forall k | k in ops
      ensures EntrySound(n2, r2, k, ops[k], registered[k])
    {
      TreeExtends(n1, r1, n2, r2, ops[k]);
      TreeExtends(n1, r1, n2, r2, registered[k]);
    }
  }

  /** Registering `cand` under its own key, with a node of the same inlined value, keeps the table sound. */
  lemma TableSoundInsert(ops: map<Key, Handle>, registered: map<Key, Handle>, nodes: seq<Node>, rank: seq<nat>,
                         r: Handle, cand: Handle)
    requires Ranked(nodes, rank) && TableSound(ops, registered, nodes, rank)
    requires r < |nodes| && cand < |nodes|
    requires Inline(Tree(nodes, rank, r)) == Inline(Tree(nodes, rank, cand))
    ensures TableSound(ops[KeyOf(nodes[cand]) := r], registered[KeyOf(nodes[cand]) := cand], nodes, rank)
  {
    var key := KeyOf(nodes[cand]);
    var ops', registered' := ops[key := r], registered[key := cand];
    assert ops'.Keys == ops.Keys + {key};
    assert registered'.Keys == registered.Keys + {key};
    forall k | k in ops'
      ensures EntrySound(nodes, rank, k, ops'[k], registered'[k])
    {
      if k != key {
        assert ops'[k] == ops[k] && registered'[k] == registered[k];
      }
    }
  }

  /** `m2` keeps every entry of `m1` as it was. */
  ghost predicate Kept<K, V>(m1: map<K, V>, m2: map<K, V>) {
    forall k :: k in m1 ==> k in m2 && m2[k] == m1[k]
  }

  /** Each child of `e` already has a canonical node. */
  ghost predicate ChildrenCanonical(canon: map<Expr, Handle>, e: Expr) {
    match e
    case Constant(_) => true
    case Exo(_) => true
    case Endo(_, b) => b in canon
    case Neg(a) => a in canon
    case Bin(_, l, r) => l in canon && r in canon
    case Fn(_, a) => a in canon
  }

  /** The key under which the table files `e`: its label over the canonical nodes of its children. */
  ghost function CanonKey(canon: map<Expr, Handle>, e: Expr): Key
    requires ChildrenCanonical(canon, e)
  {
    match e
    case Constant(v) => Key(LConst(v), [])
    case Exo(x) => Key(LExo(x), [])
    case Endo(x, b) => Key(LEndo(x), [canon[b]])
    case Neg(a) => Key(LNeg, [canon[a]])
    case Bin(op, l, r) => Key(LBin(op), [canon[l], canon[r]])
    case Fn(k, a) => Key(LFn(k), [canon[a]])
  }

  /**
   * `canon` maps each value the table has met to its canonical node, and
   * the table files that value, under its key, with that very node.
   */
  ghost predicate CanonSound(canon: map<Expr, Handle>, ops: map<Key, Handle>) {
    forall e :: e in canon ==>
      && ChildrenCanonical(canon, e)
      && CanonKey(canon, e) in ops && ops[CanonKey(canon, e)] == canon[e]
  }

  /** Growing `canon` keeps the key of every value whose children were canonical. */
  lemma CanonKeyKept(c1: map<Expr, Handle>, c2: map<Expr, Handle>, e: Expr)
    requires ChildrenCanonical(c1, e) && Kept(c1, c2)
    ensures ChildrenCanonical(c2, e) && CanonKey(c2, e) == CanonKey(c1, e)
  {
  }

  /** A table that only gains entries files every canonical value as before. */
  lemma CanonSoundGrow(canon: map<Expr, Handle>, o1: map<Key, Handle>, o2: map<Key, Handle>)
    requires CanonSound(canon, o1) && Kept(o1, o2)
    ensures CanonSound(canon, o2)
  {
  }

  /** The value `e`, filed under its key with node `r`, gets `r` as its canonical node. */
  lemma CanonInsert(canon: map<Expr, Handle>, ops: map<Key, Handle>, e: Expr, r: Handle)
    requires CanonSound(canon, ops) && ChildrenCanonical(canon, e)
    requires CanonKey(canon, e) in ops && ops[CanonKey(canon, e)] == r
    ensures Kept(canon, canon[e := r]) && CanonSound(canon[e := r], ops)
  {
    var c2 := canon[e := r];
    if e in canon {
      assert c2 == canon;
    } else {
      forall e' | e' in c2
        ensures ChildrenCanonical(c2, e') && CanonKey(c2, e') in ops && ops[CanonKey(c2, e')] == c2[e']
      {
        if e' == e {
          CanonKeyKept(canon, c2, e);
        } else {
          CanonKeyKept(canon, c2, e');
        }
      }
    }
  }

  /**
   * Child by child, `b` stands in `n1` for what `a` stands for in `n0`
   * once bindings are inlined.
   */
  ghost predicate ChildrenMatch(n0: seq<Node>, r0: seq<nat>, a: Node, n1: seq<Node>, r1: seq<nat>, b: Node)
  {
    && Ranked(n0, r0) && Ranked(n1, r1)
    && |Children(b)| == |Children(a)|
    && forall j :: 0 <= j < |Children(a)| ==>
      && Children(a)[j] < |n0| && Children(b)[j] < |n1|
      && Inline(Tree(n1, r1, Children(b)[j])) == Inline(Tree(n0, r0, Children(a)[j]))
  }

  /** Two binary nodes whose operands match, left with left and right with right. */
  lemma BinChildrenMatch(n0: seq<Node>, r0: seq<nat>, a: Node, n1: seq<Node>, r1: seq<nat>, b: Node)
    requires Ranked(n0, r0) && Ranked(n1, r1) && a.NBin? && b.NBin?
    requires a.left < |n0| && a.right < |n0| && b.left < |n1| && b.right < |n1|
    requires Inline(Tree(n1, r1, b.left)) == Inline(Tree(n0, r0, a.left))
    requires Inline(Tree(n1, r1, b.right)) == Inline(Tree(n0, r0, a.right))
    ensures ChildrenMatch(n0, r0, a, n1, r1, b)
  {
  }

  /** A node allocated over matching children stands for the node it copies. */
  lemma AllocKeepsInline(n0: seq<Node>, r0: seq<nat>, ptr: Handle,
                         n2: seq<Node>, r2: seq<nat>, node: Node, n3: seq<Node>, r3: seq<nat>)
    requires ptr < |n0| && Ranked(n3, r3) && n3 == n2 + [node] && r2 <= r3
    requires LabelOf(node) == LabelOf(n0[ptr]) && ChildrenMatch(n0, r0, n0[ptr], n2, r2, node)
    ensures Inline(Tree(n3, r3, |n2|)) == Inline(Tree(n0, r0, ptr))
  {
    forall j | 0 <= j < |Children(node)|
      ensures Tree(n3, r3, Children(node)[j]) == Tree(n2, r2, Children(node)[j])
    {
      TreeExtends(n2, r2, n3, r3, Children(node)[j]);
    }
    RebuiltSameInline(n0, r0, ptr, n3, r3, |n2|);
  }

  /**
   * The arena and the table have only grown: old nodes and old entries are
   * kept as they were, and no counter is forgotten.
   */
  ghost predicate Grown(n1: seq<Node>, r1: seq<nat>, o1: map<Key, Handle>, m1: set<nat>,
                        n2: seq<Node>, r2: seq<nat>, o2: map<Key, Handle>, m2: set<nat>)
  {
    && n1 <= n2 && r1 <= r2 && m1 <= m2
    && forall k :: k in o1 ==> k in o2 && o2[k] == o1[k]
  }

  lemma GrownTrans(n1: seq<Node>, r1: seq<nat>, o1: map<Key, Handle>, m1: set<nat>,
                   n2: seq<Node>, r2: seq<nat>, o2: map<Key, Handle>, m2: set<nat>,
                   n3: seq<Node>, r3: seq<nat>, o3: map<Key, Handle>, m3: set<nat>)
    requires Grown(n1, r1, o1, m1, n2, r2, o2, m2) && Grown(n2, r2, o2, m2, n3, r3, o3, m3)
    ensures Grown(n1, r1, o1, m1, n3, r3, o3, m3)
  {
  }

  class RemapUnique {
    const arena: Arena
    const prefix: string
    /** The table `ops_`: from (label, children) to the canonical node. */
    var ops: map<Key, Handle>
    /** For each key, the node it was registered for. */
    ghost var registered: map<Key, Handle>
    /** The counters used in the names made so far. */
    ghost var minted: set<nat>
    /** Each value met so far and its canonical node. */
    ghost var canon: map<Expr, Handle>

    ghost predicate Valid()
      reads this, arena
    {
      && arena.Valid()
      && TableSound(ops, registered, arena.nodes, arena.rank)
      && (forall n :: n in minted ==> 1 <= n <= |ops|)
      && CanonSound(canon, ops)
    }

    /** Every name this table has made. */
    ghost function Names(): set<string>
      reads this
    {
      set n | n in minted :: SymbolName(prefix, n)
    }

    constructor (arena: Arena, prefix: string)
      requires arena.Valid()
      ensures Valid() && this.arena == arena && this.prefix == prefix
      ensures ops == map[] && minted == {} && canon == map[]
    {
      this.arena := arena;
      this.prefix := prefix;
      ops := map[];
      registered := map[];
      minted := {};
      canon := map[];
    }

    /**
     * The table lookup of `RemapUnique::Apply` on the rebuilt node `cand`.
     * A hit answers with the stored node and changes nothing.  A miss
     * registers the key: a node that is neither a constant nor a binding is
     * wrapped in a new binding named after the table size plus one, a name
     * never made before; any other node is registered as itself.
     */
    method Canonicalize(cand: Handle) returns (r: Handle)
      requires Valid() && cand < |arena.nodes|
      modifies this, arena
      ensures Valid()
      ensures Grown(old(arena.nodes), old(arena.rank), old(ops), old(minted), arena.nodes, arena.rank, ops, minted)
      ensures canon == old(canon)
      ensures r < |arena.nodes| && Inline(arena.TreeAt(r)) == Inline(old(arena.TreeAt(cand)))
      ensures KeyOf(old(arena.nodes)[cand]) in ops && ops[KeyOf(old(arena.nodes)[cand])] == r
      ensures var key := KeyOf(old(arena.nodes)[cand]);
        key in old(ops) ==>
          && r == old(ops)[key]
          && ops == old(ops) && arena.nodes == old(arena.nodes) && minted == old(minted)
      ensures var key := KeyOf(old(arena.nodes)[cand]);
        key !in old(ops) ==>
          && ops == old(ops)[key := r] && |ops| == |old(ops)| + 1
      ensures var key := KeyOf(old(arena.nodes)[cand]);
        key !in old(ops) && Wrapped(old(arena.nodes)[cand]) ==>
          && r == |old(arena.nodes)|
          && arena.nodes == old(arena.nodes) + [NEndo(SymbolName(prefix, |old(ops)| + 1), cand)]
          && minted == old(minted) + {|old(ops)| + 1}
          && SymbolName(prefix, |old(ops)| + 1) !in old(Names())
      ensures var key := KeyOf(old(arena.nodes)[cand]);
        key !in old(ops) && !Wrapped(old(arena.nodes)[cand]) ==>
          && r == cand && arena.nodes == old(arena.nodes) && minted == old(minted)
    {
      var key := KeyOf(arena.nodes[cand]);
      if key in ops {
        KeyDeterminesNode(arena.nodes[cand], arena.nodes[registered[key]]);
        SameNodeSameTree(arena.nodes, arena.rank, cand, registered[key]);
        assert Inline(arena.TreeAt(ops[key])) == Inline(arena.TreeAt(cand));
        return ops[key];
      }
      if Wrapped(arena.nodes[cand]) {
        r := Mint(cand);
      } else {
        Register(cand);
        r := cand;
      }
    }

    /** A miss on a node that is neither a constant nor a binding: a new binding, under a new name, becomes its canonical node. */
    method Mint(cand: Handle) returns (r: Handle)
      requires Valid() && cand < |arena.nodes| && KeyOf(arena.nodes[cand]) !in ops
      modifies this, arena
      ensures Valid()
      ensures r == |old(arena.nodes)| && old(arena.rank) <= arena.rank
      ensures arena.nodes == old(arena.nodes) + [NEndo(SymbolName(prefix, |old(ops)| + 1), cand)]
      ensures ops == old(ops)[KeyOf(old(arena.nodes)[cand]) := r] && canon == old(canon)
      ensures minted == old(minted) + {|old(ops)| + 1}
      ensures SymbolName(prefix, |old(ops)| + 1) !in old(Names())
      ensures Inline(arena.TreeAt(r)) == Inline(old(arena.TreeAt(cand)))
    {
      var key := KeyOf(arena.nodes[cand]);
      ghost var ops0 := ops;
      var n := |ops| + 1;
      forall m | m in minted
        ensures SymbolName(prefix, m) != SymbolName(prefix, n)
      {
        SymbolNamesDistinct(prefix, m, n);
      }
      ghost var n0, r0 := arena.nodes, arena.rank;
      r := arena.Alloc(NEndo(SymbolName(prefix, n), cand));
      TableSoundExtends(ops, registered, n0, r0, arena.nodes, arena.rank);
      assert NodeRanked(arena.nodes, arena.rank, r);
      TreeExtends(n0, r0, arena.nodes, arena.rank, cand);
      assert arena.TreeAt(r) == Endo(SymbolName(prefix, n), arena.TreeAt(cand));
      TableSoundInsert(ops, registered, arena.nodes, arena.rank, r, cand);
      CanonSoundGrow(canon, ops, ops[key := r]);
      ops := ops[key := r];
      registered := registered[key := cand];
      minted := minted + {n};
      assert ops == ops0[key := r];
    }

    /** A miss on a constant or a binding: the node itself becomes canonical. */
    method Register(cand: Handle)
      requires Valid() && cand < |arena.nodes| && KeyOf(arena.nodes[cand]) !in ops
      modifies this
      ensures Valid()
      ensures ops == old(ops)[KeyOf(arena.nodes[cand]) := cand] && minted == old(minted) && canon == old(canon)
    {
      var key := KeyOf(arena.nodes[cand]);
      var o2 := ops[key := cand];
      TableSoundInsert(ops, registered, arena.nodes, arena.rank, cand, cand);
      CanonSoundGrow(canon, ops, o2);
      assert |o2| == |ops| + 1;
      ops := o2;
      registered := registered[key := cand];
    }

    /**
     * `RemapUnique::Apply`: the node rebuilt over the canonical nodes of its
     * children, then looked up.  The answer is the canonical node of the
     * value of `ptr`, the one every earlier and every later call answers for
     * an equal value, and it denotes the same inlined value as `ptr`; the
     * table only gains entries, and the arena only grows.
     */
    method Apply(ptr: Handle) returns (r: Handle)
      requires Valid() && ptr < |arena.nodes|
      modifies this, arena
      ensures Valid()
      ensures Grown(old(arena.nodes), old(arena.rank), old(ops), old(minted), arena.nodes, arena.rank, ops, minted)
      ensures Kept(old(canon), canon)
      ensures old(arena.TreeAt(ptr)) in canon && r == canon[old(arena.TreeAt(ptr))]
      ensures r < |arena.nodes| && Inline(arena.TreeAt(r)) == Inline(old(arena.TreeAt(ptr)))
      decreases arena.rank[ptr], 3
    {
      ghost var e := arena.TreeAt(ptr);
      ghost var n0, r0, o0, m0 := arena.nodes, arena.rank, ops, minted;
      var candidate := Clone(ptr);
      ghost var n1, r1, o1, m1 := arena.nodes, arena.rank, ops, minted;
      r := Canonicalize(candidate);
      GrownTrans(n0, r0, o0, m0, n1, r1, o1, m1, arena.nodes, arena.rank, ops, minted);
      TreeExtends(n0, r0, n1, r1, ptr);
      CanonInsert(canon, ops, e, r);
      canon := canon[e := r];
    }

    /**
     * Two lookups through one table, as the statements of one reverse sweep
     * make: handles with equal values get one canonical node, so a value
     * such as `(a*b)+(a*b)` refers twice to a single binding of `a*b`.
     */
    method ApplyBoth(p: Handle, q: Handle) returns (rp: Handle, rq: Handle)
      requires Valid() && p < |arena.nodes| && q < |arena.nodes|
      modifies this, arena
      ensures Valid()
      ensures old(arena.TreeAt(p)) == old(arena.TreeAt(q)) ==> rp == rq
    {
      ghost var n0, r0, c0 := arena.nodes, arena.rank, canon;
      rp := Apply(p);
      ghost var n1, r1, c1 := arena.nodes, arena.rank, canon;
      TreeExtends(n0, r0, n1, r1, q);
      rq := Apply(q);
    }

    /** `Operator::Clone` with this table as the transform: a fresh node over the canonical children. */
    method Clone(ptr: Handle) returns (candidate: Handle)
      requires Valid() && ptr < |arena.nodes|
      modifies this, arena
      ensures Valid()
      ensures Grown(old(arena.nodes), old(arena.rank), old(ops), old(minted), arena.nodes, arena.rank, ops, minted)
      ensures Kept(old(canon), canon)
      ensures ChildrenCanonical(canon, old(arena.TreeAt(ptr)))
      ensures candidate < |arena.nodes| && KeyOf(arena.nodes[candidate]) == CanonKey(canon, old(arena.TreeAt(ptr)))
      ensures Inline(arena.TreeAt(candidate)) == Inline(old(arena.TreeAt(ptr)))
      decreases arena.rank[ptr], 2
    {
      ghost var n0, r0 := arena.nodes, arena.rank;
      var node := CloneChildren(ptr);
      ghost var n2, r2 := arena.nodes, arena.rank;
      candidate := arena.Alloc(node);
      TableSoundExtends(ops, registered, n2, r2, arena.nodes, arena.rank);
      AllocKeepsInline(n0, r0, ptr, n2, r2, node, arena.nodes, arena.rank);
    }

    /** The children of `ptr`, each replaced by its canonical node, under the label of `ptr`. */
    method CloneChildren(ptr: Handle) returns (node: Node)
      requires Valid() && ptr < |arena.nodes|
      modifies this, arena
      ensures Valid()
      ensures Grown(old(arena.nodes), old(arena.rank), old(ops), old(minted), arena.nodes, arena.rank, ops, minted)
      ensures HandlesBelow(node, |arena.nodes|) && LabelOf(node) == LabelOf(old(arena.nodes[ptr]))
      ensures ChildrenMatch(old(arena.nodes), old(arena.rank), old(arena.nodes[ptr]), arena.nodes, arena.rank, node)
      ensures Kept(old(canon), canon)
      ensures ChildrenCanonical(canon, old(arena.TreeAt(ptr))) && KeyOf(node) == CanonKey(canon, old(arena.TreeAt(ptr)))
      decreases arena.rank[ptr], 1
    {
      ghost var n0, r0, o0, m0 := arena.nodes, arena.rank, ops, minted;
      ghost var e := arena.TreeAt(ptr);
      assert NodeRanked(n0, r0, ptr);
      match arena.nodes[ptr] {
        case NConst(v) =>
          node := NConst(v);
        case NExo(x) =>
          node := NExo(x);
        case NEndo(x, b) =>
          assert e == Endo(x, arena.TreeAt(b));
          var b' := Apply(b);
          node := NEndo(x, b');
        case NNeg(a) =>
          assert e == Neg(arena.TreeAt(a));
          var a' := Apply(a);
          node := NNeg(a');
        case NFn(k, a) =>
          assert e == Fn(k, arena.TreeAt(a));
          var a' := Apply(a);
          node := NFn(k, a');
        case NBin(op, left, right) =>
          node := CloneBin(ptr);
      }
    }

    /** `CloneChildren` of a binary node: the left operand is looked up first, then the right. */
    method CloneBin(ptr: Handle) returns (node: Node)
      requires Valid() && ptr < |arena.nodes| && arena.nodes[ptr].NBin?
      modifies this, arena
      ensures Valid()
      ensures Grown(old(arena.nodes), old(arena.rank), old(ops), old(minted), arena.nodes, arena.rank, ops, minted)
      ensures HandlesBelow(node, |arena.nodes|) && LabelOf(node) == LabelOf(old(arena.nodes[ptr]))
      ensures ChildrenMatch(old(arena.nodes), old(arena.rank), old(arena.nodes[ptr]), arena.nodes, arena.rank, node)
      ensures Kept(old(canon), canon)
      ensures ChildrenCanonical(canon, old(arena.TreeAt(ptr))) && KeyOf(node) == CanonKey(canon, old(arena.TreeAt(ptr)))
      decreases arena.rank[ptr], 0
    {
      ghost var n0, r0, o0, m0 := arena.nodes, arena.rank, ops, minted;
      assert NodeRanked(n0, r0, ptr);
      var op, left, right := arena.nodes[ptr].op, arena.nodes[ptr].left, arena.nodes[ptr].right;
      ghost var el, er := arena.TreeAt(left), arena.TreeAt(right);
      assert arena.TreeAt(ptr) == Bin(op, el, er);
      var l' := Apply(left);
      ghost var n1, r1, o1, m1, c1 := arena.nodes, arena.rank, ops, minted, canon;
      TreeExtends(n0, r0, n1, r1, right);
      var r' := Apply(right);
      GrownTrans(n0, r0, o0, m0, n1, r1, o1, m1, arena.nodes, arena.rank, ops, minted);
      TreeExtends(n1, r1, arena.nodes, arena.rank, l');
      assert canon[el] == c1[el] == l';
      node := NBin(op, l', r');
      BinChildrenMatch(n0, r0, n0[ptr], arena.nodes, arena.rank, node);
    }
  }
}
