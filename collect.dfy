/**
 * The post-order collection of statements in `driver.cpp`: an explicit
 * stack of frames, each a binding with the dependencies it has yet to
 * visit, runs for at most 1000 turns; a binding is added as a statement
 * when its frame has no dependency left, unless it was added before.
 */
module Collect {
  import opened Heap

  /** `StackFrame`: a binding and the dependencies it has yet to visit, taken from the back. */
  datatype Frame = Frame(op: Handle, deps: seq<Handle>)

  /** The turns the loop may take (`ttl`). */
  const TTL: nat := 1000

  /** `EndgenousDependencies`: the bindings met directly below `h`, each lower in the arena's rank. */
  function Deps(nodes: seq<Node>, ghost rank: seq<nat>, h: Handle): (r: seq<Handle>)
    requires Ranked(nodes, rank) && h < |nodes|
    ensures forall k :: 0 <= k < |r| ==> r[k] < |nodes| && nodes[r[k]].NEndo? && rank[r[k]] < rank[h]
  {
    DirectBindings(nodes, rank, h, [])
  }

  /** A frame for a binding whose remaining dependencies are a prefix of all of them. */
  ghost predicate FrameOK(nodes: seq<Node>, rank: seq<nat>, fr: Frame)
    requires Ranked(nodes, rank)
  {
    fr.op < |nodes| && nodes[fr.op].NEndo? && fr.deps <= Deps(nodes, rank, fr.op)
  }

  /** The dependencies of the frame from position `from` on were all collected. */
  ghost predicate VisitedFrom(nodes: seq<Node>, rank: seq<nat>, fr: Frame, from: nat, seen: set<Handle>)
    requires Ranked(nodes, rank) && FrameOK(nodes, rank, fr)
  {
    forall j :: from <= j < |Deps(nodes, rank, fr.op)| ==> Deps(nodes, rank, fr.op)[j] in seen
  }

  /** Below the top: the dependency last taken from the frame is `next`, the one being visited above it. */
  ghost predicate Pending(nodes: seq<Node>, rank: seq<nat>, fr: Frame, next: Handle, seen: set<Handle>)
    requires Ranked(nodes, rank) && FrameOK(nodes, rank, fr)
  {
    var ds := Deps(nodes, rank, fr.op);
    && |fr.deps| < |ds| && ds[|fr.deps|] == next
    && VisitedFrom(nodes, rank, fr, |fr.deps| + 1, seen)
  }

  /**
   * The stack during the search: the root frame at the bottom, every frame
   * above it visiting the dependency its frame below took last, and every
   * dependency taken and finished already collected.
   */
  ghost predicate StackOK(nodes: seq<Node>, rank: seq<nat>, root: Handle, stack: seq<Frame>, seen: set<Handle>)
    requires Ranked(nodes, rank) && root < |nodes|
  {
    && (forall i :: 0 <= i < |stack| ==> FrameOK(nodes, rank, stack[i]))
    && (|stack| > 0 ==> stack[0].op == root && root !in seen)
    && (forall i :: 0 < i < |stack| ==> rank[stack[i].op] < rank[root])
    && (forall i :: 0 <= i < |stack| - 1 ==> Pending(nodes, rank, stack[i], stack[i + 1].op, seen))
    && (|stack| > 0 ==> VisitedFrom(nodes, rank, stack[|stack| - 1], |stack[|stack| - 1].deps|, seen))
  }

  /** `path` leads from `root` through direct dependencies. */
  ghost predicate Chain(nodes: seq<Node>, rank: seq<nat>, root: Handle, path: seq<Handle>)
    requires Ranked(nodes, rank)
  {
    && |path| > 0 && path[0] == root
    && (forall i :: 0 <= i < |path| ==> path[i] < |nodes|)
    && (forall i :: 0 <= i < |path| - 1 ==> path[i + 1] in Deps(nodes, rank, path[i]))
  }

  /**
   * The statements collected: each once, each after every dependency of
   * it, each at the end of the path `paths[k]` from the root, and `seen`
   * holds exactly them.
   */
  ghost predicate AddedOK(nodes: seq<Node>, rank: seq<nat>, root: Handle, added: seq<Handle>,
                          paths: seq<seq<Handle>>, seen: set<Handle>)
    requires Ranked(nodes, rank)
  {
    && Distinct(added)
    && (forall h :: h in seen <==> h in added)
    && (forall k :: 0 <= k < |added| ==> added[k] < |nodes| && nodes[added[k]].NEndo?)
    && (forall k :: 0 <= k < |added| ==> DepsBefore(nodes, rank, added, k))
    && |paths| == |added|
    && (forall k :: 0 <= k < |added| ==> Chain(nodes, rank, root, paths[k]) && paths[k][|paths[k]| - 1] == added[k])
  }

  /** Every dependency of the `k`-th statement comes before it. */
  ghost predicate DepsBefore(nodes: seq<Node>, rank: seq<nat>, added: seq<Handle>, k: nat)
    requires Ranked(nodes, rank) && k < |added| && added[k] < |nodes|
  {
    forall d :: d in Deps(nodes, rank, added[k]) ==> d in added[..k]
  }

  /** The bindings of the frames, bottom to top. */
  function Ops(stack: seq<Frame>): (r: seq<Handle>)
    ensures |r| == |stack| && forall i :: 0 <= i < |stack| ==> r[i] == stack[i].op
  {
    if stack == [] then [] else Ops(stack[..|stack| - 1]) + [stack[|stack| - 1].op]
  }

  /**
   * The search of `driver.cpp`: starting from the frame of `root`, it adds
   * each binding once, after all of its dependencies, and when the stack
   * empties before the turns run out the root comes last.
   */
  method CollectStatements(nodes: seq<Node>, ghost rank: seq<nat>, root: Handle)
    returns (added: seq<Handle>, finished: bool, ghost paths: seq<seq<Handle>>)
    requires Ranked(nodes, rank) && root < |nodes| && nodes[root].NEndo?
    ensures Distinct(added)
    ensures forall k :: 0 <= k < |added| ==> added[k] < |nodes| && nodes[added[k]].NEndo?
    ensures forall k :: 0 <= k < |added| ==> DepsBefore(nodes, rank, added, k)
    ensures |paths| == |added|
    ensures forall k :: 0 <= k < |added| ==> Chain(nodes, rank, root, paths[k]) && paths[k][|paths[k]| - 1] == added[k]
    ensures finished ==> |added| > 0 && added[|added| - 1] == root
  {
    var stack := [Frame(root, Deps(nodes, rank, root))];
    var seen: set<Handle> := {};
    added, paths := [], [];
    var ttl := TTL;
    while |stack| > 0 && ttl > 0
      invariant StackOK(nodes, rank, root, stack, seen)
      invariant AddedOK(nodes, rank, root, added, paths, seen)
      invariant |stack| == 0 ==> |added| > 0 && added[|added| - 1] == root
      decreases ttl
    {
      var frame := stack[|stack| - 1];
      if |frame.deps| == 0 {
        StackPop(nodes, rank, root, stack, seen);
        if frame.op !in seen {
          AddedNext(nodes, rank, root, stack, added, paths, seen);
          seen, added, paths := seen + {frame.op}, added + [frame.op], paths + [Ops(stack)];
        } else {
          assert seen + {frame.op} == seen;
        }
        stack := stack[..|stack| - 1];
      } else {
        var dep := frame.deps[|frame.deps| - 1];
        StackPush(nodes, rank, root, stack, seen);
        stack := stack[|stack| - 1 := Frame(frame.op, frame.deps[..|frame.deps| - 1])] + [Frame(dep, Deps(nodes, rank, dep))];
      }
      ttl := ttl - 1;
    }
    finished := |stack| == 0;
  }

  /** The frames on the stack spell a path from the root. */
  lemma StackChain(nodes: seq<Node>, rank: seq<nat>, root: Handle, stack: seq<Frame>, seen: set<Handle>)
    requires Ranked(nodes, rank) && root < |nodes|
    requires StackOK(nodes, rank, root, stack, seen) && |stack| > 0
    ensures Chain(nodes, rank, root, Ops(stack))
  {
    var ops := Ops(stack);
    forall i | 0 <= i < |ops| - 1
      ensures ops[i + 1] in Deps(nodes, rank, ops[i])
    {
      assert Pending(nodes, rank, stack[i], stack[i + 1].op, seen);
    }
  }

  /** Adding the binding of a finished top frame keeps the statements in dependency order. */
  lemma AddedNext(nodes: seq<Node>, rank: seq<nat>, root: Handle, stack: seq<Frame>,
                  added: seq<Handle>, paths: seq<seq<Handle>>, seen: set<Handle>)
    requires Ranked(nodes, rank) && root < |nodes|
    requires StackOK(nodes, rank, root, stack, seen) && AddedOK(nodes, rank, root, added, paths, seen)
    requires |stack| > 0 && |stack[|stack| - 1].deps| == 0 && stack[|stack| - 1].op !in seen
    ensures var op := stack[|stack| - 1].op;
      AddedOK(nodes, rank, root, added + [op], paths + [Ops(stack)], seen + {op})
  {
    var op := stack[|stack| - 1].op;
    var added', paths' := added + [op], paths + [Ops(stack)];
    StackChain(nodes, rank, root, stack, seen);
    assert added'[..|added|] == added;
    forall k | 0 <= k < |added'|
      ensures DepsBefore(nodes, rank, added', k)
    {
      if k < |added| {
        assert DepsBefore(nodes, rank, added, k);
        assert added'[..k] == added[..k];
      } else {
        assert VisitedFrom(nodes, rank, stack[|stack| - 1], 0, seen);
      }
    }
    forall k | 0 <= k < |added'|
      ensures Chain(nodes, rank, root, paths'[k]) && paths'[k][|paths'[k]| - 1] == added'[k]
    {
      if k < |added| {
        assert paths'[k] == paths[k];
      }
    }
  }

  /** Popping a finished top frame leaves the frame below it with its last dependency visited. */
  lemma StackPop(nodes: seq<Node>, rank: seq<nat>, root: Handle, stack: seq<Frame>, seen: set<Handle>)
    requires Ranked(nodes, rank) && root < |nodes|
    requires StackOK(nodes, rank, root, stack, seen) && |stack| > 0 && |stack[|stack| - 1].deps| == 0
    ensures var op := stack[|stack| - 1].op;
      StackOK(nodes, rank, root, stack[..|stack| - 1], seen + {op})
  {
    var op := stack[|stack| - 1].op;
    var seen', stack' := seen + {op}, stack[..|stack| - 1];
    if |stack| > 1 {
      assert op != root by {
        assert rank[op] < rank[root];
      }
      forall i | 0 <= i < |stack'| - 1
        ensures Pending(nodes, rank, stack'[i], stack'[i + 1].op, seen')
      {
        assert Pending(nodes, rank, stack[i], stack[i + 1].op, seen);
      }
      var top := stack'[|stack'| - 1];
      assert Pending(nodes, rank, top, op, seen);
      assert VisitedFrom(nodes, rank, top, |top.deps|, seen');
    }
  }

  /** Taking the last dependency of the top frame and pushing its frame keeps the stack in order. */
  lemma StackPush(nodes: seq<Node>, rank: seq<nat>, root: Handle, stack: seq<Frame>, seen: set<Handle>)
    requires Ranked(nodes, rank) && root < |nodes|
    requires StackOK(nodes, rank, root, stack, seen) && |stack| > 0 && |stack[|stack| - 1].deps| > 0
    ensures var fr := stack[|stack| - 1];
      var dep := fr.deps[|fr.deps| - 1];
      && dep < |nodes|
      && StackOK(nodes, rank, root,
                 stack[|stack| - 1 := Frame(fr.op, fr.deps[..|fr.deps| - 1])] + [Frame(dep, Deps(nodes, rank, dep))], seen)
  {
    var fr := stack[|stack| - 1];
    var n: nat := |fr.deps| - 1;
    var dep := fr.deps[n];
    var ds := Deps(nodes, rank, fr.op);
    assert dep == ds[n];
    var fr' := Frame(fr.op, fr.deps[..n]);
    var stack' := stack[|stack| - 1 := fr'] + [Frame(dep, Deps(nodes, rank, dep))];
    assert FrameOK(nodes, rank, fr');
    assert Pending(nodes, rank, fr', dep, seen) by {
      assert VisitedFrom(nodes, rank, fr, |fr.deps|, seen);
    }
    forall i | 0 <= i < |stack'|
      ensures FrameOK(nodes, rank, stack'[i])
    {
      if i < |stack| - 1 {
        assert stack'[i] == stack[i];
      }
    }
    forall i | 0 <= i < |stack'| - 1
      ensures Pending(nodes, rank, stack'[i], stack'[i + 1].op, seen)
    {
      if i < |stack| - 2 {
        assert stack'[i] == stack[i] && stack'[i + 1] == stack[i + 1];
      } else if i == |stack| - 2 {
        assert stack'[i] == stack[i] && stack'[i + 1].op == fr.op;
      }
    }
    assert rank[dep] < rank[root] by {
      if |stack| > 1 {
        assert rank[fr.op] < rank[root];
      }
    }
  }
}
