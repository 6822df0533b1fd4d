/**
 * The instruction list the graph emits and the generated function is
 * rendered from, and the set of bindings already declared in it.
 */
module Instructions {
  import opened Heap

  /** One entry of an `InstructionBlock`; expressions are nodes of the arena. */
  datatype Instruction =
    | DeclareVariable(name: string, expr: Handle)
    | Comment(lines: seq<string>)
    | Return(name: string)
    | PointerAssign(target: string, source: string)

  /** The names declared by `DeclareVariable` entries, in order. */
  function Declared(instrs: seq<Instruction>): (r: seq<string>)
    ensures |r| <= |instrs|
  {
    if instrs == [] then []
    else
      var last := instrs[|instrs| - 1];
      Declared(instrs[..|instrs| - 1]) + (if last.DeclareVariable? then [last.name] else [])
  }

  /** The names returned by `Return` entries, in order. */
  function Returned(instrs: seq<Instruction>): (r: seq<string>)
    ensures |r| <= |instrs|
  {
    if instrs == [] then []
    else
      var last := instrs[|instrs| - 1];
      Returned(instrs[..|instrs| - 1]) + (if last.Return? then [last.name] else [])
  }

  lemma {:induction false} DeclaredAppend(a: seq<Instruction>, b: seq<Instruction>)
    ensures Declared(a + b) == Declared(a) + Declared(b)
    decreases |b|
  {
    if b == [] {
      assert a + b == a;
    } else {
      assert (a + b)[..|a + b| - 1] == a + b[..|b| - 1];
      DeclaredAppend(a, b[..|b| - 1]);
    }
  }

  lemma {:induction false} ReturnedAppend(a: seq<Instruction>, b: seq<Instruction>)
    ensures Returned(a + b) == Returned(a) + Returned(b)
    decreases |b|
  {
    if b == [] {
      assert a + b == a;
    } else {
      assert (a + b)[..|a + b| - 1] == a + b[..|b| - 1];
      ReturnedAppend(a, b[..|b| - 1]);
    }
  }

  /** `InstructionBlock`: instructions are only ever appended. */
  class InstructionBlock {
    var instrs: seq<Instruction>

    constructor ()
      ensures instrs == []
    {
      instrs := [];
    }

    method Add(i: Instruction)
      modifies this
      ensures instrs == old(instrs) + [i]
    {
      instrs := instrs + [i];
    }
  }

  /** `Operator::DependentsProfile`, as far as emission uses it: the set of bindings already declared. */
  class DependentsProfile {
    var seen: set<Handle>

    constructor (seen: set<Handle>)
      ensures this.seen == seen
    {
      this.seen := seen;
    }
  }
}
