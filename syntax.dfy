/**
 * The expression model: constants, exogenous (free) symbols, endogenous
 * symbols (named bindings), unary minus, the five binary operators and the
 * elementary functions.  A value of `Expr` is the tree an operator node
 * denotes once every shared child has been expanded.
 */
module Syntax {

  datatype BinOp = Add | Sub | Mul | Div | Pow

  /** Elementary functions of one argument (exp, log, normal CDF). */
  datatype FnKind = Exp | Log | Phi

  datatype Expr =
    | Constant(value: real)
    | Exo(name: string)
    | Endo(name: string, body: Expr)
    | Neg(arg: Expr)
    | Bin(op: BinOp, left: Expr, right: Expr)
    | Fn(kind: FnKind, arg: Expr)

  /** `ConstantDescription::IsZero`: the node is the constant 0. */
  predicate IsZero(e: Expr) {
    e.Constant? && e.value == 0.0
  }

  /** `ConstantDescription::IsOne`: the node is the constant 1. */
  predicate IsOne(e: Expr) {
    e.Constant? && e.value == 1.0
  }

  function Size(e: Expr): nat {
    match e
    case Constant(_) => 1
    case Exo(_) => 1
    case Endo(_, b) => 1 + Size(b)
    case Neg(a) => 1 + Size(a)
    case Bin(_, l, r) => 1 + Size(l) + Size(r)
    case Fn(_, a) => 1 + Size(a)
  }

  /** No endogenous symbol occurs anywhere in `e`. */
  predicate BindingFree(e: Expr) {
    match e
    case Constant(_) => true
    case Exo(_) => true
    case Endo(_, _) => false
    case Neg(a) => BindingFree(a)
    case Bin(_, l, r) => BindingFree(l) && BindingFree(r)
    case Fn(_, a) => BindingFree(a)
  }

  /**
   * The expression with every binding replaced by the expression it wraps:
   * the result both binding-removal passes compute.
   */
  function Inline(e: Expr): (r: Expr)
    ensures BindingFree(r)
  {
    match e
    case Constant(_) => e
    case Exo(_) => e
    case Endo(_, b) => Inline(b)
    case Neg(a) => Neg(Inline(a))
    case Bin(op, l, r) => Bin(op, Inline(l), Inline(r))
    case Fn(k, a) => Fn(k, Inline(a))
  }

  /** Inlining leaves a binding-free expression exactly as it is. */
  lemma {:induction false} InlineFixesBindingFree(e: Expr)
    requires BindingFree(e)
    ensures Inline(e) == e
  {
    match e
    case Constant(_) =>
    case Exo(_) =>
    case Neg(a) => InlineFixesBindingFree(a);
    case Bin(_, l, r) => InlineFixesBindingFree(l); InlineFixesBindingFree(r);
    case Fn(_, a) => InlineFixesBindingFree(a);
  }

  /** Inlining is idempotent. */
  lemma InlineIdempotent(e: Expr)
    ensures Inline(Inline(e)) == Inline(e)
  {
    InlineFixesBindingFree(Inline(e));
  }

  /**
   * A reading of the free symbols and of the operations whose numeric
   * behaviour the model leaves open (division, the power function and the
   * elementary functions are parameters, not real-number definitions).
   */
  datatype Interp = Interp(
    env: string -> real,
    div: (real, real) -> real,
    pow: (real, real) -> real,
    fn: (FnKind, real) -> real)

  function ApplyOp(op: BinOp, a: real, b: real, I: Interp): real {
    match op
    case Add => a + b
    case Sub => a - b
    case Mul => a * b
    case Div => I.div(a, b)
    case Pow => I.pow(a, b)
  }

  /** The value an expression denotes; a binding denotes the value of what it wraps. */
  function Eval(e: Expr, I: Interp): real {
    match e
    case Constant(v) => v
    case Exo(x) => I.env(x)
    case Endo(_, b) => Eval(b, I)
    case Neg(a) => -Eval(a, I)
    case Bin(op, l, r) => ApplyOp(op, Eval(l, I), Eval(r, I), I)
    case Fn(k, a) => I.fn(k, Eval(a, I))
  }

  /** Inlining bindings does not change the value of an expression. */
  lemma {:induction false} InlinePreservesEval(e: Expr, I: Interp)
    ensures Eval(Inline(e), I) == Eval(e, I)
  {
    match e
    case Constant(_) =>
    case Exo(_) =>
    case Endo(_, b) => InlinePreservesEval(b, I);
    case Neg(a) => InlinePreservesEval(a, I);
    case Bin(_, l, r) => InlinePreservesEval(l, I); InlinePreservesEval(r, I);
    case Fn(_, a) => InlinePreservesEval(a, I);
  }
}
