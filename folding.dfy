/**
 * The constant-folding simplifier `Transform::FoldZero::Fold`
 * (include/Cady/Transform.h) as a function on expression values: a
 * post-order rewrite that folds both operands of a node first and then
 * applies the local identities of that node's operator.
 */
module Folding {
  import opened Syntax

  /** The one error the fold raises: `std::domain_error("have divide by zero")`. */
  datatype FoldError = DivideByZero

  datatype Result<T> = Ok(value: T) | Err(error: FoldError)

  /** `std::pow`, left uninterpreted. */
  type PowFn = (real, real) -> real

  /** The identities of one binary node, applied to its already folded operands. */
  function FoldBinary(op: BinOp, l: Expr, r: Expr, pow: PowFn): Result<Expr> {
    match op
    case Add =>
      if l.Constant? && r.Constant? then Ok(Constant(0.0 + l.value + r.value))
      else if IsZero(l) then Ok(r)
      else if IsZero(r) then Ok(l)
      else Ok(Bin(Add, l, r))
    case Sub =>
      if l.Constant? && r.Constant? then Ok(Constant(0.0 + l.value - r.value))
      else if IsZero(r) then Ok(l)
      else if IsZero(l) then Ok(Neg(r))
      else Ok(Bin(Sub, l, r))
    case Mul =>
      if IsZero(l) || IsZero(r) then Ok(Constant(0.0))
      else if IsOne(l) then Ok(r)
      else if IsOne(r) then Ok(l)
      else Ok(Bin(Mul, l, r))
    case Div =>
      if IsZero(l) then Ok(Constant(0.0))
      else if IsZero(r) then Err(DivideByZero)
      else Ok(Bin(Div, l, r))
    case Pow =>
      if l.Constant? && r.Constant? then Ok(Constant(pow(l.value, r.value)))
      else if IsZero(l) then Ok(Constant(0.0))
      else if IsOne(r) then Ok(l)
      else if IsZero(r) then Ok(Constant(1.0))
      else Ok(Bin(Pow, l, r))
  }

  /**
   * The identities of a binary node fail only on a non-zero numerator over
   * a zero denominator, and never build anything larger than the node.
   */
  lemma FoldBinaryShape(op: BinOp, l: Expr, r: Expr, pow: PowFn)
    ensures FoldBinary(op, l, r, pow).Err? <==> op == Div && !IsZero(l) && IsZero(r)
    ensures FoldBinary(op, l, r, pow).Ok? ==> Size(FoldBinary(op, l, r, pow).value) <= 1 + Size(l) + Size(r)
  {
  }

  /** The identity of a unary-minus node, applied to its folded argument. */
  function FoldUnary(a: Expr): Expr {
    if IsZero(a) then Constant(0.0) else Neg(a)
  }

  /**
   * `FoldZero::Fold`: binary and unary nodes are rebuilt through their
   * identities, every other non-terminal gets its folded child back, and
   * terminals are returned as they are.  An error in the left operand is
   * raised before the right operand is looked at.
   */
  function Fold(e: Expr, pow: PowFn): (r: Result<Expr>)
    ensures r.Ok? ==> Size(r.value) <= Size(e)
  {
    match e
    case Constant(_) => Ok(e)
    case Exo(_) => Ok(e)
    case Bin(op, l, r) =>
      (match Fold(l, pow)
       case Err(x) => Err(x)
       case Ok(fl) =>
         match Fold(r, pow)
         case Err(x) => Err(x)
         case Ok(fr) => FoldBinary(op, fl, fr, pow))
    case Neg(a) =>
      (match Fold(a, pow)
       case Err(x) => Err(x)
       case Ok(fa) => Ok(FoldUnary(fa)))
    case Fn(k, a) =>
      (match Fold(a, pow)
       case Err(x) => Err(x)
       case Ok(fa) => Ok(Fn(k, fa)))
    case Endo(n, b) =>
      (match Fold(b, pow)
       case Err(x) => Err(x)
       case Ok(fb) => Ok(Endo(n, fb)))
  }

  /** None of the identities of `op` applies to the operands `l` and `r`. */
  predicate NoRuleApplies(op: BinOp, l: Expr, r: Expr) {
    match op
    case Add => !(l.Constant? && r.Constant?) && !IsZero(l) && !IsZero(r)
    case Sub => !(l.Constant? && r.Constant?) && !IsZero(l) && !IsZero(r)
    case Mul => !IsZero(l) && !IsZero(r) && !IsOne(l) && !IsOne(r)
    case Div => !IsZero(l) && !IsZero(r)
    case Pow => !(l.Constant? && r.Constant?) && !IsZero(l) && !IsOne(r) && !IsZero(r)
  }

  /** The normal form of the fold: no identity applies at any node. */
  predicate Folded(e: Expr) {
    match e
    case Constant(_) => true
    case Exo(_) => true
    case Endo(_, b) => Folded(b)
    case Neg(a) => Folded(a) && !IsZero(a)
    case Bin(op, l, r) => Folded(l) && Folded(r) && NoRuleApplies(op, l, r)
    case Fn(_, a) => Folded(a)
  }

  /** Every successful fold ends in the normal form. */
  lemma {:induction false} FoldNormal(e: Expr, pow: PowFn)
    requires Fold(e, pow).Ok?
    ensures Folded(Fold(e, pow).value)
  {
    match e
    case Constant(_) =>
    case Exo(_) =>
    case Bin(op, l, r) => FoldNormal(l, pow); FoldNormal(r, pow);
    case Neg(a) => FoldNormal(a, pow);
    case Fn(_, a) => FoldNormal(a, pow);
    case Endo(_, b) => FoldNormal(b, pow);
  }

  /** Folding an expression in normal form succeeds and returns it unchanged. */
  lemma {:induction false} FoldFixesFolded(e: Expr, pow: PowFn)
    requires Folded(e)
    ensures Fold(e, pow) == Ok(e)
  {
    match e
    case Constant(_) =>
    case Exo(_) =>
    case Bin(op, l, r) => FoldFixesFolded(l, pow); FoldFixesFolded(r, pow);
    case Neg(a) => FoldFixesFolded(a, pow);
    case Fn(_, a) => FoldFixesFolded(a, pow);
    case Endo(_, b) => FoldFixesFolded(b, pow);
  }

  /** Idempotence: folding a folded expression gives back the same expression. */
  lemma FoldIdempotent(e: Expr, pow: PowFn)
    requires Fold(e, pow).Ok?
    ensures Fold(Fold(e, pow).value, pow) == Fold(e, pow)
  {
    FoldNormal(e, pow);
    FoldFixesFolded(Fold(e, pow).value, pow);
  }

  /** No division node occurs in `e`. */
  predicate DivisionFree(e: Expr) {
    match e
    case Constant(_) => true
    case Exo(_) => true
    case Endo(_, b) => DivisionFree(b)
    case Neg(a) => DivisionFree(a)
    case Bin(op, l, r) => op != Div && DivisionFree(l) && DivisionFree(r)
    case Fn(_, a) => DivisionFree(a)
  }

  /** The static divide-by-zero error is the only way the fold fails. */
  lemma {:induction false} FoldFailsOnlyAtDivision(e: Expr, pow: PowFn)
    requires DivisionFree(e)
    ensures Fold(e, pow).Ok? && DivisionFree(Fold(e, pow).value)
  {
    match e
    case Constant(_) =>
    case Exo(_) =>
    case Bin(op, l, r) => FoldFailsOnlyAtDivision(l, pow); FoldFailsOnlyAtDivision(r, pow);
    case Neg(a) => FoldFailsOnlyAtDivision(a, pow);
    case Fn(_, a) => FoldFailsOnlyAtDivision(a, pow);
    case Endo(_, b) => FoldFailsOnlyAtDivision(b, pow);
  }

  // ---------------------------------------------------------------------
  // The identities, one operator at a time, stated on the folded operands
  // fx and fy of arbitrary operands x and y.
  // ---------------------------------------------------------------------

  /** A failure while folding an operand aborts the whole fold, left operand first. */
  lemma FoldPropagatesErrors(op: BinOp, x: Expr, y: Expr, pow: PowFn)
    ensures Fold(x, pow).Err? ==> Fold(Bin(op, x, y), pow) == Fold(x, pow)
    ensures Fold(x, pow).Ok? && Fold(y, pow).Err? ==> Fold(Bin(op, x, y), pow) == Fold(y, pow)
    ensures Fold(x, pow).Err? ==> Fold(Neg(x), pow) == Fold(x, pow)
  {
  }

  lemma FoldAddRules(x: Expr, y: Expr, pow: PowFn)
    requires Fold(x, pow).Ok? && Fold(y, pow).Ok?
    ensures var fx, fy, r := Fold(x, pow).value, Fold(y, pow).value, Fold(Bin(Add, x, y), pow);
      && (fx.Constant? && fy.Constant? ==> r == Ok(Constant(fx.value + fy.value)))
      && (IsZero(fx) ==> r == Ok(fy))
      && (IsZero(fy) ==> r == Ok(fx))
      && (NoRuleApplies(Add, fx, fy) ==> r == Ok(Bin(Add, fx, fy)))
  {
  }

  lemma FoldSubRules(x: Expr, y: Expr, pow: PowFn)
    requires Fold(x, pow).Ok? && Fold(y, pow).Ok?
    ensures var fx, fy, r := Fold(x, pow).value, Fold(y, pow).value, Fold(Bin(Sub, x, y), pow);
      && (fx.Constant? && fy.Constant? ==> r == Ok(Constant(fx.value - fy.value)))
      && (IsZero(fy) ==> r == Ok(fx))
      && (IsZero(fx) && !fy.Constant? ==> r == Ok(Neg(fy)))
      && (NoRuleApplies(Sub, fx, fy) ==> r == Ok(Bin(Sub, fx, fy)))
  {
  }

  lemma FoldMulRules(x: Expr, y: Expr, pow: PowFn)
    requires Fold(x, pow).Ok? && Fold(y, pow).Ok?
    ensures var fx, fy, r := Fold(x, pow).value, Fold(y, pow).value, Fold(Bin(Mul, x, y), pow);
      && (IsZero(fx) || IsZero(fy) ==> r == Ok(Constant(0.0)))
      && (IsOne(fx) ==> r == Ok(fy))
      && (IsOne(fy) ==> r == Ok(fx))
      && (NoRuleApplies(Mul, fx, fy) ==> r == Ok(Bin(Mul, fx, fy)))
  {
  }

  lemma FoldDivRules(x: Expr, y: Expr, pow: PowFn)
    requires Fold(x, pow).Ok? && Fold(y, pow).Ok?
    ensures var fx, fy, r := Fold(x, pow).value, Fold(y, pow).value, Fold(Bin(Div, x, y), pow);
      && (IsZero(fx) ==> r == Ok(Constant(0.0)))
      && (r.Err? <==> !IsZero(fx) && IsZero(fy))
      && (NoRuleApplies(Div, fx, fy) ==> r == Ok(Bin(Div, fx, fy)))
  {
  }

  lemma FoldPowRules(x: Expr, y: Expr, pow: PowFn)
    requires Fold(x, pow).Ok? && Fold(y, pow).Ok?
    ensures var fx, fy, r := Fold(x, pow).value, Fold(y, pow).value, Fold(Bin(Pow, x, y), pow);
      && (fx.Constant? && fy.Constant? ==> r == Ok(Constant(pow(fx.value, fy.value))))
      && (IsZero(fx) && !fy.Constant? ==> r == Ok(Constant(0.0)))
      && (!fx.Constant? && IsOne(fy) ==> r == Ok(fx))
      && (!fx.Constant? && IsZero(fy) ==> r == Ok(Constant(1.0)))
      && (NoRuleApplies(Pow, fx, fy) ==> r == Ok(Bin(Pow, fx, fy)))
  {
  }

  lemma FoldNegRules(x: Expr, pow: PowFn)
    requires Fold(x, pow).Ok?
    ensures var fx, r := Fold(x, pow).value, Fold(Neg(x), pow);
      && (IsZero(fx) ==> r == Ok(Constant(0.0)))
      && (!IsZero(fx) ==> r == Ok(Neg(fx)))
  {
  }

  /** Non-terminals other than binary and unary nodes keep their kind and get their folded child. */
  lemma FoldOtherRules(x: Expr, k: FnKind, name: string, pow: PowFn)
    requires Fold(x, pow).Ok?
    ensures Fold(Fn(k, x), pow) == Ok(Fn(k, Fold(x, pow).value))
    ensures Fold(Endo(name, x), pow) == Ok(Endo(name, Fold(x, pow).value))
  {
  }

  // ---------------------------------------------------------------------
  // Meaning.  The identities are sound for real arithmetic except the
  // zero-base power rule, which is wrong when the exponent evaluates to 0.
  // ---------------------------------------------------------------------

  /** What the identities assume of division and of the power function. */
  ghost predicate FoldAssumptions(I: Interp) {
    && (forall y :: I.div(0.0, y) == 0.0)
    && (forall x :: I.pow(x, 1.0) == x)
    && (forall x :: I.pow(x, 0.0) == 1.0)
  }

  /** The zero-base power rule fires nowhere in `e`. */
  predicate NoZeroBasePower(e: Expr, pow: PowFn) {
    match e
    case Constant(_) => true
    case Exo(_) => true
    case Endo(_, b) => NoZeroBasePower(b, pow)
    case Neg(a) => NoZeroBasePower(a, pow)
    case Fn(_, a) => NoZeroBasePower(a, pow)
    case Bin(op, l, r) =>
      && NoZeroBasePower(l, pow) && NoZeroBasePower(r, pow)
      && (op == Pow && Fold(l, pow).Ok? && Fold(r, pow).Ok? ==>
            !(IsZero(Fold(l, pow).value) && !Fold(r, pow).value.Constant?))
  }

  /** Folding preserves the value of every expression in which the zero-base power rule does not fire. */
  lemma {:induction false} FoldSound(e: Expr, I: Interp)
    requires FoldAssumptions(I)
    requires NoZeroBasePower(e, I.pow)
    requires Fold(e, I.pow).Ok?
    ensures Eval(Fold(e, I.pow).value, I) == Eval(e, I)
  {
    match e
    case Constant(_) =>
    case Exo(_) =>
    case Endo(_, b) => FoldSound(b, I);
    case Neg(a) => FoldSound(a, I);
    case Fn(_, a) => FoldSound(a, I);
    case Bin(op, l, r) =>
      FoldSound(l, I);
      FoldSound(r, I);
      FoldBinarySound(op, Fold(l, I.pow).value, Fold(r, I.pow).value, I);
  }

  lemma FoldBinarySound(op: BinOp, l: Expr, r: Expr, I: Interp)
    requires FoldAssumptions(I)
    requires FoldBinary(op, l, r, I.pow).Ok?
    requires !(op == Pow && IsZero(l) && !r.Constant?)
    ensures Eval(FoldBinary(op, l, r, I.pow).value, I) == ApplyOp(op, Eval(l, I), Eval(r, I), I)
  {
    match op
    case Add => FoldAddSound(l, r, I);
    case Sub => FoldSubSound(l, r, I);
    case Mul => FoldMulSound(l, r, I);
    case Div =>
      if IsZero(l) {
        assert I.div(0.0, Eval(r, I)) == 0.0;
      }
    case Pow =>
      if l.Constant? && r.Constant? {
      } else if IsOne(r) {
        assert I.pow(Eval(l, I), 1.0) == Eval(l, I);
      } else if IsZero(r) {
        assert I.pow(Eval(l, I), 0.0) == 1.0;
      }
  }

  /** The identities of `+` preserve the sum. */
  lemma FoldAddSound(l: Expr, r: Expr, I: Interp)
    ensures Eval(FoldBinary(Add, l, r, I.pow).value, I) == Eval(l, I) + Eval(r, I)
  {
    var x, y := Eval(l, I), Eval(r, I);
    if l.Constant? && r.Constant? {
    } else if IsZero(l) {
      assert 0.0 + y == y;
    } else if IsZero(r) {
      assert x + 0.0 == x;
    }
  }

  /** The identities of `-` preserve the difference. */
  lemma FoldSubSound(l: Expr, r: Expr, I: Interp)
    ensures Eval(FoldBinary(Sub, l, r, I.pow).value, I) == Eval(l, I) - Eval(r, I)
  {
    var x, y := Eval(l, I), Eval(r, I);
    if l.Constant? && r.Constant? {
    } else if IsZero(r) {
      assert x - 0.0 == x;
    } else if IsZero(l) {
      assert 0.0 - y == -y;
    }
  }

  /** The identities of `*` preserve the product. */
  lemma FoldMulSound(l: Expr, r: Expr, I: Interp)
    ensures Eval(FoldBinary(Mul, l, r, I.pow).value, I) == Eval(l, I) * Eval(r, I)
  {
    var x, y := Eval(l, I), Eval(r, I);
    if IsZero(l) {
      assert x == 0.0;
      assert x * y == 0.0;
    } else if IsZero(r) {
      assert y == 0.0;
      assert x * y == 0.0;
    } else if IsOne(l) {
      assert x == 1.0;
      assert x * y == y;
    } else if IsOne(r) {
      assert y == 1.0;
      assert x * y == x;
    }
  }

  /**
   * The zero-base power rule `0^x -> 0` is not meaning-preserving: with
   * `std::pow(0, 0) == 1` and x evaluating to 0, `0^x` denotes 1 but folds to 0.
   */
  lemma ZeroBaseRuleCounterexample(I: Interp)
    requires I.pow(0.0, 0.0) == 1.0 && I.env("x") == 0.0
    ensures Fold(Bin(Pow, Constant(0.0), Exo("x")), I.pow) == Ok(Constant(0.0))
    ensures Eval(Bin(Pow, Constant(0.0), Exo("x")), I) == 1.0
  {
  }
}
