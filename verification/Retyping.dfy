/**
 The rules of optimize_expr (optimize.c) that give a node another type instead of putting a cast around it. Some
 keep every value; of the others it is shown exactly where they do.
 */
module Retyping {
  import opened Arith
  import opened Bits
  import opened CTypes
  import opened Exprs
  import opened Optimizer
  import opened Divisions
  import opened Comparisons

  function WithType(e: Expr, ty: Type): Expr {
    match e
    case Num(val, _) => Num(val, ty)
    case Var(id, _) => Var(id, ty)
    case Cast(x, _) => Cast(x, ty)
    case Unary(op, x, _) => Unary(op, x, ty)
    case Binary(op, l, r, _) => Binary(op, l, r, ty)
    case Cond(c, yes, no, _) => Cond(c, yes, no, ty)
  }

  predicate IsTruth(e: Expr) { (e.Binary? && (IsCompare(e.op) || IsLogical(e.op))) || (e.Unary? && e.uop == Not) }

  /** Truth values are 0 and 1 whatever their type is called. */
  lemma TruthValue(e: Expr, ty: Type, env: Env)
    requires WellTyped(e) && IsTruth(e)
    ensures WellTyped(WithType(e, ty)) && Eval(WithType(e, ty), env) == Eval(e, env)
    ensures Eval(e, env) in {None, Some(0), Some(1)}
  {
    if e.Binary? && IsLogical(e.op) {
      LogicEval(e.op, e.l, e.r, e.ty, ty, env);
    }
  }

  // ----- (_Bool)(a < b) -----

  function BoolOfTruth(e: Expr): Rewrite { if e.Cast? && e.ty.kind == KBool && IsTruth(e.e) then To(e.e) else NoMatch }

  /** The value is always kept; the type, which tells how the value reads, only where the operand's belongs to it. */
  lemma BoolOfTruthExact(e: Expr, env: Env)
    requires WellTyped(e) && BoolOfTruth(e).To?
    ensures Eval(e.e, env) == Eval(e, env)
    ensures PreservesAt(e, BoolOfTruth(e).e, env) <==> Within(e.e.ty, e.ty)
  {
    TruthValue(e.e, e.e.ty, env);
  }

  // ----- (char)((int)c + (a < b)) -----

  predicate IsByteToInt(e: Expr) { IsPromotion(e) || IsByteToUint(e) }

  /** The sum gets the type of the byte c. */
  function RetypeSum(e: Expr): Rewrite {
    if !(e.Cast? && e.ty.kind == KChar && e.e.Binary? && (e.e.op == Add || e.e.op == Sub)) then NoMatch
    else
      var l, r := SkipByteToInt(e.e.l), SkipByteToInt(e.e.r);
      if IsByteToInt(e.e.l) && IsCompareOrNot(e.e.r) then To(Binary(e.e.op, l, WithType(e.e.r, l.ty), l.ty))
      else if IsByteToInt(e.e.r) && IsCompareOrNot(e.e.l) then To(Binary(e.e.op, WithType(e.e.l, r.ty), r, r.ty))
      else if IsCompareOrNot(e.e.l) && IsCompareOrNot(e.e.r) then
        To(Binary(e.e.op, WithType(e.e.l, e.ty), WithType(e.e.r, e.ty), e.ty))
      else NoMatch
  }

  /** A side of the sum without its promotion or with another type has the same value. */
  lemma SideValue(x: Expr, ty: Type, env: Env)
    requires WellTyped(x)
    ensures IsByteToInt(x) ==> WellTyped(SkipByteToInt(x)) && Eval(SkipByteToInt(x), env) == Eval(x, env)
    ensures IsCompareOrNot(x) ==> WellTyped(WithType(x, ty)) && Eval(WithType(x, ty), env) == Eval(x, env)
  {
    hide Eval, WellTyped, Within;
    SkipValue(x, env);
    if IsCompareOrNot(x) {
      TruthValue(x, ty, env);
    }
  }

  lemma SumRetyped(e: Expr, e': Expr, env: Env)
    requires e.Cast? && e.ty.kind == KChar && e.e.Binary? && (e.e.op == Add || e.e.op == Sub) && e.e.ty.kind != KBool
    requires e'.Binary? && e'.op == e.e.op && e'.ty == e.ty && WellTyped(e'.l) && WellTyped(e'.r)
    requires Eval(e'.l, env) == Eval(e.e.l, env) && Eval(e'.r, env) == Eval(e.e.r, env)
    ensures PreservesAt(e, e', env)
  {
    hide Eval, Fit, RingValue, Cong;
    var b := e.e;
    CutSame(b.l, e'.l, e.ty, env);
    CutSame(b.r, e'.r, e.ty, env);
    CutRing(b.op, b.l, b.r, b.ty, e'.l, e'.r, e.ty, env);
    WithinSelf(e.ty);
  }

  /** Right exactly where that is the type of the cast. */
  lemma RetypeSumExact(e: Expr, env: Env)
    requires WellTyped(e) && RetypeSum(e).To?
    ensures PreservesAt(e, RetypeSum(e).e, env) <==> RetypeSum(e).e.ty == e.ty
  {
    hide Eval;
    var b, e' := e.e, RetypeSum(e).e;
    assert WellTyped(b) && WellTyped(b.l) && WellTyped(b.r);
    SideValue(b.l, e'.ty, env);
    SideValue(b.r, e'.ty, env);
    if e'.ty == e.ty {
      SumRetyped(e, e', env);
    }
  }

  // ----- (a < b) + (c < d) -----

  function SumOfTruths(e: Expr): Rewrite {
    if e.Binary? && e.op == Add && IsInt16(e.ty) && IsCompareOrNot(e.l) && IsCompareOrNot(e.r)
    then To(NewCast(Binary(Add, WithType(e.l, UCHAR), WithType(e.r, UCHAR), UCHAR), e.ty))
    else NoMatch
  }

  lemma SumOfTruthsRight(e: Expr, env: Env)
    requires WellTyped(e) && SumOfTruths(e).To?
    ensures PreservesAt(e, SumOfTruths(e).e, env)
  {
    hide Eval, NewCast, Fit;
    var l, r := WithType(e.l, UCHAR), WithType(e.r, UCHAR);
    var b := Binary(Add, l, r, UCHAR);
    assert WellTyped(e.l) && WellTyped(e.r);
    TruthValue(e.l, UCHAR, env);
    TruthValue(e.r, UCHAR, env);
    assert WellTyped(b);
    RingEval(Add, e.l, e.r, e.ty, env);
    RingEval(Add, l, r, UCHAR, env);
    NewCastRight(b, e.ty, env);
    if Eval(e.l, env).Some? && Eval(e.r, env).Some? {
      FitSelf(Eval(e.l, env).v + Eval(e.r, env).v, UCHAR);
    }
  }

  // ----- (a < b) << 3 -----

  function ShiftOfTruth(e: Expr): Rewrite {
    if e.Binary? && e.op == Shl && IsInt16(e.ty) && IsCompareOrNot(e.l) && e.r.Num? && 0 <= e.r.val <= 7
    then To(NewCast(Binary(Shl, WithType(e.l, UCHAR), e.r, UCHAR), e.ty))
    else NoMatch
  }

  lemma ShiftOfTruthRight(e: Expr, env: Env)
    requires WellTyped(e) && ShiftOfTruth(e).To?
    ensures PreservesAt(e, ShiftOfTruth(e).e, env)
  {
    hide Eval, NewCast, Fit, Pow2;
    var l := WithType(e.l, UCHAR);
    var b := Binary(Shl, l, e.r, UCHAR);
    assert WellTyped(e.l) && WellTyped(e.r);
    TruthValue(e.l, UCHAR, env);
    assert WellTyped(b);
    StrictEval(Shl, e.l, e.r, e.ty, env);
    StrictEval(Shl, l, e.r, UCHAR, env);
    NewCastRight(b, e.ty, env);
    SmallCount(e.r, env);
    if Eval(e.l, env).Some? {
      TruthShifted(Eval(e.l, env).v, Eval(e.r, env).v);
    }
  }

  lemma SmallCount(n: Expr, env: Env)
    requires n.Num? && 0 <= n.val <= 7
    ensures Eval(n, env).Some? && 0 <= Eval(n, env).v <= 7
  {
    if n.ty.kind != KBool {
      FitSelf(n.val, n.ty);
    }
  }

  lemma TruthShifted(x: int, n: nat)
    requires 0 <= x <= 1 && n <= 7
    ensures Fit(x * Pow2(n), UCHAR) == x * Pow2(n)
  {
    hide Fit;
    assert Pow2(n) <= 128 by {
      Pow2Values();
      if n == 6 {} else if n == 5 {} else if n == 4 {} else if n == 3 {} else if n == 2 {} else if n == 1 {} else if n == 0 {}
    }
    FitSelf(x * Pow2(n), UCHAR);
  }

  // ----- !x with -Os -----

  function NotAsEq(e: Expr): Rewrite {
    if e.Unary? && e.uop == Not then To(Binary(Eq, e.e, Num(0, e.e.ty), e.ty)) else NoMatch
  }

  lemma NotAsEqRight(e: Expr, env: Env)
    requires WellTyped(e) && NotAsEq(e).To?
    ensures PreservesAt(e, NotAsEq(e).e, env)
  {
    hide Eval;
    var zero := Num(0, e.e.ty);
    assert WellTyped(e.e);
    Literal(zero, env);
    UnaryEval(Not, e.e, e.ty, env);
    CompareEval(Eq, e.e, zero, e.ty, env);
    WithinSelf(e.ty);
  }

  // ----- the arms of ?: -----

  /** An arm that is a cast or a `?:` gets the type of the whole. */
  function RetypeArm(e: Expr, ty: Type): Rewrite { if e.Cast? || e.Cond? then To(WithType(e, ty)) else NoMatch }

  /** What is cast, converted to the type of the whole instead, is a value of the type of the cast; for `_Bool` the right one. */
  predicate ArmFits(e: Expr, ty: Type, env: Env) { e.Cast? && Eval(e.e, env).Some? ==> FitsInto(Eval(e.e, env).v, e.ty, ty) }

  predicate FitsInto(v: int, a: Type, b: Type) { if a.kind == KBool then v == 0 || Fit(v, b) == 1 else InRange(Fit(v, b), a) }

  lemma RetypeArmExact(e: Expr, ty: Type, env: Env)
    requires WellTyped(e) && RetypeArm(e, ty).To? && Within(e.ty, ty)
    ensures PreservesAs(e, RetypeArm(e, ty).e, ty, env) <==> ArmFits(e, ty, env)
  {
    hide Fit, Eval;
    if e.Cast? {
      CastEval(e.e, e.ty, env);
      CastEval(e.e, ty, env);
      if Eval(e.e, env).Some? {
        FitInto(Eval(e.e, env).v, e.ty, ty);
      }
    } else {
      CondEval(e.c, e.yes, e.no, e.ty, env);
      CondEval(e.c, e.yes, e.no, ty, env);
    }
    WithinSelf(ty);
  }

  lemma FitInto(v: int, a: Type, b: Type)
    requires Within(a, b)
    ensures Fit(v, b) == Fit(v, a) <==> FitsInto(v, a, b)
  {
    hide Fit;
    if a.kind == KBool {
      ToBool(v, a);
      FitSelf(0, b);
    } else if InRange(Fit(v, b), a) {
      FitSelf(Fit(v, b), a);
      FitTwice(v, b, a);
    }
  }
}
