/**
 Constant folding, and the rules together, each with the condition under which it is right; any run of rewriting
 steps, each of one rule at any place of the tree, keeps the value of the expression.
 */
module Rewriting {
  import opened Arith
  import opened Bits
  import opened CTypes
  import opened Exprs
  import opened Optimizer
  import opened Promotions
  import opened Strength
  import opened Divisions
  import opened Comparisons
  import opened Retyping
  import Rules

  const NOWHERE: Env := _ => 0

  /** is_const_expr: for `?:`, the arm that is taken. */
  predicate IsConst(e: Expr) {
    match e
    case Num(_, _) => true
    case Var(_, _) => false
    case Cast(x, _) => IsConst(x)
    case Unary(_, x, _) => IsConst(x)
    case Binary(_, l, r, _) => IsConst(l) && IsConst(r)
    case Cond(c, yes, no, _) =>
      IsConst(c) && Eval(c, NOWHERE).Some? && (if Eval(c, NOWHERE).v != 0 then IsConst(yes) else IsConst(no))
  }

  lemma {:induction false} ConstEverywhere(e: Expr, env: Env)
    requires IsConst(e)
    ensures Eval(e, env) == Eval(e, NOWHERE)
  {
    hide Fit, Apply;
    match e
    case Num(_, _) =>
    case Cast(x, _) => ConstEverywhere(x, env);
    case Unary(_, x, _) => ConstEverywhere(x, env);
    case Binary(_, l, r, _) =>
      ConstEverywhere(l, env);
      ConstEverywhere(r, env);
    case Cond(c, yes, no, _) =>
      ConstEverywhere(c, env);
      if Eval(c, NOWHERE).v != 0 {
        ConstEverywhere(yes, env);
      } else {
        ConstEverywhere(no, env);
      }
  }

  /** optimize_const_expr; where the evaluation fails the compiler stops with an error. */
  function Fold(e: Expr): Rewrite {
    if !e.Num? && IsConst(e) && Eval(e, NOWHERE).Some? then To(Num(Eval(e, NOWHERE).v, e.ty)) else NoMatch
  }

  lemma FoldRight(e: Expr)
    requires WellTyped(e) && Fold(e).To?
    ensures Preserves(e, Fold(e).e)
  {
    hide Eval;
    var e' := Fold(e).e;
    Ranged(e, NOWHERE);
    forall env
      ensures SameValue(e, e', env)
    {
      ConstEverywhere(e, env);
      Literal(e', env);
    }
  }

  // ----- rules that hold under a condition -----

  predicate Safe(e: Expr) { e.Num? ==> IsLiteral(e) }

  /** The sum `x + 1` or `x - 1` does not leave its type. */
  predicate NoOverflow(s: Expr, env: Env)
    requires s.Binary?
  {
    Eval(s.l, env).Some? ==> Eval(s.l, env).v != Edge(s)
  }

  /** The count of a shift is made a byte. */
  function CountCast(e: Expr): Rewrite {
    if e.Binary? && (e.op == Shl || e.op == Shr) then To(Binary(e.op, e.l, NewCast(e.r, UCHAR), e.ty)) else NoMatch
  }

  predicate CountIsByte(e: Expr, env: Env)
    requires e.Binary?
  {
    Eval(e.r, env).Some? ==> 0 <= Eval(e.r, env).v <= 255
  }

  lemma CountCastAt(e: Expr, env: Env)
    requires WellTyped(e) && CountCast(e).To? && CountIsByte(e, env)
    ensures PreservesAt(e, CountCast(e).e, env)
  {
    hide Eval, NewCast, Apply, Fit;
    var r' := NewCast(e.r, UCHAR);
    NewCastRight(e.r, UCHAR, env);
    StrictEval(e.op, e.l, e.r, e.ty, env);
    StrictEval(e.op, e.l, r', e.ty, env);
    if Eval(e.r, env).Some? {
      FitSelf(Eval(e.r, env).v, UCHAR);
    }
    TypedBinary(e.op, e.l, r', e.ty);
    WithinSelf(e.ty);
  }

  lemma OneLeftAt(e: Expr, env: Env)
    requires WellTyped(e) && DropOneLeft(e).To? && Within(e.l.l.ty, e.l.ty) && Within(e.r.ty, e.l.ty) && NoOverflow(e.l, env)
    ensures PreservesAt(e, DropOneLeft(e).e, env)
  {
    hide Eval, Holds, Within, InRange;
    var e' := DropOneLeft(e).e;
    SumTyped(e);
    assert WellTyped(e.l.l);
    CompareEval(e.op, e.l, e.r, e.ty, env);
    CompareEval(e'.op, e'.l, e'.r, e.ty, env);
    StrictEval(e.l.op, e.l.l, e.l.r, e.l.ty, env);
    if Eval(e.l.l, env).Some? && Eval(e.r, env).Some? {
      DropOneLeftExact(e, env);
    }
    WithinSelf(e.ty);
  }

  lemma OneRightAt(e: Expr, env: Env)
    requires WellTyped(e) && DropOneRight(e).To? && Within(e.r.l.ty, e.r.ty) && Within(e.l.ty, e.r.ty) && NoOverflow(e.r, env)
    ensures PreservesAt(e, DropOneRight(e).e, env)
  {
    hide Eval, Holds, Within, InRange;
    var e' := DropOneRight(e).e;
    SumTyped(e);
    assert WellTyped(e.r.l);
    CompareEval(e.op, e.l, e.r, e.ty, env);
    CompareEval(e'.op, e'.l, e'.r, e.ty, env);
    StrictEval(e.r.op, e.r.l, e.r.r, e.r.ty, env);
    if Eval(e.r.l, env).Some? && Eval(e.l, env).Some? {
      DropOneRightExact(e, env);
    }
    WithinSelf(e.ty);
  }

  lemma ShiftOutAt(e: Expr, env: Env)
    requires WellTyped(e) && ShiftOut(e).To? && Safe(e.r)
    requires e.op == Shl || Eval(e.l, env).None? || Eval(e.l, env).v >= 0
    ensures PreservesAt(e, ShiftOut(e).e, env)
  {
    hide Eval, Within;
    StrictEval(e.op, e.l, e.r, e.ty, env);
    if Eval(e.l, env).Some? {
      ShiftOutExact(e, env);
    }
    WithinSelf(e.ty);
  }

  /** A simpler condition for `?:`, as optimize_condition makes it. */
  function SimplerCondition(e: Expr): Rewrite { if e.Cond? then To(Cond(Condition(e.c), e.yes, e.no, e.ty)) else NoMatch }

  lemma SimplerConditionAt(e: Expr, env: Env)
    requires WellTyped(e) && SimplerCondition(e).To?
    ensures PreservesAt(e, SimplerCondition(e).e, env)
  {
    hide Eval, Within, Condition, WellTyped;
    Children(e);
    ConditionRight(e.c, env);
    TypedCond(Condition(e.c), e.yes, e.no, e.ty);
    CondEval(e.c, e.yes, e.no, e.ty, env);
    CondEval(Condition(e.c), e.yes, e.no, e.ty, env);
    WithinSelf(e.ty);
  }

  lemma NotRuleAt(e: Expr, env: Env)
    requires WellTyped(e) && NotRule(e).To? && Safe(SkipPromotion(e.e)) && Within(NotRule(e).e.ty, e.ty)
    ensures PreservesAt(e, NotRule(e).e, env)
  {
    hide Eval, SameValue, NotRule;
    NotRuleValue(e, env);
  }

  // ----- all rules -----

  /** What a rule makes of an expression. */
  function Rewritten(rule: Rules.Rule, e: Expr): Rewrite {
    match rule
    case CastSame => CastSame(e)
    case CastOfCast => CastOfCast(e)
    case CastUnary => CastUnary(e)
    case CastBitsToInt => CastBitsToInt(e)
    case CastBitsToChar => CastBitsToChar(e)
    case CastPromoted => CastPromoted(e)
    case CastUints => CastUints(e)
    case CastNumLeft => CastNumLeft(e)
    case CastNumRight => CastNumRight(e)
    case CastRing => CastRing(e)
    case CastShl => CastShl(e)
    case CastNarrowBits => CastNarrowBits(e)
    case CastCond => CastCond(e)
    case CastLogic => CastLogic(e)
    case CastQuotient => CastQuotient(e)
    case SwapOperands => SwapOperands(e)
    case Promote => Promote(e)
    case BitsOfUchars => BitsOfUchars(e)
    case MaskByte => MaskByte(e)
    case MergeSums => MergeSums(e)
    case ZeroMinus => ZeroMinus(e)
    case MergeProducts => MergeProducts(e)
    case Distribute => Distribute(e)
    case MulShift => MulShift(e)
    case DivShift => DivShift(e)
    case ModMask => ModMask(e)
    case DivideUchars => DivideUchars(e)
    case ModChars => ModChars(e)
    case ShiftZero => ShiftZero(e)
    case ShrPromoted => ShrPromoted(e)
    case SwapCompare => SwapCompare(e)
    case NarrowBoth => NarrowBoth(e)
    case NarrowConst => NarrowConst(e)
    case NarrowUint => NarrowUint(e)
    case NextConst => NextConst(e)
    case NotRule => NotRule(e)
    case NotAsEq => NotAsEq(e)
    case LogicSkip => LogicSkip(e)
    case LogicConst => LogicConst(e)
    case Fold => Fold(e)
    case DropOneLeft => DropOneLeft(e)
    case DropOneRight => DropOneRight(e)
    case ShiftOut => ShiftOut(e)
    case CountCast => CountCast(e)
    case SimplerCondition => SimplerCondition(e)
    case BoolOfTruth => BoolOfTruth(e)
    case RetypeSum => RetypeSum(e)
    case SumOfTruths => SumOfTruths(e)
    case ShiftOfTruth => ShiftOfTruth(e)
    case RetypeArm(ty) => RetypeArm(e, ty)
  }

  /** The rules that ask for nothing: they are right for every typed expression and all values. */
  predicate AsksNothing(rule: Rules.Rule) {
    match rule
    case CastNumLeft => false
    case CastNumRight => false
    case MaskByte => false
    case MergeSums => false
    case MergeProducts => false
    case Distribute => false
    case MulShift => false
    case DivShift => false
    case ModMask => false
    case DivideUchars => false
    case ModChars => false
    case ShiftZero => false
    case NarrowConst => false
    case NarrowUint => false
    case NextConst => false
    case NotRule => false
    case LogicConst => false
    case DropOneLeft => false
    case DropOneRight => false
    case ShiftOut => false
    case CountCast => false
    case BoolOfTruth => false
    case RetypeSum => false
    case RetypeArm(_) => false
    case _ => true
  }

  /** What the others ask for: of literals and types, or of the values the variables have. */
  predicate Guard(rule: Rules.Rule, e: Expr, env: Env)
    requires Rewritten(rule, e).To?
  {
    match rule
    case CastNumLeft => IsNumber(e.e.l)
    case CastNumRight => IsNumber(e.e.r)
    case MaskByte => Safe(e.r)
    case MergeSums => Alike(e.l.ty, e.ty) && Counts(e.r, e.ty) && Counts(e.l.r, e.ty)
    case MergeProducts => e.l.ty.Size() >= e.ty.Size() && Counts(e.r, e.ty) && Counts(e.l.r, e.ty)
    case Distribute => e.l.ty.Size() >= e.ty.Size() && Counts(e.r, e.ty) && Counts(e.l.r, e.ty)
    case MulShift => CountsAs(e.r, e.ty) && e.r.val < 0x1_0000_0000_0000_0000
    case DivShift => IsNumber(e.r)
    case ModMask => IsNumber(e.r)
    case DivideUchars => Safe(e.r)
    case ModChars => Safe(e.r)
    case ShiftZero => Within(e.l.ty, e.ty)
    case NarrowConst => Safe(e.r) && Safe(e.l.e)
    case NarrowUint => Safe(e.r) && Safe(e.l.e)
    case NextConst => Safe(e.r) && MaxValue(e.l.ty) <= MaxValue(e.r.ty)
    case NotRule => Safe(SkipPromotion(e.e)) && Within(NotRule(e).e.ty, e.ty)
    case LogicConst => e.ty == INT && Safe(e.l) && Safe(e.r)
    case DropOneLeft => Within(e.l.l.ty, e.l.ty) && Within(e.r.ty, e.l.ty) && NoOverflow(e.l, env)
    case DropOneRight => Within(e.r.l.ty, e.r.ty) && Within(e.l.ty, e.r.ty) && NoOverflow(e.r, env)
    case ShiftOut => Safe(e.r) && (e.op == Shl || Eval(e.l, env).None? || Eval(e.l, env).v >= 0)
    case CountCast => CountIsByte(e, env)
    case BoolOfTruth => Within(e.e.ty, e.ty)
    case RetypeSum => RetypeSum(e).e.ty == e.ty
    case RetypeArm(ty) => Within(e.ty, ty) && ArmFits(e, ty, env)
    case _ => true
  }

  /** The type in which the result is to be read: an arm of `?:` is read in that of the whole. */
  function ReadIn(rule: Rules.Rule, e: Expr): Type { if rule.RetypeArm? then rule.ty else e.ty }

  predicate OnCasts(rule: Rules.Rule) {
    rule.CastSame? || rule.CastOfCast? || rule.CastUnary? || rule.CastBitsToInt? || rule.CastBitsToChar? || rule.CastPromoted?
    || rule.CastUints? || rule.CastNumLeft? || rule.CastNumRight? || rule.CastRing? || rule.CastShl? || rule.CastNarrowBits?
    || rule.CastCond? || rule.CastLogic? || rule.CastQuotient?
  }

  predicate OnArithmetic(rule: Rules.Rule) {
    rule.SwapOperands? || rule.Promote? || rule.BitsOfUchars? || rule.MaskByte? || rule.MergeSums? || rule.ZeroMinus?
    || rule.MergeProducts? || rule.Distribute? || rule.MulShift? || rule.DivShift? || rule.ModMask? || rule.DivideUchars?
    || rule.ModChars? || rule.ShiftZero? || rule.ShrPromoted?
  }

  predicate OnTruth(rule: Rules.Rule) {
    rule.SwapCompare? || rule.NarrowBoth? || rule.NarrowConst? || rule.NarrowUint? || rule.NextConst? || rule.LogicSkip?
    || rule.LogicConst? || rule.Fold?
  }

  lemma CastRight(rule: Rules.Rule, e: Expr, env: Env)
    requires OnCasts(rule) && WellTyped(e) && Rewritten(rule, e).To? && Guard(rule, e, env)
    ensures Preserves(e, Rewritten(rule, e).e)
  {
    hide Preserves, WellTyped, CastSame, CastOfCast, CastUnary, CastBitsToInt, CastBitsToChar, CastPromoted, CastUints,
      CastRing, CastShl, CastNarrowBits, CastCond, CastLogic, CastQuotient;
    match rule
    case CastSame => CastSameRight(e);
    case CastOfCast => CastOfCastRight(e);
    case CastUnary => CastUnaryRight(e);
    case CastBitsToInt => CastBitsToIntRight(e);
    case CastBitsToChar => CastBitsToCharRight(e);
    case CastPromoted => CastPromotedRight(e);
    case CastUints => CastUintsRight(e);
    case CastNumLeft => CastNumLeftRight(e);
    case CastNumRight => CastNumRightRight(e);
    case CastRing => CastRingRight(e);
    case CastShl => CastShlRight(e);
    case CastNarrowBits => CastNarrowBitsRight(e);
    case CastCond => CastCondRight(e);
    case CastLogic => CastLogicRight(e);
    case CastQuotient => CastQuotientRight(e);
  }

  lemma ArithmeticRight(rule: Rules.Rule, e: Expr, env: Env)
    requires OnArithmetic(rule) && WellTyped(e) && Rewritten(rule, e).To? && Guard(rule, e, env)
    ensures Preserves(e, Rewritten(rule, e).e)
  {
    hide Preserves, WellTyped, Promote, BitsOfUchars, ZeroMinus, ShrPromoted;
    match rule
    case SwapOperands => SwapOperandsRight(e);
    case Promote => PromoteRight(e);
    case BitsOfUchars => BitsOfUcharsRight(e);
    case MaskByte => MaskByteRight(e);
    case MergeSums => MergeSumsRight(e);
    case ZeroMinus => ZeroMinusRight(e);
    case MergeProducts => MergeProductsRight(e);
    case Distribute => DistributeRight(e);
    case MulShift => MulShiftRight(e);
    case DivShift => DivShiftRight(e);
    case ModMask => ModMaskRight(e);
    case DivideUchars => DivideUcharsRight(e);
    case ModChars => ModCharsRight(e);
    case ShiftZero => ShiftZeroRight(e);
    case ShrPromoted => ShrPromotedRight(e);
  }

  lemma TruthRight(rule: Rules.Rule, e: Expr, env: Env)
    requires OnTruth(rule) && WellTyped(e) && Rewritten(rule, e).To? && Guard(rule, e, env)
    ensures Preserves(e, Rewritten(rule, e).e)
  {
    hide Preserves, WellTyped, SwapCompare, NarrowBoth, LogicSkip, Fold, Eval, Within, NewCast;
    match rule
    case SwapCompare => SwapCompareRight(e);
    case NarrowBoth => NarrowBothRight(e);
    case NarrowConst => NarrowConstRight(e);
    case NarrowUint => NarrowUintRight(e);
    case NextConst => NextConstRight(e);
    case LogicSkip => LogicSkipRight(e);
    case LogicConst => LogicConstRight(e);
    case Fold => FoldRight(e);
  }

  /** Every rule keeps the value where its guard holds. */
  lemma RuleRight(rule: Rules.Rule, e: Expr, env: Env)
    requires WellTyped(e) && Rewritten(rule, e).To? && Guard(rule, e, env)
    ensures PreservesAs(e, Rewritten(rule, e).e, ReadIn(rule, e), env)
  {
    hide Preserves, PreservesAs, WellTyped, Within, NoOverflow, Eval, Condition;
    if OnCasts(rule) {
      CastRight(rule, e, env);
      Everywhere(e, Rewritten(rule, e).e, env);
    } else if OnArithmetic(rule) {
      ArithmeticRight(rule, e, env);
      Everywhere(e, Rewritten(rule, e).e, env);
    } else if OnTruth(rule) {
      TruthRight(rule, e, env);
      Everywhere(e, Rewritten(rule, e).e, env);
    } else {
      match rule
      case NotRule => NotRuleAt(e, env);
      case NotAsEq => NotAsEqRight(e, env);
      case DropOneLeft => OneLeftAt(e, env);
      case DropOneRight => OneRightAt(e, env);
      case ShiftOut => ShiftOutAt(e, env);
      case CountCast => CountCastAt(e, env);
      case SimplerCondition => SimplerConditionAt(e, env);
      case BoolOfTruth => BoolOfTruthExact(e, env);
      case RetypeSum => RetypeSumExact(e, env);
      case SumOfTruths => SumOfTruthsRight(e, env);
      case ShiftOfTruth => ShiftOfTruthRight(e, env);
      case RetypeArm(ty) => RetypeArmExact(e, ty, env);
    }
  }

  lemma NothingAsked(rule: Rules.Rule, e: Expr, env: Env)
    requires Rewritten(rule, e).To? && AsksNothing(rule)
    ensures Guard(rule, e, env) && ReadIn(rule, e) == e.ty
  {
    hide Rewritten;
  }

  /** So the rules that ask for nothing keep it always. */
  lemma AskingNothing(rule: Rules.Rule, e: Expr)
    requires WellTyped(e) && Rewritten(rule, e).To? && AsksNothing(rule)
    ensures Preserves(e, Rewritten(rule, e).e)
  {
    hide Rewritten, AsksNothing, Guard, ReadIn, WellTyped, SameValue, Within;
    var e' := Rewritten(rule, e).e;
    forall env
      ensures WellTyped(e') && Within(e'.ty, e.ty) && SameValue(e, e', env)
    {
      NothingAsked(rule, e, env);
      RuleRight(rule, e, env);
    }
    assert SameValue(e, e', NOWHERE);
  }

  // ----- at any place -----

  /** One rule at the root, where these values meet its guard, and no type is widened. */
  ghost predicate Fires(e: Expr, e': Expr, env: Env) {
    exists rule :: Rewritten(rule, e) == To(e') && Guard(rule, e, env) && Within(ReadIn(rule, e), e.ty)
  }

  /** One rule, at the root or somewhere below. */
  ghost predicate StepAt(e: Expr, e': Expr, env: Env) {
    Fires(e, e', env) ||
    match e
    case Num(_, _) => false
    case Var(_, _) => false
    case Cast(x, ty) => e'.Cast? && e' == Cast(e'.e, ty) && StepAt(x, e'.e, env)
    case Unary(op, x, ty) => e'.Unary? && e' == Unary(op, e'.e, ty) && StepAt(x, e'.e, env)
    case Binary(op, l, r, ty) =>
      || (e'.Binary? && e' == Binary(op, e'.l, r, ty) && StepAt(l, e'.l, env))
      || (e'.Binary? && e' == Binary(op, l, e'.r, ty) && StepAt(r, e'.r, env))
    case Cond(c, yes, no, ty) =>
      || (e'.Cond? && e' == Cond(e'.c, yes, no, ty) && StepAt(c, e'.c, env))
      || (e'.Cond? && e' == Cond(c, e'.yes, no, ty) && StepAt(yes, e'.yes, env))
      || (e'.Cond? && e' == Cond(c, yes, e'.no, ty) && StepAt(no, e'.no, env))
  }

  lemma FiresRight(e: Expr, e': Expr, env: Env)
    requires WellTyped(e) && Fires(e, e', env)
    ensures PreservesAt(e, e', env)
  {
    hide Rewritten, Guard, WellTyped, SameValue;
    var rule :| Rewritten(rule, e) == To(e') && Guard(rule, e, env) && Within(ReadIn(rule, e), e.ty);
    RuleRight(rule, e, env);
    WithinTrans(e'.ty, ReadIn(rule, e), e.ty);
  }

  lemma UnderCast(x: Expr, x': Expr, ty: Type, env: Env)
    requires WellTyped(Cast(x, ty)) && PreservesAt(x, x', env)
    ensures PreservesAt(Cast(x, ty), Cast(x', ty), env)
  {
    hide Eval, Fit;
    CastOver(x, x', ty, env);
  }

  lemma UnderUnary(op: UnaryOp, x: Expr, x': Expr, ty: Type, env: Env)
    requires WellTyped(Unary(op, x, ty)) && PreservesAt(x, x', env)
    ensures PreservesAt(Unary(op, x, ty), Unary(op, x', ty), env)
  {
    hide Eval, UnaryValue;
    UnaryEval(op, x, ty, env);
    UnaryEval(op, x', ty, env);
  }

  lemma WithinTrans(a: Type, b: Type, c: Type)
    requires Within(a, b) && Within(b, c)
    ensures Within(a, c)
  {
  }

  lemma OperandsToo(op: BinaryOp, l: Type, r: Type, l': Type, r': Type, ty: Type)
    requires Operands(op, l, r, ty) && Within(l', l) && Within(r', r)
    ensures Operands(op, l', r', ty)
  {
  }

  lemma BinaryTyped(e: Expr, e': Expr)
    requires WellTyped(e) && e.Binary? && e'.Binary? && e'.op == e.op && e'.ty == e.ty
    requires WellTyped(e'.l) && WellTyped(e'.r) && Within(e'.l.ty, e.l.ty) && Within(e'.r.ty, e.r.ty)
    ensures WellTyped(e')
  {
    hide Operands, Within, WellTyped;
    Children(e);
    OperandsToo(e.op, e.l.ty, e.r.ty, e'.l.ty, e'.r.ty, e.ty);
    TypedBinary(e.op, e'.l, e'.r, e.ty);
  }

  lemma TypedBinary(op: BinaryOp, l: Expr, r: Expr, ty: Type)
    requires WellTyped(l) && WellTyped(r) && Operands(op, l.ty, r.ty, ty)
    ensures WellTyped(Binary(op, l, r, ty))
  {
    hide Operands;
  }

  lemma UnderBinary(op: BinaryOp, l: Expr, r: Expr, l': Expr, r': Expr, ty: Type, env: Env)
    requires WellTyped(Binary(op, l, r, ty)) && PreservesAt(l, l', env) && PreservesAt(r, r', env)
    ensures PreservesAt(Binary(op, l, r, ty), Binary(op, l', r', ty), env)
  {
    hide Eval, Apply, WellTyped;
    BinaryTyped(Binary(op, l, r, ty), Binary(op, l', r', ty));
    BinaryOver(op, l, r, l', r', ty, env);
  }

  lemma BinaryOver(op: BinaryOp, l: Expr, r: Expr, l': Expr, r': Expr, ty: Type, env: Env)
    requires SameValue(l, l', env) && SameValue(r, r', env) && l.ty.unsigned == l'.ty.unsigned
    ensures SameValue(Binary(op, l, r, ty), Binary(op, l', r', ty), env)
  {
    hide Eval, Apply;
    if IsLogical(op) {
      LogicalEval(op, l, r, ty, env);
      LogicalEval(op, l', r', ty, env);
    } else {
      StrictEval(op, l, r, ty, env);
      StrictEval(op, l', r', ty, env);
      if Eval(l, env).Some? && Eval(r, env).Some? {
        LeftSignOnly(op, Eval(l, env).v, Eval(r, env).v, l.ty, l'.ty, ty);
      }
    }
  }

  /** Of the left operand's type only the sign matters. */
  lemma LeftSignOnly(op: BinaryOp, x: int, y: int, a: Type, b: Type, ty: Type)
    requires a.unsigned == b.unsigned
    ensures Apply(op, x, y, a, ty) == Apply(op, x, y, b, ty)
  {
    hide Fit, RingValue, Pow2, Trunc, Rem, Unsigned;
  }

  lemma CondTyped(c: Expr, yes: Expr, no: Expr, c': Expr, yes': Expr, no': Expr, ty: Type)
    requires WellTyped(Cond(c, yes, no, ty)) && WellTyped(c') && WellTyped(yes') && WellTyped(no')
    requires Within(yes'.ty, yes.ty) && Within(no'.ty, no.ty)
    ensures WellTyped(Cond(c', yes', no', ty))
  {
    hide Within, Operands, WellTyped;
    Children(Cond(c, yes, no, ty));
    WithinTrans(yes'.ty, yes.ty, ty);
    WithinTrans(no'.ty, no.ty, ty);
    TypedCond(c', yes', no', ty);
  }

  lemma TypedCond(c: Expr, yes: Expr, no: Expr, ty: Type)
    requires WellTyped(c) && WellTyped(yes) && WellTyped(no) && Within(yes.ty, ty) && Within(no.ty, ty)
    ensures WellTyped(Cond(c, yes, no, ty))
  {
    hide Within, Operands;
  }

  lemma UnderCond(c: Expr, yes: Expr, no: Expr, c': Expr, yes': Expr, no': Expr, ty: Type, env: Env)
    requires WellTyped(Cond(c, yes, no, ty)) && PreservesAt(c, c', env) && PreservesAt(yes, yes', env) && PreservesAt(no, no', env)
    ensures PreservesAt(Cond(c, yes, no, ty), Cond(c', yes', no', ty), env)
  {
    hide Eval, WellTyped;
    CondTyped(c, yes, no, c', yes', no', ty);
    CondEval(c, yes, no, ty, env);
    CondEval(c', yes', no', ty, env);
  }

  lemma PreservesSelf(e: Expr, env: Env)
    requires WellTyped(e)
    ensures PreservesAt(e, e, env)
  {
  }

  lemma PreservesTrans(a: Expr, b: Expr, c: Expr, env: Env)
    requires PreservesAt(a, b, env) && PreservesAt(b, c, env)
    ensures PreservesAt(a, c, env)
  {
    hide Eval, WellTyped;
  }

  lemma Everywhere(e: Expr, e': Expr, env: Env)
    requires Preserves(e, e')
    ensures PreservesAt(e, e', env)
  {
  }

  lemma Children(e: Expr)
    requires WellTyped(e)
    ensures e.Cast? || e.Unary? ==> WellTyped(e.e)
    ensures e.Binary? ==> WellTyped(e.l) && WellTyped(e.r) && Operands(e.op, e.l.ty, e.r.ty, e.ty)
    ensures e.Cond? ==> WellTyped(e.c) && WellTyped(e.yes) && WellTyped(e.no) && Within(e.yes.ty, e.ty) && Within(e.no.ty, e.ty)
  {
    hide Operands, Within;
  }

  /** One step keeps type and value. */
  lemma {:induction false} StepRight(e: Expr, e': Expr, env: Env)
    requires WellTyped(e) && StepAt(e, e', env)
    ensures PreservesAt(e, e', env)
    decreases e, 1
  {
    hide PreservesAt, WellTyped, Fires;
    Children(e);
    if Fires(e, e', env) {
      FiresRight(e, e', env);
    } else if e.Cast? {
      StepRight(e.e, e'.e, env);
      UnderCast(e.e, e'.e, e.ty, env);
    } else if e.Unary? {
      StepRight(e.e, e'.e, env);
      UnderUnary(e.uop, e.e, e'.e, e.ty, env);
    } else if e.Binary? {
      StepBinary(e, e', env);
    } else {
      StepCond(e, e', env);
    }
  }

  lemma {:induction false} StepBinary(e: Expr, e': Expr, env: Env)
    requires WellTyped(e) && e.Binary? && e'.Binary? && e' == Binary(e.op, e'.l, e'.r, e.ty)
    requires (e'.r == e.r && StepAt(e.l, e'.l, env)) || (e'.l == e.l && StepAt(e.r, e'.r, env))
    ensures PreservesAt(e, e', env)
    decreases e, 0
  {
    hide PreservesAt, WellTyped, StepAt;
    Children(e);
    if e'.r == e.r && StepAt(e.l, e'.l, env) {
      StepRight(e.l, e'.l, env);
      PreservesSelf(e.r, env);
    } else {
      StepRight(e.r, e'.r, env);
      PreservesSelf(e.l, env);
    }
    UnderBinary(e.op, e.l, e.r, e'.l, e'.r, e.ty, env);
  }

  lemma {:induction false} StepCond(e: Expr, e': Expr, env: Env)
    requires WellTyped(e) && e.Cond? && e'.Cond? && e'.ty == e.ty
    requires (StepAt(e.c, e'.c, env) && e'.yes == e.yes && e'.no == e.no)
             || (e'.c == e.c && StepAt(e.yes, e'.yes, env) && e'.no == e.no)
             || (e'.c == e.c && e'.yes == e.yes && StepAt(e.no, e'.no, env))
    ensures PreservesAt(e, e', env)
    decreases e, 0
  {
    hide PreservesAt, WellTyped, StepAt;
    Children(e);
    PreservesSelf(e.c, env);
    PreservesSelf(e.yes, env);
    PreservesSelf(e.no, env);
    if StepAt(e.c, e'.c, env) && e'.yes == e.yes && e'.no == e.no {
      StepRight(e.c, e'.c, env);
    } else if e'.c == e.c && StepAt(e.yes, e'.yes, env) && e'.no == e.no {
      StepRight(e.yes, e'.yes, env);
    } else {
      StepRight(e.no, e'.no, env);
    }
    UnderCond(e.c, e.yes, e.no, e'.c, e'.yes, e'.no, e.ty, env);
  }

  ghost predicate IsRunAt(run: seq<Expr>, env: Env) { |run| > 0 && forall i :: 0 < i < |run| ==> StepAt(run[i - 1], run[i], env) }

  /**
   Whatever the optimizer does with these rules, where every rule with a condition has fired under it, the last
   expression has the value of the first.
   */
  lemma {:induction false} EveryRunPreservesAt(run: seq<Expr>, env: Env)
    requires IsRunAt(run, env) && WellTyped(run[0])
    ensures PreservesAt(run[0], run[|run| - 1], env)
  {
    hide PreservesAt, WellTyped, StepAt;
    var n := |run| - 1;
    if n == 0 {
      PreservesSelf(run[0], env);
    } else {
      EveryRunPreservesAt(run[..n], env);
      assert StepAt(run[n - 1], run[n], env);
      Typed(run[0], run[n - 1], env);
      StepRight(run[n - 1], run[n], env);
      PreservesTrans(run[0], run[n - 1], run[n], env);
    }
  }

  lemma Typed(e: Expr, e': Expr, env: Env)
    requires PreservesAt(e, e', env)
    ensures WellTyped(e')
  {
  }

  /** A run whose conditions hold for all values keeps all values. */
  lemma EveryRunPreserves(run: seq<Expr>)
    requires (forall env: Env :: IsRunAt(run, env)) && |run| > 0 && WellTyped(run[0])
    ensures Preserves(run[0], run[|run| - 1])
  {
    hide WellTyped, StepAt, Eval;
    var first, last := run[0], run[|run| - 1];
    forall env: Env
      ensures SameValue(first, last, env)
    {
      EveryRunPreservesAt(run, env);
    }
    EveryRunPreservesAt(run, NOWHERE);
  }
}
