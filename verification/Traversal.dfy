/**
 The traversal of optimize_expr and optimize_condition (optimize.c): the operands first, then the rules for the
 node in their order, some of whose results are optimized again. What a rule was applied to is kept as a trail.
 */
module Traversal {
  import opened Arith
  import opened Bits
  import opened CTypes
  import opened Exprs
  import opened Optimizer
  import opened Promotions
  import opened Strength
  import opened Divisions
  import opened Comparisons
  import opened Retyping
  import opened Rewriting
  import Rules

  /** One rule applied: to which expression, and what it has made of it. */
  datatype Fired = Fired(rule: Rules.Rule, before: Expr, after: Expr)

  datatype Trail = Trail(e: Expr, steps: seq<Fired>) {
    function By(rule: Rules.Rule): Trail {
      var r := Rewritten(rule, e);
      if r.To? then Trail(r.e, steps + [Fired(rule, e, r.e)]) else this
    }
  }

  /** It gives up where the fuel ends or a constant has no value, which stops the compiler. */
  datatype Visited = GaveUp | Got(t: Trail) {
    predicate IsFailure() { GaveUp? }

    function PropagateFailure(): Visited
      requires IsFailure()
    {
      this
    }

    function Extract(): Trail
      requires !IsFailure()
    {
      t
    }
  }

  /** node_cost, what can be reached with X pointing to it, -fwrapv and -Os. */
  datatype Setup = Setup(cost: Expr -> int, near: Expr -> bool, wrapv: bool, small: bool)

  // ----- the nodes -----

  /** optimize_const_expr */
  function Folded(t: Trail): Visited {
    if !t.e.Num? && IsConst(t.e) && Eval(t.e, NOWHERE).None? then GaveUp else Got(t.By(Rules.Fold))
  }

  function Visit(e: Expr, g: Setup, fuel: nat): Visited
    decreases fuel, 0, e
  {
    if fuel == 0 then GaveUp
    else if !e.Num? && IsConst(e) then Folded(Trail(e, []))
    else match e
      case Num(_, _) => Got(Trail(e, []))
      case Var(_, _) => Got(Trail(e, []))
      case Cast(x, ty) =>
        var v :- Visit(x, g, fuel - 1);
        AtCast(Trail(Cast(v.e, ty), v.steps), g, fuel - 1)
      case Unary(op, x, ty) =>
        var v :- Visit(x, g, fuel - 1);
        AtUnary(Trail(Unary(op, v.e, ty), v.steps), g, fuel - 1)
      case Binary(op, l, r, ty) =>
        var v :- Visit(l, g, fuel - 1);
        if op == Shl || op == Shr then AtShift(Trail(Binary(op, v.e, r, ty), v.steps), g, fuel - 1)
        else
          var w :- Visit(r, g, fuel - 1);
          AtBinary(Trail(Binary(op, v.e, w.e, ty), v.steps + w.steps), g, fuel - 1)
      case Cond(c, yes, no, ty) =>
        var u :- VisitCondition(c, g, fuel - 1);
        var v :- Visit(yes, g, fuel - 1);
        var w :- Visit(no, g, fuel - 1);
        var v' :- Arm(v, ty, g, fuel - 1);
        var w' :- Arm(w, ty, g, fuel - 1);
        Got(Trail(Cond(u.e, v'.e, w'.e, ty), u.steps + (v'.steps + w'.steps)))
  }

  /** The result is optimized again. */
  function Again(t: Trail, g: Setup, fuel: nat): Visited
    decreases fuel, 1
  {
    var v :- Visit(t.e, g, fuel);
    Got(Trail(v.e, t.steps + v.steps))
  }

  /** An arm that is a cast or a `?:` itself gets the type of the whole and is optimized again. */
  function Arm(t: Trail, ty: Type, g: Setup, fuel: nat): Visited
    decreases fuel, 2
  {
    if !(t.e.Cast? || t.e.Cond?) then Got(t)
    else Again(if t.e.ty == ty then t else t.By(Rules.RetypeArm(ty)), g, fuel)
  }

  function AtCast(t: Trail, g: Setup, fuel: nat): Visited
    requires t.e.Cast?
    decreases fuel, 2
  {
    var e := t.e;
    if CastSame(e).To? then Got(t.By(Rules.CastSame))
    else if BoolOfTruth(e).To? then Got(t.By(Rules.BoolOfTruth))
    else if CastLogic(e).To? then Again(t.By(Rules.CastLogic), g, fuel)
    else if CastOfCast(e).To? then Got(t.By(Rules.CastOfCast))
    else if CastUnary(e).To? then Got(t.By(Rules.CastUnary))
    else if CastBitsToInt(e).To? then Folded(t.By(Rules.CastBitsToInt))
    else if CastBitsToChar(e).To? then Folded(t.By(Rules.CastBitsToChar))
    else if CastPromoted(e).To? then Folded(t.By(Rules.CastPromoted))
    else if CastUints(e).To? then Folded(t.By(Rules.CastUints))
    else if RetypeSum(e).To? then Folded(t.By(Rules.RetypeSum))
    else if CastNumLeft(e).To? then Got(t.By(Rules.CastNumLeft))
    else if CastNumRight(e).To? then Got(t.By(Rules.CastNumRight))
    else if CastShl(e).To? then Again(t.By(Rules.CastShl), g, fuel)
    else if CastRing(e).To? then Again(t.By(Rules.CastRing), g, fuel)
    else if CastQuotient(e).To? then Got(t.By(Rules.CastQuotient))
    else if CastNarrowBits(e).To? then Again(t.By(Rules.CastNarrowBits), g, fuel)
    else if CastCond(e).To? then Arms(t.By(Rules.CastCond), g, fuel)
    else Folded(t)
  }

  function Arms(t: Trail, g: Setup, fuel: nat): Visited
    requires t.e.Cond?
    decreases fuel, 1
  {
    var v :- Visit(t.e.yes, g, fuel);
    var w :- Visit(t.e.no, g, fuel);
    Got(Trail(Cond(t.e.c, v.e, w.e, t.e.ty), t.steps + (v.steps + w.steps)))
  }

  function AtUnary(t: Trail, g: Setup, fuel: nat): Visited
    requires t.e.Unary?
    decreases fuel, 3
  {
    if t.e.uop == Not then AtNot(t, g, fuel)
    else if t.e.uop == BitNot || t.e.e.Num? then Folded(t)
    else Got(t)
  }

  /** The cases of NotRule, of which all but a literal and the bare `!` are optimized again. */
  function AtNot(t: Trail, g: Setup, fuel: nat): Visited
    requires t.e.Unary? && t.e.uop == Not
    decreases fuel, 2
  {
    var x, u := SkipPromotion(t.e.e), t.By(Rules.NotRule);
    if Compares(x) || (x.Unary? && x.uop == Not) || DeMorgan(x).To? then Again(u, g, fuel)
    else if x.Num? then Got(u)
    else if g.small then Got(u.By(Rules.NotAsEq))
    else Folded(u)
  }

  function AtBinary(t: Trail, g: Setup, fuel: nat): Visited
    requires t.e.Binary? && t.e.op != Shl && t.e.op != Shr
    decreases fuel, 9
  {
    var op := t.e.op;
    if IsCompare(op) then AtCompare(t, g, fuel)
    else if IsLogical(op) then AtLogic(t, g, fuel)
    else if op == Sub then AtDifference(t)
    else if op == Div || op == Mod then AtQuotient(t, g, fuel)
    else if op == Add then AtSum(Cheaper(t, g), g, fuel)
    else if op == Mul then AtProduct(Cheaper(t, g), g, fuel)
    else AtBits(Cheaper(t, g), g, fuel)
  }

  /** swap_lr: the costlier operand goes left. */
  function Cheaper(t: Trail, g: Setup): Trail
    requires t.e.Binary?
  {
    if g.cost(t.e.l) < g.cost(t.e.r) then t.By(Rules.SwapOperands) else t
  }

  predicate BothNum(e: Expr)
    requires e.Binary?
  {
    e.l.Num? && e.r.Num?
  }

  function AtSum(t: Trail, g: Setup, fuel: nat): Visited
    requires t.e.Binary?
    decreases fuel, 2
  {
    if SumOfTruths(t.e).To? then Again(t.By(Rules.SumOfTruths), g, fuel)
    else if BothNum(t.e) then Folded(t)
    else Got(t.By(Rules.MergeSums))
  }

  function AtDifference(t: Trail): Visited
    requires t.e.Binary?
  {
    if BothNum(t.e) then Folded(t)
    else if ZeroMinus(t.e).To? then Got(t.By(Rules.ZeroMinus))
    else Got(t.By(Rules.MergeSums))
  }

  function AtProduct(t: Trail, g: Setup, fuel: nat): Visited
    requires t.e.Binary?
    decreases fuel, 2
  {
    if BothNum(t.e) then Folded(t)
    else if MergeProducts(t.e).To? then Again(t.By(Rules.MergeProducts), g, fuel)
    else if Distribute(t.e).To? then Folded(t.By(Rules.Distribute))
    else if MulShift(t.e).To? then Again(t.By(Rules.MulShift), g, fuel)
    else Got(t)
  }

  function AtQuotient(t: Trail, g: Setup, fuel: nat): Visited
    requires t.e.Binary?
    decreases fuel, 2
  {
    if BothNum(t.e) then Folded(t)
    else if DivShift(t.e).To? then Again(t.By(Rules.DivShift), g, fuel)
    else if ModMask(t.e).To? then Again(t.By(Rules.ModMask), g, fuel)
    else if DivideUchars(t.e).To? then Again(t.By(Rules.DivideUchars), g, fuel)
    else if ModChars(t.e).To? then Again(t.By(Rules.ModChars), g, fuel)
    else Got(t)
  }

  function AtBits(t: Trail, g: Setup, fuel: nat): Visited
    requires t.e.Binary?
    decreases fuel, 4
  {
    if BitsOfUchars(t.e).To? then Again(t.By(Rules.BitsOfUchars), g, fuel)
    else
      var u :- PromoteAll(t, g, fuel);
      if t.e.op == And && MaskByte(u.e).To? then Again(u.By(Rules.MaskByte), g, fuel) else Got(u)
  }

  predicate IsBits(e: Expr) { e.Binary? && IsBitwise(e.op) }

  /** x & ~m of promoted bytes, the operands in either order */
  predicate MaskedOut(e: Expr) {
    IsBits(e) && e.op == And && ((e.r.Unary? && e.r.uop == BitNot && IsPromotion(e.r.e) && IsPromotion(e.l) && e.l.e.ty.unsigned)
                              || (e.l.Unary? && e.l.uop == BitNot && IsPromotion(e.l.e) && IsPromotion(e.r) && e.r.e.ty.unsigned))
  }

  /** optimize_bitop_integral_promotion: nested operations first. */
  function PromoteAll(t: Trail, g: Setup, fuel: nat): Visited
    requires t.e.Binary?
    decreases fuel, 3, t.e
  {
    if t.e.ty != INT then Got(t)
    else
      var v :- if IsBits(t.e.l) then PromoteAll(Trail(t.e.l, []), g, fuel) else Got(Trail(t.e.l, []));
      var w :- if IsBits(t.e.r) then PromoteAll(Trail(t.e.r, []), g, fuel) else Got(Trail(t.e.r, []));
      var u := Trail(Binary(t.e.op, v.e, w.e, t.e.ty), t.steps + (v.steps + w.steps));
      var p := u.By(Rules.Promote);
      if MaskedOut(u.e) && p.e.Cast? && p.e.e.Binary? then OperandsAgain(p, g, fuel) else Folded(p)
  }

  /** There the operands are optimized again, below the new cast. */
  function OperandsAgain(t: Trail, g: Setup, fuel: nat): Visited
    requires t.e.Cast? && t.e.e.Binary?
    decreases fuel, 2
  {
    var b := t.e.e;
    var v :- Visit(b.l, g, fuel);
    var w :- Visit(b.r, g, fuel);
    var c := Cheaper(Trail(Binary(b.op, v.e, w.e, b.ty), v.steps + w.steps), g);
    Folded(Trail(Cast(c.e, t.e.ty), t.steps + c.steps))
  }

  function AtLogic(t: Trail, g: Setup, fuel: nat): Visited
    requires t.e.Binary?
    decreases fuel, 2
  {
    var u := t.By(Rules.LogicSkip);
    var r := LogicConst(u.e);
    if r.NoMatch? then Folded(u)
    else if r.e.Num? then Got(u.By(Rules.LogicConst))
    else Again(u.By(Rules.LogicConst), g, fuel)
  }

  function AtCompare(t: Trail, g: Setup, fuel: nat): Visited
    requires t.e.Binary?
    decreases fuel, 3
  {
    var t1 := if g.cost(t.e.l) < g.cost(t.e.r) then t.By(Rules.SwapCompare) else t;
    var t2 :- if g.wrapv then Got(t1) else DropLeft(t1, g, fuel);
    var t3 :- if g.wrapv then Got(t2) else DropRight(t2, g, fuel);
    var t4 := t3.By(Rules.NarrowBoth);
    var t5 := t4.By(Rules.NarrowConst);
    var t6 := t5.By(Rules.NarrowUint);
    var t7 := t6.By(Rules.NextConst);
    Folded(if SwapsLast(t7.e, g) then t7.By(Rules.SwapCompare) else t7)
  }

  predicate SwapsLast(e: Expr, g: Setup) {
    e.Binary? && (e.op == Le || e.op == Gt) && e.l.ty.kind != KChar && (g.cost(e.l) == g.cost(e.r) || g.near(e.l))
  }

  function DropLeft(t: Trail, g: Setup, fuel: nat): Visited
    decreases fuel, 2
  {
    var u := t.By(Rules.DropOneLeft);
    if DropOneLeft(t.e).NoMatch? || !u.e.Binary? then Got(t)
    else
      var v :- Visit(u.e.l, g, fuel);
      Got(Trail(Binary(u.e.op, v.e, u.e.r, u.e.ty), u.steps + v.steps))
  }

  function DropRight(t: Trail, g: Setup, fuel: nat): Visited
    decreases fuel, 2
  {
    var u := t.By(Rules.DropOneRight);
    if DropOneRight(t.e).NoMatch? || !u.e.Binary? then Got(t)
    else
      var v :- Visit(u.e.r, g, fuel);
      Got(Trail(Binary(u.e.op, u.e.l, v.e, u.e.ty), u.steps + v.steps))
  }

  /** The count is made a byte. */
  function AtShift(t: Trail, g: Setup, fuel: nat): Visited
    requires t.e.Binary?
    decreases fuel, 3
  {
    var u := t.By(Rules.CountCast);
    var v :- Visit(u.e.r, g, fuel);
    ShiftBy(Trail(Binary(u.e.op, u.e.l, v.e, u.e.ty), u.steps + v.steps), g, fuel)
  }

  function ShiftBy(t: Trail, g: Setup, fuel: nat): Visited
    decreases fuel, 2
  {
    if ShiftZero(t.e).To? then Got(t.By(Rules.ShiftZero))
    else if ShiftOut(t.e).To? then Got(t.By(Rules.ShiftOut))
    else if ShiftOfTruth(t.e).To? then Again(t.By(Rules.ShiftOfTruth), g, fuel)
    else if ShrPromoted(t.e).To? then Got(t.By(Rules.ShrPromoted))
    else Folded(t)
  }

  // ----- conditions -----

  predicate NotNot(e: Expr) { e.Unary? && e.uop == Not && e.e.Unary? && e.e.uop == Not }

  /** optimize_condition: its own steps keep the truth only. */
  function VisitCondition(e: Expr, g: Setup, fuel: nat): Visited
    decreases fuel, 1, 9
  {
    if fuel == 0 then GaveUp
    else
      var t :- Visit(e, g, fuel - 1);
      var t1 :- if t.e.Binary? && IsLogical(t.e.op) then BothConditions(t, g, fuel) else Got(t);
      AfterConnectives(t1, g, fuel)
  }

  /** The steps behind the connectives. */
  function AfterConnectives(t1: Trail, g: Setup, fuel: nat): Visited
    requires fuel > 0
    decreases fuel, 1, 3
  {
    var t2 :- if NotNot(t1.e) then OnCondition(t1, t1.e.e.e, g, fuel) else Got(t1);
    var t3 :- if t2.e.Binary? && t2.e.op == Eq && IsZero(t2.e.r) then NegatedCondition(t2, g, fuel) else Got(t2);
    var t4 :- if t3.e.Binary? && t3.e.op == Ne && IsZero(t3.e.r) then OnCondition(t3, t3.e.l, g, fuel) else Got(t3);
    var t5 :- if t4.e.Cast? && t4.e.ty.kind == KBool then OnCondition(t4, t4.e.e, g, fuel) else Got(t4);
    Got(if t5.e.Cast? && t5.e.ty.Size() >= t5.e.e.ty.Size() then Trail(t5.e.e, t5.steps) else t5)
  }

  /** The condition is replaced by a part of it, as a condition. */
  function OnCondition(t: Trail, x: Expr, g: Setup, fuel: nat): Visited
    requires fuel > 0
    decreases fuel, 1, 1
  {
    var v :- VisitCondition(x, g, fuel - 1);
    Got(Trail(v.e, t.steps + v.steps))
  }

  function NegatedCondition(t: Trail, g: Setup, fuel: nat): Visited
    requires t.e.Binary? && fuel > 0
    decreases fuel, 1, 2
  {
    var v :- OnCondition(t, t.e.l, g, fuel);
    Got(if v.e.Unary? && v.e.uop == Not then Trail(v.e.e, v.steps) else Trail(Unary(Not, v.e, BOOL), v.steps))
  }

  function BothConditions(t: Trail, g: Setup, fuel: nat): Visited
    requires t.e.Binary? && fuel > 0
    decreases fuel, 1, 1
  {
    var v :- VisitCondition(t.e.l, g, fuel - 1);
    var w :- VisitCondition(t.e.r, g, fuel - 1);
    Got(Trail(Binary(t.e.op, v.e, w.e, t.e.ty), t.steps + (v.steps + w.steps)))
  }

  // ----- what every visit keeps -----

  /** The step is one of its rule: to that expression the rule makes this of it. */
  predicate Applied(f: Fired) { Rewritten(f.rule, f.before) == To(f.after) }

  predicate AllApplied(steps: seq<Fired>, g: Setup) { forall f :: f in steps ==> Applied(f) && Due(f.rule, f.before, g) }

  /** Some rules wait for an option, or for the costs of the operands. */
  predicate Due(rule: Rules.Rule, e: Expr, g: Setup) {
    match rule
    case DropOneLeft => !g.wrapv
    case DropOneRight => !g.wrapv
    case NotAsEq => g.small
    case SwapOperands => e.Binary? && g.cost(e.l) < g.cost(e.r)
    case SwapCompare => (e.Binary? && g.cost(e.l) < g.cost(e.r)) || SwapsLast(e, g)
    case _ => true
  }

  /** What the rule asks for holds where the variables have these values. */
  predicate Granted(f: Fired, env: Env) { Applied(f) ==> Guard(f.rule, f.before, env) }

  predicate AllGranted(steps: seq<Fired>, env: Env) { forall f :: f in steps ==> Granted(f, env) }

  /** The trail goes on, by steps of rules, and if all of it is granted the value is kept. */
  predicate Kept(t: Trail, t': Trail, g: Setup, env: Env) {
    && t.steps <= t'.steps && (AllApplied(t.steps, g) ==> AllApplied(t'.steps, g))
    && (AllApplied(t.steps, g) && AllGranted(t'.steps, env) && WellTyped(t.e) ==> PreservesAt(t.e, t'.e, env))
  }

  predicate Keeps(t: Trail, v: Visited, g: Setup, env: Env) { v.Got? ==> Kept(t, v.t, g, env) }

  lemma KeptSelf(t: Trail, g: Setup, env: Env)
    ensures Kept(t, t, g, env)
  {
    hide PreservesAt, WellTyped, AllGranted, AllApplied;
    if WellTyped(t.e) {
      PreservesSelf(t.e, env);
    }
  }

  lemma GrantedPrefix(s: seq<Fired>, s': seq<Fired>, env: Env)
    requires s <= s' && AllGranted(s', env)
    ensures AllGranted(s, env)
  {
    hide Granted;
  }

  lemma KeptTrans(a: Trail, b: Trail, c: Trail, g: Setup, env: Env)
    requires Kept(a, b, g, env) && Kept(b, c, g, env)
    ensures Kept(a, c, g, env)
  {
    hide PreservesAt, WellTyped, AllGranted, AllApplied;
    if AllApplied(a.steps, g) && AllGranted(c.steps, env) && WellTyped(a.e) {
      GrantedPrefix(b.steps, c.steps, env);
      Typed(a.e, b.e, env);
      PreservesTrans(a.e, b.e, c.e, env);
    }
  }

  lemma OneMore(s: seq<Fired>, f: Fired, g: Setup, env: Env)
    requires Applied(f) && Due(f.rule, f.before, g)
    ensures AllApplied(s, g) ==> AllApplied(s + [f], g)
    ensures AllGranted(s + [f], env) ==> Guard(f.rule, f.before, env)
  {
    hide Guard, Rewritten;
    assert (s + [f])[|s|] == f && (AllGranted(s + [f], env) ==> Granted(f, env));
  }

  lemma KeptBy(t: Trail, rule: Rules.Rule, g: Setup, env: Env)
    requires !rule.RetypeArm? && Due(rule, t.e, g)
    ensures Kept(t, t.By(rule), g, env)
  {
    hide PreservesAs, WellTyped, AllGranted, AllApplied, Guard, Rewritten;
    var r := Rewritten(rule, t.e);
    KeptSelf(t, g, env);
    if r.To? {
      OneMore(t.steps, Fired(rule, t.e, r.e), g, env);
      if AllGranted(t.By(rule).steps, env) && WellTyped(t.e) {
        RuleRight(rule, t.e, env);
      }
    }
  }

  lemma FoldedKeeps(t: Trail, g: Setup, env: Env)
    ensures Keeps(t, Folded(t), g, env)
  {
    hide Kept, Rewritten;
    KeptBy(t, Rules.Fold, g, env);
  }

  /** Steps one after the other or of two operands. */
  lemma BothSteps(a: seq<Fired>, b: seq<Fired>, g: Setup, env: Env)
    ensures AllGranted(a + b, env) <==> AllGranted(a, env) && AllGranted(b, env)
    ensures AllApplied(a + b, g) <==> AllApplied(a, g) && AllApplied(b, g)
  {
    hide Granted, Applied;
  }

  /** What a visit from an empty trail keeps it keeps behind any other. */
  lemma Onward(t: Trail, v: Trail, g: Setup, env: Env)
    requires Kept(Trail(t.e, []), v, g, env)
    ensures Kept(t, Trail(v.e, t.steps + v.steps), g, env)
  {
    hide PreservesAt, WellTyped, AllGranted, AllApplied;
    NoSteps(g);
    BothSteps(t.steps, v.steps, g, env);
  }

  lemma CastKept(x: Expr, ty: Type, v: Trail, g: Setup, env: Env)
    requires Kept(Trail(x, []), v, g, env)
    ensures Kept(Trail(Cast(x, ty), []), Trail(Cast(v.e, ty), v.steps), g, env)
  {
    hide PreservesAt, WellTyped, AllGranted, AllApplied;
    NoSteps(g);
    if AllGranted(v.steps, env) && WellTyped(Cast(x, ty)) {
      Children(Cast(x, ty));
      UnderCast(x, v.e, ty, env);
    }
  }

  lemma UnaryKept(op: UnaryOp, x: Expr, ty: Type, v: Trail, g: Setup, env: Env)
    requires Kept(Trail(x, []), v, g, env)
    ensures Kept(Trail(Unary(op, x, ty), []), Trail(Unary(op, v.e, ty), v.steps), g, env)
  {
    hide PreservesAt, WellTyped, AllGranted, AllApplied;
    NoSteps(g);
    if AllGranted(v.steps, env) && WellTyped(Unary(op, x, ty)) {
      Children(Unary(op, x, ty));
      UnderUnary(op, x, v.e, ty, env);
    }
  }

  lemma BinaryKept(e: Expr, v: Trail, w: Trail, g: Setup, env: Env)
    requires e.Binary? && Kept(Trail(e.l, []), v, g, env) && Kept(Trail(e.r, []), w, g, env)
    ensures Kept(Trail(e, []), Trail(Binary(e.op, v.e, w.e, e.ty), v.steps + w.steps), g, env)
  {
    hide PreservesAt, WellTyped, AllGranted, AllApplied;
    BothSteps(v.steps, w.steps, g, env);
    NoSteps(g);
    if AllGranted(v.steps + w.steps, env) && WellTyped(e) {
      Children(e);
      UnderBinary(e.op, e.l, e.r, v.e, w.e, e.ty, env);
    }
  }

  /** Truth is kept, which is all a condition needs. */
  predicate TruthKept(t: Trail, t': Trail, g: Setup, env: Env) {
    && t.steps <= t'.steps && (AllApplied(t.steps, g) ==> AllApplied(t'.steps, g))
    && (AllApplied(t.steps, g) && AllGranted(t'.steps, env) && WellTyped(t.e) ==> WellTyped(t'.e) && SameTruth(t.e, t'.e, env))
  }

  predicate KeepsTruth(t: Trail, v: Visited, g: Setup, env: Env) { v.Got? ==> TruthKept(t, v.t, g, env) }

  /** An arm of `?:` keeps its value, read in the type of the whole. */
  predicate ArmKept(t: Trail, t': Trail, ty: Type, g: Setup, env: Env) {
    && t.steps <= t'.steps && (AllApplied(t.steps, g) ==> AllApplied(t'.steps, g))
    && (AllApplied(t.steps, g) && AllGranted(t'.steps, env) && WellTyped(t.e) && Within(t.e.ty, ty) ==> PreservesAs(t.e, t'.e, ty, env))
  }

  lemma KeptArm(a: Trail, b: Trail, c: Trail, ty: Type, g: Setup, env: Env)
    requires Kept(a, b, g, env)
    ensures ArmKept(a, b, ty, g, env)
    ensures ArmKept(b, c, ty, g, env) ==> ArmKept(a, c, ty, g, env)
  {
    hide WellTyped, AllGranted, AllApplied, Eval;
    if ArmKept(b, c, ty, g, env) && AllApplied(a.steps, g) && AllGranted(c.steps, env) {
      GrantedPrefix(b.steps, c.steps, env);
    }
  }

  lemma CondKept(e: Expr, u: Trail, v: Trail, w: Trail, g: Setup, env: Env)
    requires e.Cond? && TruthKept(Trail(e.c, []), u, g, env)
    requires ArmKept(Trail(e.yes, []), v, e.ty, g, env) && ArmKept(Trail(e.no, []), w, e.ty, g, env)
    ensures Kept(Trail(e, []), Trail(Cond(u.e, v.e, w.e, e.ty), u.steps + (v.steps + w.steps)), g, env)
  {
    hide WellTyped, AllGranted, AllApplied, Eval, Within;
    BothSteps(u.steps, v.steps + w.steps, g, env);
    BothSteps(v.steps, w.steps, g, env);
    NoSteps(g);
    if AllGranted(u.steps + (v.steps + w.steps), env) && WellTyped(e) {
      Children(e);
      TypedCond(u.e, v.e, w.e, e.ty);
      CondEval(e.c, e.yes, e.no, e.ty, env);
      CondEval(u.e, v.e, w.e, e.ty, env);
      WithinSelf(e.ty);
    }
  }

  lemma NoSteps(g: Setup)
    ensures AllApplied([], g)
  {
  }

  lemma KeptTruth(t: Trail, t': Trail, g: Setup, env: Env)
    requires Kept(t, t', g, env)
    ensures TruthKept(t, t', g, env)
  {
    hide WellTyped, AllGranted, AllApplied, Eval;
  }

  lemma TruthKeptTrans(a: Trail, b: Trail, c: Trail, g: Setup, env: Env)
    requires TruthKept(a, b, g, env) && TruthKept(b, c, g, env)
    ensures TruthKept(a, c, g, env)
  {
    hide WellTyped, AllGranted, AllApplied, SameTruth;
    if AllApplied(a.steps, g) && AllGranted(c.steps, env) && WellTyped(a.e) {
      GrantedPrefix(b.steps, c.steps, env);
      TruthTrans(a.e, b.e, c.e, env);
    }
  }

  // ----- by induction over the fuel -----

  lemma {:induction false} VisitKeeps(e: Expr, g: Setup, fuel: nat, env: Env)
    ensures Keeps(Trail(e, []), Visit(e, g, fuel), g, env)
    decreases fuel, 0
  {
    hide Kept, TruthKept, AtCast, AtUnary, AtBinary, AtShift, Arm, VisitCondition, Folded, IsConst;
    KeptSelf(Trail(e, []), g, env);
    if fuel > 0 {
      if !e.Num? && IsConst(e) {
        FoldedKeeps(Trail(e, []), g, env);
      } else if e.Cast? {
        VisitKeeps(e.e, g, fuel - 1, env);
        if Visit(e.e, g, fuel - 1).Got? {
          var v := Visit(e.e, g, fuel - 1).t;
          CastKept(e.e, e.ty, v, g, env);
          AtCastKeeps(Trail(Cast(v.e, e.ty), v.steps), g, fuel - 1, env);
          KeepsTrans(Trail(e, []), Trail(Cast(v.e, e.ty), v.steps), AtCast(Trail(Cast(v.e, e.ty), v.steps), g, fuel - 1), g, env);
        }
      } else if e.Unary? {
        VisitKeeps(e.e, g, fuel - 1, env);
        if Visit(e.e, g, fuel - 1).Got? {
          var v := Visit(e.e, g, fuel - 1).t;
          UnaryKept(e.uop, e.e, e.ty, v, g, env);
          AtUnaryKeeps(Trail(Unary(e.uop, v.e, e.ty), v.steps), g, fuel - 1, env);
          KeepsTrans(Trail(e, []), Trail(Unary(e.uop, v.e, e.ty), v.steps), AtUnary(Trail(Unary(e.uop, v.e, e.ty), v.steps), g, fuel - 1), g, env);
        }
      } else if e.Binary? {
        VisitBinaryKeeps(e, g, fuel, env);
      } else if e.Cond? {
        VisitCondKeeps(e, g, fuel, env);
      }
    }
  }

  /** Both operands, or of a shift the left one, and then the node. */
  lemma VisitBinary(e: Expr, g: Setup, fuel: nat)
    requires e.Binary? && !IsConst(e) && fuel > 0
    ensures var v, w := Visit(e.l, g, fuel - 1), Visit(e.r, g, fuel - 1);
      Visit(e, g, fuel) ==
        if v.GaveUp? then GaveUp
        else if e.op == Shl || e.op == Shr then AtShift(Trail(Binary(e.op, v.t.e, e.r, e.ty), v.t.steps), g, fuel - 1)
        else if w.GaveUp? then GaveUp
        else AtBinary(Trail(Binary(e.op, v.t.e, w.t.e, e.ty), v.t.steps + w.t.steps), g, fuel - 1)
  {
    hide AtBinary, AtShift;
  }

  lemma KeepsTrans(a: Trail, b: Trail, v: Visited, g: Setup, env: Env)
    requires Kept(a, b, g, env) && Keeps(b, v, g, env)
    ensures Keeps(a, v, g, env)
  {
    hide Kept;
    if v.Got? {
      KeptTrans(a, b, v.t, g, env);
    }
  }

  lemma {:induction false} VisitBinaryKeeps(e: Expr, g: Setup, fuel: nat, env: Env)
    requires e.Binary? && fuel > 0 && !IsConst(e)
    ensures Keeps(Trail(e, []), Visit(e, g, fuel), g, env)
    decreases fuel - 1, 20
  {
    hide Kept, Visit, AtBinary, AtShift, IsConst;
    var op := e.op;
    VisitBinary(e, g, fuel);
    VisitKeeps(e.l, g, fuel - 1, env);
    VisitKeeps(e.r, g, fuel - 1, env);
    KeptSelf(Trail(e.r, []), g, env);
    if Visit(e.l, g, fuel - 1).Got? {
      var v := Visit(e.l, g, fuel - 1).t;
      if op == Shl || op == Shr {
        var n := Trail(Binary(op, v.e, e.r, e.ty), v.steps);
        BinaryKept(e, v, Trail(e.r, []), g, env);
        assert v.steps + [] == v.steps;
        AtShiftKeeps(n, g, fuel - 1, env);
        KeepsTrans(Trail(e, []), n, AtShift(n, g, fuel - 1), g, env);
      } else if Visit(e.r, g, fuel - 1).Got? {
        var w := Visit(e.r, g, fuel - 1).t;
        var n := Trail(Binary(op, v.e, w.e, e.ty), v.steps + w.steps);
        BinaryKept(e, v, w, g, env);
        AtBinaryKeeps(n, g, fuel - 1, env);
        KeepsTrans(Trail(e, []), n, AtBinary(n, g, fuel - 1), g, env);
      }
    }
  }

  lemma {:induction false} VisitCondKeeps(e: Expr, g: Setup, fuel: nat, env: Env)
    requires e.Cond? && fuel > 0 && !IsConst(e)
    ensures Keeps(Trail(e, []), Visit(e, g, fuel), g, env)
    decreases fuel - 1, 20
  {
    hide Kept, TruthKept, ArmKept, Arm, VisitCondition, IsConst, Rewritten, Folded;
    VisitConditionKeeps(e.c, g, fuel - 1, env);
    VisitKeeps(e.yes, g, fuel - 1, env);
    VisitKeeps(e.no, g, fuel - 1, env);
    if Visit(e, g, fuel).Got? {
      var v, w := Visit(e.yes, g, fuel - 1).t, Visit(e.no, g, fuel - 1).t;
      ArmKeeps(v, e.ty, g, fuel - 1, env);
      ArmKeeps(w, e.ty, g, fuel - 1, env);
      KeptArm(Trail(e.yes, []), v, Arm(v, e.ty, g, fuel - 1).t, e.ty, g, env);
      KeptArm(Trail(e.no, []), w, Arm(w, e.ty, g, fuel - 1).t, e.ty, g, env);
      CondKept(e, VisitCondition(e.c, g, fuel - 1).t, Arm(v, e.ty, g, fuel - 1).t, Arm(w, e.ty, g, fuel - 1).t, g, env);
    }
  }

  lemma {:induction false} AgainKeeps(t: Trail, g: Setup, fuel: nat, env: Env)
    ensures Keeps(t, Again(t, g, fuel), g, env)
    decreases fuel, 1
  {
    hide Kept;
    VisitKeeps(t.e, g, fuel, env);
    if Visit(t.e, g, fuel).Got? {
      Onward(t, Visit(t.e, g, fuel).t, g, env);
    }
  }

  /** After that the node is left, folded or optimized again. */
  lemma {:induction false} WaysOn(t: Trail, u: Trail, g: Setup, fuel: nat, env: Env)
    requires Kept(t, u, g, env)
    ensures Keeps(t, Got(u), g, env) && Keeps(t, Folded(u), g, env) && Keeps(t, Again(u, g, fuel), g, env)
    decreases fuel, 2
  {
    hide Kept, Folded, Again;
    FoldedKeeps(u, g, env);
    KeepsTrans(t, u, Folded(u), g, env);
    AgainKeeps(u, g, fuel, env);
    KeepsTrans(t, u, Again(u, g, fuel), g, env);
  }

  lemma {:induction false} Ways(t: Trail, rule: Rules.Rule, g: Setup, fuel: nat, env: Env)
    requires !rule.RetypeArm? && Due(rule, t.e, g)
    ensures Keeps(t, Got(t.By(rule)), g, env) && Keeps(t, Folded(t.By(rule)), g, env) && Keeps(t, Again(t.By(rule), g, fuel), g, env)
    decreases fuel, 3
  {
    hide Kept, Keeps, Folded, Again, Rewritten;
    KeptBy(t, rule, g, env);
    WaysOn(t, t.By(rule), g, fuel, env);
  }

  lemma {:induction false} PlainWays(t: Trail, g: Setup, fuel: nat, env: Env)
    ensures Keeps(t, Got(t), g, env) && Keeps(t, Folded(t), g, env) && Keeps(t, Again(t, g, fuel), g, env)
    decreases fuel, 3
  {
    hide Kept, Keeps, Folded, Again;
    KeptSelf(t, g, env);
    WaysOn(t, t, g, fuel, env);
  }

  lemma ArmBy(t: Trail, ty: Type, g: Setup, env: Env)
    ensures ArmKept(t, t.By(Rules.RetypeArm(ty)), ty, g, env)
  {
    hide PreservesAs, WellTyped, AllGranted, AllApplied, Guard, Rewritten, ArmFits;
    var rule := Rules.RetypeArm(ty);
    var r := Rewritten(rule, t.e);
    if r.To? {
      OneMore(t.steps, Fired(rule, t.e, r.e), g, env);
      if AllGranted(t.By(rule).steps, env) && WellTyped(t.e) {
        RuleRight(rule, t.e, env);
      }
    } else if WellTyped(t.e) {
      PreservesSelf(t.e, env);
      ReadAs(t.e, t.e, ty, env);
    }
  }

  /** What is kept in its own type is kept in any that type belongs to. */
  lemma ReadAs(e: Expr, e': Expr, ty: Type, env: Env)
    requires PreservesAt(e, e', env)
    ensures Within(e.ty, ty) ==> PreservesAs(e, e', ty, env)
  {
    hide SameValue, WellTyped;
  }

  lemma {:induction false} ArmKeeps(t: Trail, ty: Type, g: Setup, fuel: nat, env: Env)
    ensures Arm(t, ty, g, fuel).Got? ==> ArmKept(t, Arm(t, ty, g, fuel).t, ty, g, env)
    decreases fuel, 3
  {
    hide Kept, ArmKept, Rewritten, Again;
    var u := if t.e.ty == ty then t else t.By(Rules.RetypeArm(ty));
    KeptSelf(t, g, env);
    KeptArm(t, t, t, ty, g, env);
    ArmBy(t, ty, g, env);
    AgainKeeps(u, g, fuel, env);
    if Arm(t, ty, g, fuel).Got? && (t.e.Cast? || t.e.Cond?) {
      ArmThen(t, u, Again(u, g, fuel).t, ty, g, env);
    }
  }

  lemma ArmThen(a: Trail, b: Trail, c: Trail, ty: Type, g: Setup, env: Env)
    requires ArmKept(a, b, ty, g, env) && Kept(b, c, g, env)
    ensures ArmKept(a, c, ty, g, env)
  {
    hide WellTyped, AllGranted, AllApplied, Eval;
    if AllApplied(a.steps, g) && AllGranted(c.steps, env) {
      GrantedPrefix(b.steps, c.steps, env);
    }
  }

  lemma {:induction false} AtCastKeeps(t: Trail, g: Setup, fuel: nat, env: Env)
    requires t.e.Cast?
    ensures Keeps(t, AtCast(t, g, fuel), g, env)
    decreases fuel, 4
  {
    hide Keeps, Folded, Again, Arms, CastSame, BoolOfTruth, CastLogic, CastOfCast, CastUnary, CastBitsToInt, CastBitsToChar, CastPromoted,
      CastUints, RetypeSum, CastNumLeft, CastNumRight, CastShl, CastRing, CastQuotient, CastNarrowBits, CastCond;
    var e := t.e;
    if CastSame(e).To? { Ways(t, Rules.CastSame, g, fuel, env); }
    else if BoolOfTruth(e).To? { Ways(t, Rules.BoolOfTruth, g, fuel, env); }
    else if CastLogic(e).To? { Ways(t, Rules.CastLogic, g, fuel, env); }
    else if CastOfCast(e).To? { Ways(t, Rules.CastOfCast, g, fuel, env); }
    else if CastUnary(e).To? { Ways(t, Rules.CastUnary, g, fuel, env); }
    else if CastBitsToInt(e).To? { Ways(t, Rules.CastBitsToInt, g, fuel, env); }
    else if CastBitsToChar(e).To? { Ways(t, Rules.CastBitsToChar, g, fuel, env); }
    else if CastPromoted(e).To? { Ways(t, Rules.CastPromoted, g, fuel, env); }
    else if CastUints(e).To? { Ways(t, Rules.CastUints, g, fuel, env); }
    else if RetypeSum(e).To? { Ways(t, Rules.RetypeSum, g, fuel, env); }
    else if CastNumLeft(e).To? { Ways(t, Rules.CastNumLeft, g, fuel, env); }
    else if CastNumRight(e).To? { Ways(t, Rules.CastNumRight, g, fuel, env); }
    else if CastShl(e).To? { Ways(t, Rules.CastShl, g, fuel, env); }
    else if CastRing(e).To? { Ways(t, Rules.CastRing, g, fuel, env); }
    else if CastQuotient(e).To? { Ways(t, Rules.CastQuotient, g, fuel, env); }
    else if CastNarrowBits(e).To? { Ways(t, Rules.CastNarrowBits, g, fuel, env); }
    else if CastCond(e).To? { ArmsKeeps(t, g, fuel, env); }
    else { PlainWays(t, g, fuel, env); }
  }

  lemma {:induction false} ArmsKeeps(t: Trail, g: Setup, fuel: nat, env: Env)
    requires CastCond(t.e).To?
    ensures t.By(Rules.CastCond).e.Cond? && Keeps(t, Arms(t.By(Rules.CastCond), g, fuel), g, env)
    decreases fuel, 3
  {
    hide Kept, TruthKept, NewCast;
    var u := t.By(Rules.CastCond);
    KeptBy(t, Rules.CastCond, g, env);
    VisitKeeps(u.e.yes, g, fuel, env);
    VisitKeeps(u.e.no, g, fuel, env);
    if Arms(u, g, fuel).Got? {
      var v, w := Visit(u.e.yes, g, fuel).t, Visit(u.e.no, g, fuel).t;
      KeptSelf(Trail(u.e.c, []), g, env);
      KeptTruth(Trail(u.e.c, []), Trail(u.e.c, []), g, env);
      KeptArm(Trail(u.e.yes, []), v, v, u.e.ty, g, env);
      KeptArm(Trail(u.e.no, []), w, w, u.e.ty, g, env);
      CondKept(u.e, Trail(u.e.c, []), v, w, g, env);
      assert [] + (v.steps + w.steps) == v.steps + w.steps;
      Onward(u, Trail(Cond(u.e.c, v.e, w.e, u.e.ty), v.steps + w.steps), g, env);
      KeptTrans(t, u, Arms(u, g, fuel).t, g, env);
    }
  }

  lemma {:induction false} AtUnaryKeeps(t: Trail, g: Setup, fuel: nat, env: Env)
    requires t.e.Unary?
    ensures Keeps(t, AtUnary(t, g, fuel), g, env)
    decreases fuel, 4
  {
    hide Keeps, Folded, Again, NotRule, DeMorgan;
    PlainWays(t, g, fuel, env);
    if t.e.uop == Not {
      var x, u := SkipPromotion(t.e.e), t.By(Rules.NotRule);
      Ways(t, Rules.NotRule, g, fuel, env);
      if g.small {
        ByTwo(t, Rules.NotRule, Rules.NotAsEq, g, env);
      }
    }
  }

  lemma ByTwo(t: Trail, rule: Rules.Rule, next: Rules.Rule, g: Setup, env: Env)
    requires !rule.RetypeArm? && Due(rule, t.e, g) && !next.RetypeArm? && Due(next, t.By(rule).e, g)
    ensures Keeps(t, Got(t.By(rule).By(next)), g, env)
  {
    hide Kept, Rewritten;
    KeptBy(t, rule, g, env);
    KeptBy(t.By(rule), next, g, env);
    KeptTrans(t, t.By(rule), t.By(rule).By(next), g, env);
  }

  lemma CheaperKept(t: Trail, g: Setup, env: Env)
    requires t.e.Binary?
    ensures Cheaper(t, g).e.Binary? && Kept(t, Cheaper(t, g), g, env)
  {
    hide Kept;
    KeptSelf(t, g, env);
    if g.cost(t.e.l) < g.cost(t.e.r) {
      KeptBy(t, Rules.SwapOperands, g, env);
    }
  }

  lemma {:induction false} AtBinaryKeeps(t: Trail, g: Setup, fuel: nat, env: Env)
    requires t.e.Binary? && t.e.op != Shl && t.e.op != Shr
    ensures Keeps(t, AtBinary(t, g, fuel), g, env)
    decreases fuel, 9
  {
    hide Keeps, Kept, Cheaper, AtCompare, AtLogic, AtDifference, AtQuotient, AtSum, AtProduct, AtBits;
    var op, u := t.e.op, Cheaper(t, g);
    CheaperKept(t, g, env);
    if IsCompare(op) {
      AtCompareKeeps(t, g, fuel, env);
    } else if IsLogical(op) {
      AtLogicKeeps(t, g, fuel, env);
    } else if op == Sub || op == Div || op == Mod {
      ArithmeticKeeps(t, g, fuel, env);
    } else if op == Add || op == Mul {
      ArithmeticKeeps(u, g, fuel, env);
      KeepsTrans(t, u, if op == Add then AtSum(u, g, fuel) else AtProduct(u, g, fuel), g, env);
    } else {
      AtBitsKeeps(u, g, fuel, env);
      KeepsTrans(t, u, AtBits(u, g, fuel), g, env);
    }
  }

  lemma {:induction false} ArithmeticKeeps(t: Trail, g: Setup, fuel: nat, env: Env)
    requires t.e.Binary?
    ensures Keeps(t, AtSum(t, g, fuel), g, env) && Keeps(t, AtDifference(t), g, env)
    ensures Keeps(t, AtProduct(t, g, fuel), g, env) && Keeps(t, AtQuotient(t, g, fuel), g, env)
    decreases fuel, 4
  {
    hide Keeps, Folded, Again, SumOfTruths, MergeSums, ZeroMinus, MergeProducts, Distribute, MulShift, DivShift, ModMask, DivideUchars, ModChars;
    PlainWays(t, g, fuel, env);
    Ways(t, Rules.SumOfTruths, g, fuel, env);
    Ways(t, Rules.MergeSums, g, fuel, env);
    Ways(t, Rules.ZeroMinus, g, fuel, env);
    Ways(t, Rules.MergeProducts, g, fuel, env);
    Ways(t, Rules.Distribute, g, fuel, env);
    Ways(t, Rules.MulShift, g, fuel, env);
    Ways(t, Rules.DivShift, g, fuel, env);
    Ways(t, Rules.ModMask, g, fuel, env);
    Ways(t, Rules.DivideUchars, g, fuel, env);
    Ways(t, Rules.ModChars, g, fuel, env);
  }

  lemma {:induction false} AtBitsKeeps(t: Trail, g: Setup, fuel: nat, env: Env)
    requires t.e.Binary?
    ensures Keeps(t, AtBits(t, g, fuel), g, env)
    decreases fuel, 6
  {
    hide Kept, Folded, Again, BitsOfUchars, MaskByte, PromoteAll;
    Ways(t, Rules.BitsOfUchars, g, fuel, env);
    PromoteAllKeeps(t, g, fuel, env);
    if PromoteAll(t, g, fuel).Got? {
      var u := PromoteAll(t, g, fuel).t;
      Ways(u, Rules.MaskByte, g, fuel, env);
      KeepsTrans(t, u, Again(u.By(Rules.MaskByte), g, fuel), g, env);
    }
  }

  lemma {:induction false} PromoteAllKeeps(t: Trail, g: Setup, fuel: nat, env: Env)
    requires t.e.Binary?
    ensures Keeps(t, PromoteAll(t, g, fuel), g, env)
    decreases fuel, 5, t.e
  {
    hide Kept, Folded, Promote, OperandsAgain, MaskedOut;
    KeptSelf(t, g, env);
    if PromoteAll(t, g, fuel).Got? && t.e.ty == INT {
      var v := (if IsBits(t.e.l) then PromoteAll(Trail(t.e.l, []), g, fuel) else Got(Trail(t.e.l, []))).t;
      var w := (if IsBits(t.e.r) then PromoteAll(Trail(t.e.r, []), g, fuel) else Got(Trail(t.e.r, []))).t;
      KeptSelf(Trail(t.e.l, []), g, env);
      KeptSelf(Trail(t.e.r, []), g, env);
      if IsBits(t.e.l) {
        PromoteAllKeeps(Trail(t.e.l, []), g, fuel, env);
      }
      if IsBits(t.e.r) {
        PromoteAllKeeps(Trail(t.e.r, []), g, fuel, env);
      }
      BinaryKept(t.e, v, w, g, env);
      Onward(t, Trail(Binary(t.e.op, v.e, w.e, t.e.ty), v.steps + w.steps), g, env);
      var u := Trail(Binary(t.e.op, v.e, w.e, t.e.ty), t.steps + (v.steps + w.steps));
      var p := u.By(Rules.Promote);
      KeptBy(u, Rules.Promote, g, env);
      KeptTrans(t, u, p, g, env);
      FoldedKeeps(p, g, env);
      if MaskedOut(u.e) && p.e.Cast? && p.e.e.Binary? {
        OperandsAgainKeeps(p, g, fuel, env);
      }
      KeepsTrans(t, p, PromoteAll(t, g, fuel), g, env);
    }
  }

  lemma {:induction false} OperandsAgainKeeps(t: Trail, g: Setup, fuel: nat, env: Env)
    requires t.e.Cast? && t.e.e.Binary?
    ensures Keeps(t, OperandsAgain(t, g, fuel), g, env)
    decreases fuel, 4
  {
    hide Kept, Folded, Cheaper;
    var b := t.e.e;
    VisitKeeps(b.l, g, fuel, env);
    VisitKeeps(b.r, g, fuel, env);
    if Visit(b.l, g, fuel).Got? && Visit(b.r, g, fuel).Got? {
      var v, w := Visit(b.l, g, fuel).t, Visit(b.r, g, fuel).t;
      var n := Trail(Binary(b.op, v.e, w.e, b.ty), v.steps + w.steps);
      BinaryKept(b, v, w, g, env);
      CheaperKept(n, g, env);
      var c := Cheaper(n, g);
      KeptTrans(Trail(b, []), n, c, g, env);
      CastKept(b, t.e.ty, c, g, env);
      Onward(t, Trail(Cast(c.e, t.e.ty), c.steps), g, env);
      var u := Trail(Cast(c.e, t.e.ty), t.steps + c.steps);
      FoldedKeeps(u, g, env);
      KeepsTrans(t, u, Folded(u), g, env);
    }
  }

  lemma {:induction false} AtLogicKeeps(t: Trail, g: Setup, fuel: nat, env: Env)
    requires t.e.Binary?
    ensures Keeps(t, AtLogic(t, g, fuel), g, env)
    decreases fuel, 4
  {
    hide Keeps, Kept, Folded, Again, LogicSkip, LogicConst;
    var u := t.By(Rules.LogicSkip);
    KeptBy(t, Rules.LogicSkip, g, env);
    Ways(u, Rules.LogicConst, g, fuel, env);
    KeepsTrans(t, u, AtLogic(t, g, fuel), g, env);
  }

  lemma {:induction false} AtCompareKeeps(t: Trail, g: Setup, fuel: nat, env: Env)
    requires t.e.Binary?
    ensures Keeps(t, AtCompare(t, g, fuel), g, env)
    decreases fuel, 5
  {
    hide Kept, Folded, DropLeft, DropRight, SwapCompare, NarrowBoth, NarrowConst, NarrowUint, NextConst, SwapsLast;
    if AtCompare(t, g, fuel).Got? {
      var t1 := if g.cost(t.e.l) < g.cost(t.e.r) then t.By(Rules.SwapCompare) else t;
      var t2 := (if g.wrapv then Got(t1) else DropLeft(t1, g, fuel)).t;
      var t3 := (if g.wrapv then Got(t2) else DropRight(t2, g, fuel)).t;
      KeptSelf(t, g, env);
      KeptSelf(t1, g, env);
      KeptSelf(t2, g, env);
      if g.cost(t.e.l) < g.cost(t.e.r) {
        KeptBy(t, Rules.SwapCompare, g, env);
      }
      if !g.wrapv {
        DropKeeps(t1, g, fuel, env);
        DropKeeps(t2, g, fuel, env);
      }
      KeptTrans(t, t1, t2, g, env);
      KeptTrans(t, t2, t3, g, env);
      CompareTail(t3, g, env);
      KeptTrans(t, t3, AtCompare(t, g, fuel).t, g, env);
    }
  }

  lemma CompareTail(t3: Trail, g: Setup, env: Env)
    ensures
      var t4 := t3.By(Rules.NarrowBoth);
      var t5 := t4.By(Rules.NarrowConst);
      var t6 := t5.By(Rules.NarrowUint);
      var t7 := t6.By(Rules.NextConst);
      Keeps(t3, Folded(if SwapsLast(t7.e, g) then t7.By(Rules.SwapCompare) else t7), g, env)
  {
    hide Kept, Folded, SwapCompare, NarrowBoth, NarrowConst, NarrowUint, NextConst, SwapsLast;
    var t4 := t3.By(Rules.NarrowBoth);
    var t5 := t4.By(Rules.NarrowConst);
    var t6 := t5.By(Rules.NarrowUint);
    var t7 := t6.By(Rules.NextConst);
    var t8 := if SwapsLast(t7.e, g) then t7.By(Rules.SwapCompare) else t7;
    KeptBy(t3, Rules.NarrowBoth, g, env);
    KeptBy(t4, Rules.NarrowConst, g, env);
    KeptTrans(t3, t4, t5, g, env);
    KeptBy(t5, Rules.NarrowUint, g, env);
    KeptTrans(t3, t5, t6, g, env);
    KeptBy(t6, Rules.NextConst, g, env);
    KeptTrans(t3, t6, t7, g, env);
    KeptSelf(t7, g, env);
    if SwapsLast(t7.e, g) {
      KeptBy(t7, Rules.SwapCompare, g, env);
    }
    KeptTrans(t3, t7, t8, g, env);
    FoldedKeeps(t8, g, env);
    KeepsTrans(t3, t8, Folded(t8), g, env);
  }

  lemma {:induction false} DropKeeps(t: Trail, g: Setup, fuel: nat, env: Env)
    requires !g.wrapv
    ensures Keeps(t, DropLeft(t, g, fuel), g, env) && Keeps(t, DropRight(t, g, fuel), g, env)
    decreases fuel, 4
  {
    hide Kept, DropOneLeft, DropOneRight, Rewritten;
    KeptSelf(t, g, env);
    var l, r := t.By(Rules.DropOneLeft), t.By(Rules.DropOneRight);
    KeptBy(t, Rules.DropOneLeft, g, env);
    KeptBy(t, Rules.DropOneRight, g, env);
    if l.e.Binary? {
      VisitKeeps(l.e.l, g, fuel, env);
      if Visit(l.e.l, g, fuel).Got? {
        OneSideVisited(t, l, Visit(l.e.l, g, fuel).t, Trail(l.e.r, []), g, env);
      }
    }
    if r.e.Binary? {
      VisitKeeps(r.e.r, g, fuel, env);
      if Visit(r.e.r, g, fuel).Got? {
        OneSideVisited(t, r, Trail(r.e.l, []), Visit(r.e.r, g, fuel).t, g, env);
      }
    }
  }

  /** One side of `u` has been visited. */
  lemma OneSideVisited(t: Trail, u: Trail, v: Trail, w: Trail, g: Setup, env: Env)
    requires u.e.Binary? && Kept(t, u, g, env)
    requires (Kept(Trail(u.e.l, []), v, g, env) && w == Trail(u.e.r, [])) || (v == Trail(u.e.l, []) && Kept(Trail(u.e.r, []), w, g, env))
    ensures Kept(t, Trail(Binary(u.e.op, v.e, w.e, u.e.ty), u.steps + (v.steps + w.steps)), g, env)
    ensures v.steps == [] ==> v.steps + w.steps == w.steps
    ensures w.steps == [] ==> v.steps + w.steps == v.steps
  {
    hide Kept;
    var b := u.e;
    var n := Trail(Binary(b.op, v.e, w.e, b.ty), v.steps + w.steps);
    KeptSelf(Trail(b.l, []), g, env);
    KeptSelf(Trail(b.r, []), g, env);
    BinaryKept(b, v, w, g, env);
    Onward(u, n, g, env);
    KeptTrans(t, u, Trail(n.e, u.steps + n.steps), g, env);
  }

  lemma {:induction false} AtShiftKeeps(t: Trail, g: Setup, fuel: nat, env: Env)
    requires t.e.Binary?
    ensures Keeps(t, AtShift(t, g, fuel), g, env)
    decreases fuel, 5
  {
    hide Kept, ShiftBy, NewCast;
    var u := t.By(Rules.CountCast);
    KeptBy(t, Rules.CountCast, g, env);
    VisitKeeps(u.e.r, g, fuel, env);
    if Visit(u.e.r, g, fuel).Got? {
      var v := Visit(u.e.r, g, fuel).t;
      OneSideVisited(t, u, Trail(u.e.l, []), v, g, env);
      var n := Trail(Binary(u.e.op, u.e.l, v.e, u.e.ty), u.steps + v.steps);
      ShiftByKeeps(n, g, fuel, env);
      KeepsTrans(t, n, ShiftBy(n, g, fuel), g, env);
    }
  }

  lemma {:induction false} ShiftByKeeps(t: Trail, g: Setup, fuel: nat, env: Env)
    ensures Keeps(t, ShiftBy(t, g, fuel), g, env)
    decreases fuel, 4
  {
    hide Keeps, Folded, Again, ShiftZero, ShiftOut, ShiftOfTruth, ShrPromoted;
    PlainWays(t, g, fuel, env);
    Ways(t, Rules.ShiftZero, g, fuel, env);
    Ways(t, Rules.ShiftOut, g, fuel, env);
    Ways(t, Rules.ShiftOfTruth, g, fuel, env);
    Ways(t, Rules.ShrPromoted, g, fuel, env);
  }

  // ----- conditions likewise -----

  lemma TruthKeptSelf(t: Trail, g: Setup, env: Env)
    ensures TruthKept(t, t, g, env)
  {
    hide Eval, WellTyped, AllGranted, AllApplied;
  }

  /** Replacing a condition by one with the same truth, without a step. */
  lemma TruthOnward(t: Trail, x: Expr, v: Trail, g: Setup, env: Env)
    requires WellTyped(t.e) ==> WellTyped(x) && SameTruth(t.e, x, env)
    requires TruthKept(Trail(x, []), v, g, env)
    ensures TruthKept(t, Trail(v.e, t.steps + v.steps), g, env)
  {
    hide WellTyped, AllGranted, AllApplied, SameTruth;
    NoSteps(g);
    BothSteps(t.steps, v.steps, g, env);
    if AllApplied(t.steps, g) && AllGranted(t.steps + v.steps, env) && WellTyped(t.e) {
      TruthTrans(t.e, x, v.e, env);
    }
  }

  lemma {:induction false} OnConditionKeeps(t: Trail, x: Expr, g: Setup, fuel: nat, env: Env)
    requires fuel > 0 && (WellTyped(t.e) ==> WellTyped(x) && SameTruth(t.e, x, env))
    ensures KeepsTruth(t, OnCondition(t, x, g, fuel), g, env)
    decreases fuel, 1
  {
    hide TruthKept, SameTruth, WellTyped, VisitCondition;
    VisitConditionKeeps(x, g, fuel - 1, env);
    if VisitCondition(x, g, fuel - 1).Got? {
      TruthOnward(t, x, VisitCondition(x, g, fuel - 1).t, g, env);
    }
  }

  lemma {:induction false} BothConditionsKeeps(t: Trail, g: Setup, fuel: nat, env: Env)
    requires t.e.Binary? && IsLogical(t.e.op) && fuel > 0
    ensures KeepsTruth(t, BothConditions(t, g, fuel), g, env)
    decreases fuel, 1
  {
    hide SameTruth, WellTyped, VisitCondition, AllGranted, AllApplied;
    VisitConditionKeeps(t.e.l, g, fuel - 1, env);
    VisitConditionKeeps(t.e.r, g, fuel - 1, env);
    if VisitCondition(t.e.l, g, fuel - 1).Got? && VisitCondition(t.e.r, g, fuel - 1).Got? {
      var v, w := VisitCondition(t.e.l, g, fuel - 1).t, VisitCondition(t.e.r, g, fuel - 1).t;
      BothSteps(t.steps, v.steps + w.steps, g, env);
      BothSteps(v.steps, w.steps, g, env);
      NoSteps(g);
      if AllGranted(t.steps + (v.steps + w.steps), env) && WellTyped(t.e) {
        OperandsTyped(t.e);
        LogicTyped(t.e.op, v.e, w.e, t.e.ty);
        LogicTruth(t.e.op, t.e.l, t.e.r, v.e, w.e, t.e.ty, env);
      }
    }
  }

  lemma {:induction false} NegatedConditionKeeps(t: Trail, g: Setup, fuel: nat, env: Env)
    requires t.e.Binary? && t.e.op == Eq && IsZero(t.e.r) && fuel > 0
    ensures KeepsTruth(t, NegatedCondition(t, g, fuel), g, env)
    decreases fuel, 2
  {
    hide SameTruth, WellTyped, VisitCondition, AllGranted, AllApplied;
    VisitConditionKeeps(t.e.l, g, fuel - 1, env);
    if VisitCondition(t.e.l, g, fuel - 1).Got? {
      var v := VisitCondition(t.e.l, g, fuel - 1).t;
      BothSteps(t.steps, v.steps, g, env);
      NoSteps(g);
      if AllGranted(t.steps + v.steps, env) && WellTyped(t.e) {
        OperandsTyped(t.e);
        NotTruth(t.e, v.e, if v.e.Unary? && v.e.uop == Not then v.e.e else Unary(Not, v.e, BOOL), env);
      }
    }
  }

  /** !!x, x != 0 and casts to _Bool or to no smaller a type are as true as what is in them. */
  lemma PartTruth(e: Expr, env: Env)
    requires WellTyped(e)
    ensures NotNot(e) ==> WellTyped(e.e.e) && SameTruth(e, e.e.e, env)
    ensures e.Binary? && e.op == Ne && IsZero(e.r) ==> WellTyped(e.l) && SameTruth(e, e.l, env)
    ensures e.Cast? && (e.ty.kind == KBool || e.ty.Size() >= e.e.ty.Size()) ==> WellTyped(e.e) && SameTruth(e, e.e, env)
  {
    hide Eval, WellTyped;
    if NotNot(e) {
      NotNotTruth(e, env);
    } else if e.Binary? && e.op == Ne && IsZero(e.r) {
      ZeroTruth(e, env);
    } else if e.Cast? && (e.ty.kind == KBool || e.ty.Size() >= e.e.ty.Size()) {
      CastTruth(e, env);
    }
  }

  lemma {:induction false} VisitConditionKeeps(e: Expr, g: Setup, fuel: nat, env: Env)
    ensures KeepsTruth(Trail(e, []), VisitCondition(e, g, fuel), g, env)
    decreases fuel, 9
  {
    hide Kept, TruthKept, Visit, OnCondition, NegatedCondition, BothConditions, SameTruth, WellTyped;
    if VisitCondition(e, g, fuel).Got? {
      VisitKeeps(e, g, fuel - 1, env);
      var t := Visit(e, g, fuel - 1).t;
      KeptTruth(Trail(e, []), t, g, env);
      TruthKeptSelf(t, g, env);
      if t.e.Binary? && IsLogical(t.e.op) {
        BothConditionsKeeps(t, g, fuel, env);
      }
      var t1 := (if t.e.Binary? && IsLogical(t.e.op) then BothConditions(t, g, fuel) else Got(t)).t;
      TruthKeptTrans(Trail(e, []), t, t1, g, env);
      ConditionTail(t1, g, fuel, env);
      TruthKeptTrans(Trail(e, []), t1, VisitCondition(e, g, fuel).t, g, env);
    }
  }

  lemma {:induction false} ConditionTail(t1: Trail, g: Setup, fuel: nat, env: Env)
    requires fuel > 0
    ensures KeepsTruth(t1, AfterConnectives(t1, g, fuel), g, env)
    decreases fuel, 3
  {
    hide TruthKept, OnCondition, NegatedCondition, SameTruth, WellTyped;
    if AfterConnectives(t1, g, fuel).Got? {
      PartTruthIf(t1.e, env);
      TruthKeptSelf(t1, g, env);
      if NotNot(t1.e) {
        OnConditionKeeps(t1, t1.e.e.e, g, fuel, env);
      }
      var t2 := (if NotNot(t1.e) then OnCondition(t1, t1.e.e.e, g, fuel) else Got(t1)).t;
      TruthKeptSelf(t2, g, env);
      if t2.e.Binary? && t2.e.op == Eq && IsZero(t2.e.r) {
        NegatedConditionKeeps(t2, g, fuel, env);
      }
      var t3 := (if t2.e.Binary? && t2.e.op == Eq && IsZero(t2.e.r) then NegatedCondition(t2, g, fuel) else Got(t2)).t;
      TruthKeptTrans(t1, t2, t3, g, env);
      PartTruthIf(t3.e, env);
      TruthKeptSelf(t3, g, env);
      if t3.e.Binary? && t3.e.op == Ne && IsZero(t3.e.r) {
        OnConditionKeeps(t3, t3.e.l, g, fuel, env);
      }
      var t4 := (if t3.e.Binary? && t3.e.op == Ne && IsZero(t3.e.r) then OnCondition(t3, t3.e.l, g, fuel) else Got(t3)).t;
      TruthKeptTrans(t1, t3, t4, g, env);
      PartTruthIf(t4.e, env);
      TruthKeptSelf(t4, g, env);
      if t4.e.Cast? && t4.e.ty.kind == KBool {
        OnConditionKeeps(t4, t4.e.e, g, fuel, env);
      }
      var t5 := (if t4.e.Cast? && t4.e.ty.kind == KBool then OnCondition(t4, t4.e.e, g, fuel) else Got(t4)).t;
      TruthKeptTrans(t1, t4, t5, g, env);
      PartTruthIf(t5.e, env);
      TruthKeptSelf(t5, g, env);
      if t5.e.Cast? && t5.e.ty.Size() >= t5.e.e.ty.Size() {
        TruthKeptSelf(Trail(t5.e.e, []), g, env);
        TruthOnward(t5, t5.e.e, Trail(t5.e.e, []), g, env);
        assert t5.steps + [] == t5.steps;
        TruthKeptTrans(t1, t5, Trail(t5.e.e, t5.steps), g, env);
      }
    }
  }

  lemma PartTruthIf(e: Expr, env: Env)
    ensures NotNot(e) && WellTyped(e) ==> WellTyped(e.e.e) && SameTruth(e, e.e.e, env)
    ensures e.Binary? && e.op == Ne && IsZero(e.r) && WellTyped(e) ==> WellTyped(e.l) && SameTruth(e, e.l, env)
    ensures e.Cast? && (e.ty.kind == KBool || e.ty.Size() >= e.e.ty.Size()) && WellTyped(e) ==> WellTyped(e.e) && SameTruth(e, e.e, env)
  {
    hide Eval, WellTyped, SameTruth;
    if WellTyped(e) {
      PartTruth(e, env);
    }
  }

  /**
   For every typed expression: each step of optimize_expr is an application of the rule recorded with it, and where
   all that the rules ask for holds the result has value and type of the expression.
   */
  lemma TraversalKeeps(e: Expr, g: Setup, fuel: nat, env: Env)
    requires WellTyped(e) && Visit(e, g, fuel).Got?
    ensures AllApplied(Visit(e, g, fuel).t.steps, g)
    ensures AllGranted(Visit(e, g, fuel).t.steps, env) ==> PreservesAt(e, Visit(e, g, fuel).t.e, env)
  {
    hide PreservesAt, WellTyped, AllGranted, AllApplied, Visit;
    NoSteps(g);
    VisitKeeps(e, g, fuel, env);
  }

  /** With -fwrapv no 1 is dropped, so nothing hangs on whether a sum overflows. */
  lemma WrapsWithFwrapv(e: Expr, g: Setup, fuel: nat, f: Fired)
    requires g.wrapv && Visit(e, g, fuel).Got? && f in Visit(e, g, fuel).t.steps
    ensures f.rule != Rules.DropOneLeft && f.rule != Rules.DropOneRight
  {
    hide Visit;
    NoSteps(g);
    VisitKeeps(e, g, fuel, NOWHERE);
    assert Due(f.rule, f.before, g);
  }

  predicate NothingAskedFor(steps: seq<Fired>) { forall f :: f in steps ==> AsksNothing(f.rule) }

  lemma GrantedAnyway(steps: seq<Fired>, env: Env)
    requires NothingAskedFor(steps)
    ensures AllGranted(steps, env)
  {
    forall f | f in steps
      ensures Granted(f, env)
    {
      if Applied(f) {
        NothingAsked(f.rule, f.before, env);
      }
    }
  }

  /** Where only rules that ask for nothing have been applied all values are kept. */
  lemma TraversalPreserves(e: Expr, g: Setup, fuel: nat)
    requires WellTyped(e) && Visit(e, g, fuel).Got? && NothingAskedFor(Visit(e, g, fuel).t.steps)
    ensures Preserves(e, Visit(e, g, fuel).t.e)
  {
    hide WellTyped, Within, SameValue, AllGranted, Visit, NothingAskedFor;
    var t := Visit(e, g, fuel).t;
    forall env
      ensures WellTyped(t.e) && Within(t.e.ty, e.ty) && SameValue(e, t.e, env)
    {
      GrantedAnyway(t.steps, env);
      TraversalKeeps(e, g, fuel, env);
    }
    assert SameValue(e, t.e, NOWHERE);
  }

  /** optimize_condition likewise keeps the truth, calls of optimize_expr between its steps included. */
  lemma ConditionTraversalKeeps(e: Expr, g: Setup, fuel: nat, env: Env)
    requires WellTyped(e) && VisitCondition(e, g, fuel).Got?
    ensures var t := VisitCondition(e, g, fuel).t;
      AllApplied(t.steps, g) && (AllGranted(t.steps, env) || NothingAskedFor(t.steps) ==> WellTyped(t.e) && SameTruth(e, t.e, env))
  {
    hide SameTruth, WellTyped, AllGranted, AllApplied, VisitCondition, NothingAskedFor;
    NoSteps(g);
    VisitConditionKeeps(e, g, fuel, env);
    if NothingAskedFor(VisitCondition(e, g, fuel).t.steps) {
      GrantedAnyway(VisitCondition(e, g, fuel).t.steps, env);
    }
  }

  /** A constant expression is visited once, and is its value. */
  lemma ConstVisited(e: Expr, g: Setup, fuel: nat)
    requires !e.Num? && IsConst(e) && fuel > 0
    ensures Visit(e, g, fuel) ==
      if Eval(e, NOWHERE).None? then GaveUp
      else Got(Trail(Num(Eval(e, NOWHERE).v, e.ty), [Fired(Rules.Fold, e, Num(Eval(e, NOWHERE).v, e.ty))]))
  {
    hide Eval, IsConst;
  }

  // ----- the fuel -----

  /** What more fuel gives, if less was enough. */
  predicate NoLess(less: Visited, more: Visited) { less.Got? ==> more == less }

  lemma {:induction false} VisitMore(e: Expr, g: Setup, fuel: nat)
    ensures NoLess(Visit(e, g, fuel), Visit(e, g, fuel + 1))
    decreases fuel, 0
  {
    hide Rewritten, AtCast, AtUnary, AtBinary, AtShift, Arm, VisitCondition, Folded, IsConst;
    if fuel > 0 && !(!e.Num? && IsConst(e)) {
      if e.Cast? || e.Unary? {
        VisitMore(e.e, g, fuel - 1);
        if Visit(e.e, g, fuel - 1).Got? {
          var v := Visit(e.e, g, fuel - 1).t;
          if e.Cast? {
            AtCastMore(Trail(Cast(v.e, e.ty), v.steps), g, fuel - 1);
          } else {
            AtUnaryMore(Trail(Unary(e.uop, v.e, e.ty), v.steps), g, fuel - 1);
          }
        }
      } else if e.Binary? {
        VisitBinaryMore(e, g, fuel);
      } else if e.Cond? {
        VisitCondMore(e, g, fuel);
      }
    }
  }

  lemma {:induction false} VisitBinaryMore(e: Expr, g: Setup, fuel: nat)
    requires e.Binary? && fuel > 0 && !IsConst(e)
    ensures NoLess(Visit(e, g, fuel), Visit(e, g, fuel + 1))
    decreases fuel - 1, 20
  {
    hide Rewritten, Visit, AtBinary, AtShift, IsConst;
    VisitBinary(e, g, fuel);
    VisitBinary(e, g, fuel + 1);
    VisitMore(e.l, g, fuel - 1);
    VisitMore(e.r, g, fuel - 1);
    if Visit(e.l, g, fuel - 1).Got? {
      var v := Visit(e.l, g, fuel - 1).t;
      if e.op == Shl || e.op == Shr {
        AtShiftMore(Trail(Binary(e.op, v.e, e.r, e.ty), v.steps), g, fuel - 1);
      } else if Visit(e.r, g, fuel - 1).Got? {
        var w := Visit(e.r, g, fuel - 1).t;
        AtBinaryMore(Trail(Binary(e.op, v.e, w.e, e.ty), v.steps + w.steps), g, fuel - 1);
      }
    }
  }

  lemma {:induction false} VisitCondMore(e: Expr, g: Setup, fuel: nat)
    requires e.Cond? && fuel > 0 && !IsConst(e)
    ensures NoLess(Visit(e, g, fuel), Visit(e, g, fuel + 1))
    decreases fuel - 1, 20
  {
    hide Rewritten, Arm, VisitCondition, IsConst;
    VisitConditionMore(e.c, g, fuel - 1);
    VisitMore(e.yes, g, fuel - 1);
    VisitMore(e.no, g, fuel - 1);
    if Visit(e, g, fuel).Got? {
      ArmMore(Visit(e.yes, g, fuel - 1).t, e.ty, g, fuel - 1);
      ArmMore(Visit(e.no, g, fuel - 1).t, e.ty, g, fuel - 1);
    }
  }

  lemma {:induction false} AgainMore(t: Trail, g: Setup, fuel: nat)
    ensures NoLess(Again(t, g, fuel), Again(t, g, fuel + 1))
    decreases fuel, 1
  {
    VisitMore(t.e, g, fuel);
  }

  lemma {:induction false} ArmMore(t: Trail, ty: Type, g: Setup, fuel: nat)
    ensures NoLess(Arm(t, ty, g, fuel), Arm(t, ty, g, fuel + 1))
    decreases fuel, 2
  {
    hide Rewritten, Again, WithType;
    AgainMore(if t.e.ty == ty then t else t.By(Rules.RetypeArm(ty)), g, fuel);
  }

  lemma {:induction false} AtCastMore(t: Trail, g: Setup, fuel: nat)
    requires t.e.Cast?
    ensures NoLess(AtCast(t, g, fuel), AtCast(t, g, fuel + 1))
    decreases fuel, 2
  {
    hide Folded, Again, Arms, CastSame, BoolOfTruth, CastLogic, CastOfCast, CastUnary, CastBitsToInt, CastBitsToChar, CastPromoted,
      CastUints, RetypeSum, CastNumLeft, CastNumRight, CastShl, CastRing, CastQuotient, CastNarrowBits;
    AgainMore(t.By(Rules.CastLogic), g, fuel);
    AgainMore(t.By(Rules.CastShl), g, fuel);
    AgainMore(t.By(Rules.CastRing), g, fuel);
    AgainMore(t.By(Rules.CastNarrowBits), g, fuel);
    if CastCond(t.e).To? {
      ArmsMore(t.By(Rules.CastCond), g, fuel);
    }
  }

  lemma {:induction false} ArmsMore(t: Trail, g: Setup, fuel: nat)
    requires t.e.Cond?
    ensures NoLess(Arms(t, g, fuel), Arms(t, g, fuel + 1))
    decreases fuel, 1
  {
    VisitMore(t.e.yes, g, fuel);
    VisitMore(t.e.no, g, fuel);
  }

  lemma {:induction false} AtUnaryMore(t: Trail, g: Setup, fuel: nat)
    requires t.e.Unary?
    ensures NoLess(AtUnary(t, g, fuel), AtUnary(t, g, fuel + 1))
    decreases fuel, 2
  {
    hide Rewritten, Folded, Again, NotRule, DeMorgan;
    AgainMore(t.By(Rules.NotRule), g, fuel);
  }

  lemma {:induction false} AtBinaryMore(t: Trail, g: Setup, fuel: nat)
    requires t.e.Binary? && t.e.op != Shl && t.e.op != Shr
    ensures NoLess(AtBinary(t, g, fuel), AtBinary(t, g, fuel + 1))
    decreases fuel, 9
  {
    hide Kept, AtCompare, AtLogic, AtDifference, AtQuotient, AtSum, AtProduct, AtBits;
    var u := Cheaper(t, g);
    AtCompareMore(t, g, fuel);
    AtLogicMore(t, g, fuel);
    ArithmeticMore(t, g, fuel);
    ArithmeticMore(u, g, fuel);
    AtBitsMore(u, g, fuel);
  }

  lemma {:induction false} ArithmeticMore(t: Trail, g: Setup, fuel: nat)
    requires t.e.Binary?
    ensures NoLess(AtSum(t, g, fuel), AtSum(t, g, fuel + 1)) && NoLess(AtProduct(t, g, fuel), AtProduct(t, g, fuel + 1))
    ensures NoLess(AtQuotient(t, g, fuel), AtQuotient(t, g, fuel + 1))
    decreases fuel, 2
  {
    hide Rewritten, Folded, Again, SumOfTruths, MergeSums, MergeProducts, Distribute, MulShift, DivShift, ModMask, DivideUchars, ModChars;
    AgainMore(t.By(Rules.SumOfTruths), g, fuel);
    AgainMore(t.By(Rules.MergeProducts), g, fuel);
    AgainMore(t.By(Rules.MulShift), g, fuel);
    AgainMore(t.By(Rules.DivShift), g, fuel);
    AgainMore(t.By(Rules.ModMask), g, fuel);
    AgainMore(t.By(Rules.DivideUchars), g, fuel);
    AgainMore(t.By(Rules.ModChars), g, fuel);
  }

  lemma {:induction false} AtBitsMore(t: Trail, g: Setup, fuel: nat)
    requires t.e.Binary?
    ensures NoLess(AtBits(t, g, fuel), AtBits(t, g, fuel + 1))
    decreases fuel, 4
  {
    hide Rewritten, Again, BitsOfUchars, MaskByte, PromoteAll;
    AgainMore(t.By(Rules.BitsOfUchars), g, fuel);
    PromoteAllMore(t, g, fuel);
    if PromoteAll(t, g, fuel).Got? {
      var u := PromoteAll(t, g, fuel).t;
      AgainMore(u.By(Rules.MaskByte), g, fuel);
    }
  }

  lemma {:induction false} PromoteAllMore(t: Trail, g: Setup, fuel: nat)
    requires t.e.Binary?
    ensures NoLess(PromoteAll(t, g, fuel), PromoteAll(t, g, fuel + 1))
    decreases fuel, 3, t.e
  {
    hide Rewritten, Folded, Promote, OperandsAgain, MaskedOut;
    if PromoteAll(t, g, fuel).Got? && t.e.ty == INT {
      if IsBits(t.e.l) {
        PromoteAllMore(Trail(t.e.l, []), g, fuel);
      }
      if IsBits(t.e.r) {
        PromoteAllMore(Trail(t.e.r, []), g, fuel);
      }
      var v := (if IsBits(t.e.l) then PromoteAll(Trail(t.e.l, []), g, fuel) else Got(Trail(t.e.l, []))).t;
      var w := (if IsBits(t.e.r) then PromoteAll(Trail(t.e.r, []), g, fuel) else Got(Trail(t.e.r, []))).t;
      var u := Trail(Binary(t.e.op, v.e, w.e, t.e.ty), t.steps + (v.steps + w.steps));
      var p := u.By(Rules.Promote);
      if MaskedOut(u.e) && p.e.Cast? && p.e.e.Binary? {
        OperandsAgainMore(p, g, fuel);
      }
    }
  }

  lemma {:induction false} OperandsAgainMore(t: Trail, g: Setup, fuel: nat)
    requires t.e.Cast? && t.e.e.Binary?
    ensures NoLess(OperandsAgain(t, g, fuel), OperandsAgain(t, g, fuel + 1))
    decreases fuel, 2
  {
    hide Rewritten, Folded, Cheaper;
    VisitMore(t.e.e.l, g, fuel);
    VisitMore(t.e.e.r, g, fuel);
  }

  lemma {:induction false} AtLogicMore(t: Trail, g: Setup, fuel: nat)
    requires t.e.Binary?
    ensures NoLess(AtLogic(t, g, fuel), AtLogic(t, g, fuel + 1))
    decreases fuel, 2
  {
    hide Rewritten, Folded, Again, LogicSkip, LogicConst;
    var u := t.By(Rules.LogicSkip);
    AgainMore(u.By(Rules.LogicConst), g, fuel);
  }

  lemma {:induction false} AtCompareMore(t: Trail, g: Setup, fuel: nat)
    requires t.e.Binary?
    ensures NoLess(AtCompare(t, g, fuel), AtCompare(t, g, fuel + 1))
    decreases fuel, 3
  {
    hide Rewritten, Folded, DropLeft, DropRight, SwapCompare, NarrowBoth, NarrowConst, NarrowUint, NextConst, SwapsLast;
    if AtCompare(t, g, fuel).Got? && !g.wrapv {
      var t1 := if g.cost(t.e.l) < g.cost(t.e.r) then t.By(Rules.SwapCompare) else t;
      DropMore(t1, g, fuel);
      DropMore(DropLeft(t1, g, fuel).t, g, fuel);
    }
  }

  lemma {:induction false} DropMore(t: Trail, g: Setup, fuel: nat)
    ensures NoLess(DropLeft(t, g, fuel), DropLeft(t, g, fuel + 1)) && NoLess(DropRight(t, g, fuel), DropRight(t, g, fuel + 1))
    decreases fuel, 2
  {
    hide Rewritten, DropOneLeft, DropOneRight;
    var l, r := t.By(Rules.DropOneLeft), t.By(Rules.DropOneRight);
    if l.e.Binary? {
      VisitMore(l.e.l, g, fuel);
    }
    if r.e.Binary? {
      VisitMore(r.e.r, g, fuel);
    }
  }

  lemma {:induction false} AtShiftMore(t: Trail, g: Setup, fuel: nat)
    requires t.e.Binary?
    ensures NoLess(AtShift(t, g, fuel), AtShift(t, g, fuel + 1))
    decreases fuel, 3
  {
    hide Folded, Again, NewCast, ShiftZero, ShiftOut, ShiftOfTruth, ShrPromoted;
    var u := t.By(Rules.CountCast);
    VisitMore(u.e.r, g, fuel);
    if Visit(u.e.r, g, fuel).Got? {
      var v := Visit(u.e.r, g, fuel).t;
      var n := Trail(Binary(u.e.op, u.e.l, v.e, u.e.ty), u.steps + v.steps);
      AgainMore(n.By(Rules.ShiftOfTruth), g, fuel);
    }
  }

  lemma {:induction false} OnConditionMore(t: Trail, x: Expr, g: Setup, fuel: nat)
    requires fuel > 0
    ensures NoLess(OnCondition(t, x, g, fuel), OnCondition(t, x, g, fuel + 1))
    ensures t.e.Binary? && x == t.e.l ==> NoLess(NegatedCondition(t, g, fuel), NegatedCondition(t, g, fuel + 1))
    decreases fuel, 1
  {
    hide Rewritten, VisitCondition;
    VisitConditionMore(x, g, fuel - 1);
  }

  lemma {:induction false} VisitConditionMore(e: Expr, g: Setup, fuel: nat)
    ensures NoLess(VisitCondition(e, g, fuel), VisitCondition(e, g, fuel + 1))
    decreases fuel, 9
  {
    hide Rewritten, Visit, BothConditions, AfterConnectives;
    if VisitCondition(e, g, fuel).Got? {
      VisitMore(e, g, fuel - 1);
      var t := Visit(e, g, fuel - 1).t;
      if t.e.Binary? && IsLogical(t.e.op) {
        BothConditionsMore(t, g, fuel);
      }
      var t1 := (if t.e.Binary? && IsLogical(t.e.op) then BothConditions(t, g, fuel) else Got(t)).t;
      ConditionTailMore(t1, g, fuel);
    }
  }

  lemma {:induction false} BothConditionsMore(t: Trail, g: Setup, fuel: nat)
    requires t.e.Binary? && fuel > 0
    ensures NoLess(BothConditions(t, g, fuel), BothConditions(t, g, fuel + 1))
    decreases fuel, 1
  {
    hide Rewritten, VisitCondition;
    VisitConditionMore(t.e.l, g, fuel - 1);
    VisitConditionMore(t.e.r, g, fuel - 1);
  }

  lemma {:induction false} ConditionTailMore(t1: Trail, g: Setup, fuel: nat)
    requires fuel > 0
    ensures NoLess(AfterConnectives(t1, g, fuel), AfterConnectives(t1, g, fuel + 1))
    decreases fuel, 3
  {
    hide Rewritten, OnCondition, NegatedCondition;
    if AfterConnectives(t1, g, fuel).Got? {
      if NotNot(t1.e) {
        OnConditionMore(t1, t1.e.e.e, g, fuel);
      }
      var t2 := (if NotNot(t1.e) then OnCondition(t1, t1.e.e.e, g, fuel) else Got(t1)).t;
      if t2.e.Binary? && t2.e.op == Eq && IsZero(t2.e.r) {
        OnConditionMore(t2, t2.e.l, g, fuel);
      }
      var t3 := (if t2.e.Binary? && t2.e.op == Eq && IsZero(t2.e.r) then NegatedCondition(t2, g, fuel) else Got(t2)).t;
      if t3.e.Binary? && t3.e.op == Ne && IsZero(t3.e.r) {
        OnConditionMore(t3, t3.e.l, g, fuel);
      }
      var t4 := (if t3.e.Binary? && t3.e.op == Ne && IsZero(t3.e.r) then OnCondition(t3, t3.e.l, g, fuel) else Got(t3)).t;
      if t4.e.Cast? && t4.e.ty.kind == KBool {
        OnConditionMore(t4, t4.e.e, g, fuel);
      }
    }
  }

  /** The fuel decides whether the visit ends, not how. */
  lemma {:induction false} FuelOnlyEnds(e: Expr, g: Setup, fuel: nat, more: nat)
    requires fuel <= more && Visit(e, g, fuel).Got?
    ensures Visit(e, g, more) == Visit(e, g, fuel)
    decreases more
  {
    hide Rewritten, Visit;
    if fuel < more {
      FuelOnlyEnds(e, g, fuel, more - 1);
      VisitMore(e, g, more - 1);
    }
  }

  // ----- where an arm of `?:` is optimized twice -----

  /** A visit that ends with `e'`. */
  predicate Gives(v: Visited, e': Expr) { v.Got? && v.t.e == e' }

  lemma NotFolded(t: Trail)
    requires !IsConst(t.e)
    ensures Folded(t) == Got(t)
  {
  }

  lemma FoldMade(t: Trail)
    requires Fold(t.e).To?
    ensures t.By(Rules.Fold) == Trail(Fold(t.e).e, t.steps + [Fired(Rules.Fold, t.e, Fold(t.e).e)])
  {
    hide Fold;
  }

  lemma LeafVisited(e: Expr, g: Setup, fuel: nat)
    requires (e.Var? || e.Num?) && fuel > 0
    ensures Visit(e, g, fuel) == Got(Trail(e, []))
  {
  }

  lemma PromotedVisited(x: Expr, g: Setup, fuel: nat)
    requires x.Var? && x.ty == CHAR && fuel > 1
    ensures Visit(Cast(x, INT), g, fuel) == Got(Trail(Cast(x, INT), []))
  {
    hide Rewritten, Folded;
    LeafVisited(x, g, fuel - 1);
    assert !IsConst(Cast(x, INT));
    NotFolded(Trail(Cast(x, INT), []));
  }

  lemma CountVisited(g: Setup, fuel: nat)
    requires fuel > 0
    ensures NewCast(Num(8, INT), UCHAR) == Cast(Num(8, INT), UCHAR) && NewCast(Num(8, UCHAR), UCHAR) == Num(8, UCHAR)
    ensures Gives(Visit(Cast(Num(8, INT), UCHAR), g, fuel), Num(8, UCHAR))
  {
    hide Rewritten, Visit, Folded, Fit;
    FitSelf(8, INT);
    FitSelf(8, UCHAR);
    assert IsConst(Cast(Num(8, INT), UCHAR)) && Eval(Cast(Num(8, INT), UCHAR), NOWHERE) == Some(8);
    ConstVisited(Cast(Num(8, INT), UCHAR), g, fuel);
  }

  /** The shift whose count has been visited. */
  lemma CountMade(t: Trail)
    requires CountCast(t.e).To?
    ensures t.By(Rules.CountCast) == Trail(CountCast(t.e).e, t.steps + [Fired(Rules.CountCast, t.e, CountCast(t.e).e)])
  {
    hide CountCast;
  }

  lemma ShiftRules(t: Trail)
    requires ShiftZero(t.e).NoMatch?
    ensures ShiftOut(t.e).To? ==> t.By(Rules.ShiftOut) == Trail(ShiftOut(t.e).e, t.steps + [Fired(Rules.ShiftOut, t.e, ShiftOut(t.e).e)])
    ensures ShrPromoted(t.e).To? ==> t.By(Rules.ShrPromoted).e == ShrPromoted(t.e).e
  {
    hide ShiftOut, ShrPromoted, ShiftZero;
  }

  /** c >> 8 for a signed char, and what the first visit makes of it. */
  const WIDE_SHIFT: Expr := Binary(Shr, Cast(Var(0, CHAR), INT), Num(8, INT), INT)
  const NARROW_SHIFT: Expr := Binary(Shr, Var(0, CHAR), Num(8, UCHAR), CHAR)

  lemma WideShiftVisited(g: Setup, fuel: nat)
    requires fuel > 2
    ensures Gives(Visit(WIDE_SHIFT, g, fuel), Cast(NARROW_SHIFT, INT))
  {
    hide Visit, Folded, NewCast, Rewritten;
    var x, c := Cast(Var(0, CHAR), INT), Cast(Num(8, INT), UCHAR);
    PromotedVisited(Var(0, CHAR), g, fuel - 1);
    CountVisited(g, fuel - 1);
    VisitBinary(WIDE_SHIFT, g, fuel);
    var s := Binary(Shr, x, Num(8, UCHAR), INT);
    var t := Trail(WIDE_SHIFT, Visit(x, g, fuel - 1).t.steps);
    CountMade(t);
    ShiftRules(Trail(s, t.By(Rules.CountCast).steps + Visit(c, g, fuel - 1).t.steps));
    assert ShiftZero(s).NoMatch? && ShiftOut(s).NoMatch? && ShiftOfTruth(s).NoMatch? && ShrPromoted(s) == To(Cast(NARROW_SHIFT, INT));
  }

  /** The second visit takes the count for too large, which is not granted where the value is negative. */
  const LOST_SHIFT: Fired := Fired(Rules.ShiftOut, NARROW_SHIFT, Num(0, CHAR))

  lemma NarrowShiftVisited(g: Setup, fuel: nat)
    requires fuel > 1
    ensures Gives(Visit(NARROW_SHIFT, g, fuel), Num(0, CHAR)) && LOST_SHIFT in Visit(NARROW_SHIFT, g, fuel).t.steps
  {
    hide Visit, Folded, NewCast, Rewritten;
    LeafVisited(Var(0, CHAR), g, fuel - 1);
    LeafVisited(Num(8, UCHAR), g, fuel - 1);
    CountVisited(g, fuel);
    VisitBinary(NARROW_SHIFT, g, fuel);
    var t := Trail(NARROW_SHIFT, []);
    CountMade(t);
    ShiftRules(Trail(NARROW_SHIFT, t.By(Rules.CountCast).steps + []));
    assert ShiftZero(NARROW_SHIFT).NoMatch? && ShiftOut(NARROW_SHIFT) == To(Num(0, CHAR));
  }

  lemma ShiftNotGranted(env: Env)
    requires env(0) == -1
    ensures Applied(LOST_SHIFT) && !Granted(LOST_SHIFT, env)
  {
    hide Eval;
    CharValue(0, env);
  }

  lemma ShiftValues(env: Env)
    requires env(0) == -1
    ensures WellTyped(NARROW_SHIFT) && WellTyped(WIDE_SHIFT)
    ensures Eval(NARROW_SHIFT, env) == Some(-1) && Eval(WIDE_SHIFT, env) == Some(-1)
    ensures Eval(Num(0, CHAR), env) == Some(0) == Eval(Num(0, INT), env)
  {
    hide Fit, Pow2, Eval;
    CharValue(0, env);
    Literal(Num(8, INT), env);
    Literal(Num(8, UCHAR), env);
    Literal(Num(0, CHAR), env);
    Literal(Num(0, INT), env);
    StrictEval(Shr, Var(0, CHAR), Num(8, UCHAR), CHAR, env);
    StrictEval(Shr, Cast(Var(0, CHAR), INT), Num(8, INT), INT, env);
    ShiftedOut();
  }

  lemma CharValue(id: nat, env: Env)
    requires InRange(env(id), CHAR)
    ensures Eval(Var(id, CHAR), env) == Some(env(id)) == Eval(Cast(Var(id, CHAR), INT), env)
  {
    hide Fit;
    FitSelf(env(id), CHAR);
    FitSelf(env(id), INT);
  }

  lemma ShiftedOut()
    ensures Apply(Shr, -1, 8, CHAR, CHAR) == Some(-1) == Apply(Shr, -1, 8, INT, INT)
  {
    hide Pow2;
    Pow2Values();
    DivModUnique(-1, -1, 255, 256);
    FitSelf(-1, CHAR);
    FitSelf(-1, INT);
  }

  lemma VarCondition(x: Expr, g: Setup, fuel: nat)
    requires x.Var? && fuel > 1
    ensures Gives(VisitCondition(x, g, fuel), x)
  {
    LeafVisited(x, g, fuel - 1);
  }

  function Choice(c: Expr, yes: Expr): Expr { Cond(c, yes, Num(0, INT), INT) }

  predicate Revisited(e: Expr) { (e.Cast? || e.Cond?) && e.ty == INT }

  /** `c ? yes : 0`, whose arm is optimized twice if it has become a cast or a `?:`. */
  lemma ChoiceVisited(c: Expr, yes: Expr, yes': Expr, yes2: Expr, g: Setup, fuel: nat)
    requires c.Var? && fuel > 2 && Gives(Visit(yes, g, fuel - 1), yes')
    requires if Revisited(yes') then Gives(Visit(yes', g, fuel - 1), yes2) else !yes'.Cast? && !yes'.Cond? && yes2 == yes'
    ensures Gives(Visit(Choice(c, yes), g, fuel), Choice(c, yes2))
    ensures forall f :: f in Visit(yes, g, fuel - 1).t.steps ==> f in Visit(Choice(c, yes), g, fuel).t.steps
    ensures Revisited(yes') ==> forall f :: f in Visit(yes', g, fuel - 1).t.steps ==> f in Visit(Choice(c, yes), g, fuel).t.steps
  {
    VarCondition(c, g, fuel - 1);
    LeafVisited(Num(0, INT), g, fuel - 1);
    VisitCond(Choice(c, yes), g, fuel);
  }

  lemma VisitCond(e: Expr, g: Setup, fuel: nat)
    requires e.Cond? && !IsConst(e) && fuel > 0
    requires VisitCondition(e.c, g, fuel - 1).Got? && Visit(e.yes, g, fuel - 1).Got? && Visit(e.no, g, fuel - 1).Got?
    ensures var u, v, w := VisitCondition(e.c, g, fuel - 1).t, Arm(Visit(e.yes, g, fuel - 1).t, e.ty, g, fuel - 1),
                           Arm(Visit(e.no, g, fuel - 1).t, e.ty, g, fuel - 1);
      Visit(e, g, fuel) ==
        if v.GaveUp? || w.GaveUp? then GaveUp else Got(Trail(Cond(u.e, v.t.e, w.t.e, e.ty), u.steps + (v.t.steps + w.t.steps)))
  {
    hide Arm, VisitCondition;
  }

  lemma VisitCast(e: Expr, g: Setup, fuel: nat)
    requires e.Cast? && !IsConst(e) && fuel > 0 && Visit(e.e, g, fuel - 1).Got?
    ensures Visit(e, g, fuel) == AtCast(Trail(Cast(Visit(e.e, g, fuel - 1).t.e, e.ty), Visit(e.e, g, fuel - 1).t.steps), g, fuel - 1)
  {
    hide AtCast;
  }

  lemma ZeroCast(s: seq<Fired>, g: Setup, fuel: nat)
    ensures var t := Trail(Cast(Num(0, CHAR), INT), s); AtCast(t, g, fuel) == Got(t.By(Rules.Fold)) && t.By(Rules.Fold).e == Num(0, INT)
  {
    hide Again, Arms, Fit, Rewritten;
    FitSelf(0, CHAR);
    FitSelf(0, INT);
    assert Eval(Cast(Num(0, CHAR), INT), NOWHERE) == Some(0);
    FoldMade(Trail(Cast(Num(0, CHAR), INT), s));
  }

  lemma NarrowedZero(g: Setup, fuel: nat)
    requires fuel > 2
    ensures Gives(Visit(Cast(NARROW_SHIFT, INT), g, fuel), Num(0, INT))
    ensures LOST_SHIFT in Visit(Cast(NARROW_SHIFT, INT), g, fuel).t.steps
  {
    hide Visit, AtCast;
    NarrowShiftVisited(g, fuel - 1);
    VisitCast(Cast(NARROW_SHIFT, INT), g, fuel);
    ZeroCast(Visit(NARROW_SHIFT, g, fuel - 1).t.steps, g, fuel - 1);
  }

  /**
   a ? c >> 8 : 0 with a negative signed char c: the arm becomes (int)(c >> 8), is optimized again because it is a
   cast, and is 0 then instead of -1. The step that is wrong is the second visit's, to the narrowed shift.
   */
  lemma ShiftIsLost(g: Setup, fuel: nat, env: Env)
    requires fuel > 4 && env(0) == -1 && env(1) == 1
    ensures var e := Choice(Var(1, INT), WIDE_SHIFT);
      && Gives(Visit(e, g, fuel), Choice(Var(1, INT), Num(0, INT)))
      && Eval(e, env) == Some(-1) && Eval(Visit(e, g, fuel).t.e, env) == Some(0)
      && LOST_SHIFT in Visit(e, g, fuel).t.steps && !Granted(LOST_SHIFT, env)
  {
    hide Visit, Eval, Granted;
    var c := Var(1, INT);
    WideShiftVisited(g, fuel - 1);
    NarrowedZero(g, fuel - 1);
    ShiftNotGranted(env);
    ChoiceVisited(c, WIDE_SHIFT, Cast(NARROW_SHIFT, INT), Num(0, INT), g, fuel);
    ShiftValues(env);
    Chosen(c, WIDE_SHIFT, env);
    Chosen(c, Num(0, INT), env);
  }

  lemma Chosen(c: Expr, yes: Expr, env: Env)
    requires c.Var? && c.ty == INT && env(c.id) == 1
    ensures Eval(Choice(c, yes), env) == Eval(yes, env)
  {
    FitSelf(1, INT);
  }

  /** (int)(char)((int)x - 1) < (int)y for signed chars, where nothing overflows. */
  const WIDE_SUM: Expr := Binary(Sub, Cast(Var(0, CHAR), INT), Num(1, INT), INT)
  const NARROW_SUM: Expr := Binary(Sub, Var(0, CHAR), Num(1, CHAR), CHAR)
  const CUT_SUM: Expr := Cast(NARROW_SUM, CHAR)
  const WIDE_TEST: Expr := Binary(Lt, Cast(Cast(WIDE_SUM, CHAR), INT), Cast(Var(1, CHAR), INT), INT)
  const CUT_TEST: Expr := Binary(Lt, CUT_SUM, Var(1, CHAR), INT)
  const LOST_TEST: Expr := Binary(Le, Var(0, CHAR), Var(1, CHAR), INT)
  const LOST_ONE: Fired := Fired(Rules.DropOneLeft, Binary(Lt, NARROW_SUM, Var(1, CHAR), INT), LOST_TEST)

  lemma SumVisited(x: Expr, n: Expr, ty: Type, g: Setup, fuel: nat)
    requires fuel > 0 && n.Num? && (x.Var? || x.Cast?) && Visit(x, g, fuel - 1) == Got(Trail(x, [])) && fuel > 1 && !IsConst(x)
    ensures Visit(Binary(Sub, x, n, ty), g, fuel) == Got(Trail(Binary(Sub, x, n, ty), []))
  {
    hide Visit;
    LeafVisited(n, g, fuel - 1);
    VisitBinary(Binary(Sub, x, n, ty), g, fuel);
  }

  lemma WideSumCut(g: Setup, fuel: nat)
    requires fuel > 4
    ensures Gives(Visit(Cast(Cast(WIDE_SUM, CHAR), INT), g, fuel), Cast(CUT_SUM, INT))
  {
    hide Visit, Again, Arms, Folded;
    PromotedVisited(Var(0, CHAR), g, fuel - 3);
    SumVisited(Cast(Var(0, CHAR), INT), Num(1, INT), INT, g, fuel - 2);
    VisitCast(Cast(WIDE_SUM, CHAR), g, fuel - 1);
    CutAt(g, fuel - 2);
    VisitCast(Cast(Cast(WIDE_SUM, CHAR), INT), g, fuel);
    CutAgainAt(Visit(Cast(WIDE_SUM, CHAR), g, fuel - 1).t.steps, g, fuel - 1);
  }

  lemma CastRules(t: Trail)
    ensures CastNumRight(t.e).To? ==> t.By(Rules.CastNumRight).e == CastNumRight(t.e).e
    ensures CastSame(t.e).To? ==> t.By(Rules.CastSame).e == CastSame(t.e).e
    ensures RetypeSum(t.e).To? ==> t.By(Rules.RetypeSum) == Trail(RetypeSum(t.e).e, t.steps + [Fired(Rules.RetypeSum, t.e, RetypeSum(t.e).e)])
  {
    hide CastNumRight, CastSame, RetypeSum;
  }

  lemma CompareRules(t: Trail)
    ensures DropOneLeft(t.e).To? ==>
      t.By(Rules.DropOneLeft) == Trail(DropOneLeft(t.e).e, t.steps + [Fired(Rules.DropOneLeft, t.e, DropOneLeft(t.e).e)])
    ensures NarrowBoth(t.e).To? ==> t.By(Rules.NarrowBoth).e == NarrowBoth(t.e).e
    ensures NarrowBoth(t.e).NoMatch? ==> t.By(Rules.NarrowBoth) == t
    ensures NarrowConst(t.e).NoMatch? ==> t.By(Rules.NarrowConst) == t
    ensures NarrowUint(t.e).NoMatch? ==> t.By(Rules.NarrowUint) == t
    ensures NextConst(t.e).NoMatch? ==> t.By(Rules.NextConst) == t
  {
    hide DropOneLeft, NarrowBoth, NarrowConst, NarrowUint, NextConst;
  }

  lemma CutAt(g: Setup, fuel: nat)
    ensures Gives(AtCast(Trail(Cast(WIDE_SUM, CHAR), []), g, fuel), CUT_SUM)
  {
    hide Again, Arms, Folded, Rewritten;
    var e := Cast(WIDE_SUM, CHAR);
    assert CastNumRight(e) == To(CUT_SUM);
    CastRules(Trail(e, []));
  }

  lemma CutAgainAt(s: seq<Fired>, g: Setup, fuel: nat)
    ensures Gives(AtCast(Trail(Cast(CUT_SUM, INT), s), g, fuel), Cast(CUT_SUM, INT))
  {
    hide Again, Arms, Folded, Rewritten;
    assert !IsConst(Cast(CUT_SUM, INT));
    NotFolded(Trail(Cast(CUT_SUM, INT), s));
  }

  /** No operand is costlier on the right. */
  predicate LeftCostly(g: Setup) {
    !g.wrapv && g.cost(Cast(CUT_SUM, INT)) >= g.cost(Cast(Var(1, CHAR), INT)) && g.cost(NARROW_SUM) >= g.cost(Var(1, CHAR))
  }

  lemma WideTestVisited(g: Setup, fuel: nat)
    requires fuel > 5 && LeftCostly(g)
    ensures Gives(Visit(WIDE_TEST, g, fuel), CUT_TEST)
  {
    hide Visit, AtCompare;
    WideSumCut(g, fuel - 1);
    PromotedVisited(Var(1, CHAR), g, fuel - 1);
    VisitBinary(WIDE_TEST, g, fuel);
    var v := Visit(WIDE_TEST.l, g, fuel - 1).t;
    WideTestAt(v.steps + [], g, fuel - 1);
  }

  lemma WideTestAt(s: seq<Fired>, g: Setup, fuel: nat)
    requires LeftCostly(g)
    ensures Gives(AtCompare(Trail(Binary(Lt, Cast(CUT_SUM, INT), Cast(Var(1, CHAR), INT), INT), s), g, fuel), CUT_TEST)
  {
    hide Visit, Folded, Rewritten;
    var e := Binary(Lt, Cast(CUT_SUM, INT), Cast(Var(1, CHAR), INT), INT);
    assert DropOneLeft(e).NoMatch? && DropOneRight(e).NoMatch? && NarrowBoth(e) == To(CUT_TEST);
    assert NarrowConst(CUT_TEST).NoMatch? && NarrowUint(CUT_TEST).NoMatch? && NextConst(CUT_TEST).NoMatch?;
    assert !SwapsLast(CUT_TEST, g) && !IsConst(CUT_TEST);
    var t := Trail(e, s);
    CompareRules(t);
    CompareRules(t.By(Rules.NarrowBoth));
    NotFolded(t.By(Rules.NarrowBoth));
  }

  lemma CutTestVisited(g: Setup, fuel: nat)
    requires fuel > 4 && LeftCostly(g)
    ensures Gives(Visit(CUT_TEST, g, fuel), LOST_TEST)
    ensures LOST_ONE in Visit(CUT_TEST, g, fuel).t.steps
  {
    hide Visit, AtCompare, AtCast;
    LeafVisited(Var(0, CHAR), g, fuel - 3);
    LeafVisited(Var(0, CHAR), g, fuel - 1);
    LeafVisited(Var(1, CHAR), g, fuel - 1);
    SumVisited(Var(0, CHAR), Num(1, CHAR), CHAR, g, fuel - 2);
    VisitCast(CUT_SUM, g, fuel - 1);
    SumUncut(g, fuel - 2);
    VisitBinary(CUT_TEST, g, fuel);
    CutTestAt(Visit(CUT_SUM, g, fuel - 1).t.steps + [], g, fuel - 1);
  }

  lemma SumUncut(g: Setup, fuel: nat)
    ensures Gives(AtCast(Trail(CUT_SUM, []), g, fuel), NARROW_SUM)
  {
    hide Again, Arms, Folded, Rewritten;
    assert CastSame(CUT_SUM) == To(NARROW_SUM);
    CastRules(Trail(CUT_SUM, []));
  }

  lemma CutTestAt(s: seq<Fired>, g: Setup, fuel: nat)
    requires fuel > 0 && LeftCostly(g)
    ensures var e := Binary(Lt, NARROW_SUM, Var(1, CHAR), INT); var v := AtCompare(Trail(e, s), g, fuel);
      Gives(v, LOST_TEST) && LOST_ONE in v.t.steps
  {
    hide Visit, Folded, Rewritten;
    LeafVisited(Var(0, CHAR), g, fuel);
    var e := Binary(Lt, NARROW_SUM, Var(1, CHAR), INT);
    var t := Trail(e, s);
    var u := Trail(LOST_TEST, t.By(Rules.DropOneLeft).steps + []);
    CompareRules(t);
    CompareRules(u);
    NotFolded(u);
    assert DropOneLeft(e) == To(LOST_TEST);
    assert DropOneRight(LOST_TEST).NoMatch? && NarrowBoth(LOST_TEST).NoMatch? && NarrowConst(LOST_TEST).NoMatch?;
    assert NarrowUint(LOST_TEST).NoMatch? && NextConst(LOST_TEST).NoMatch?;
    assert !SwapsLast(LOST_TEST, g) && !IsConst(LOST_TEST);
  }

  /**
   a ? (b ? (char)(x - 1) < y : 0) : 0 with x == -128 and y == 0: the inner `?:` is optimized again because it is
   one, and the comparison, by then of chars, loses its 1 although the subtraction wraps.
   */
  lemma OneIsLost(g: Setup, fuel: nat, env: Env)
    requires fuel > 8 && LeftCostly(g) && env(0) == -128 && env(1) == 0 && env(2) == 1 && env(3) == 1
    ensures var a, b := Var(2, INT), Var(3, INT);
      var e := Choice(a, Choice(b, WIDE_TEST));
      && Gives(Visit(e, g, fuel), Choice(a, Choice(b, LOST_TEST)))
      && Eval(e, env) == Some(0) && Eval(Visit(e, g, fuel).t.e, env) == Some(1)
      && LOST_ONE in Visit(e, g, fuel).t.steps && !Granted(LOST_ONE, env)
  {
    hide Visit, Eval, Granted;
    var a, b := Var(2, INT), Var(3, INT);
    WideTestVisited(g, fuel - 2);
    ChoiceVisited(b, WIDE_TEST, CUT_TEST, CUT_TEST, g, fuel - 1);
    CutTestVisited(g, fuel - 2);
    ChoiceVisited(b, CUT_TEST, LOST_TEST, LOST_TEST, g, fuel - 1);
    ChoiceVisited(a, Choice(b, WIDE_TEST), Choice(b, CUT_TEST), Choice(b, LOST_TEST), g, fuel);
    TestValues(env);
    OneNotGranted(env);
    Chosen(b, WIDE_TEST, env);
    Chosen(a, Choice(b, WIDE_TEST), env);
    Chosen(b, LOST_TEST, env);
    Chosen(a, Choice(b, LOST_TEST), env);
  }

  lemma OneNotGranted(env: Env)
    requires env(0) == -128
    ensures Applied(LOST_ONE) && !Granted(LOST_ONE, env)
  {
    hide Eval;
    CharValue(0, env);
    assert DropOneLeft(LOST_ONE.before) == To(LOST_TEST);
  }

  lemma TestValues(env: Env)
    requires env(0) == -128 && env(1) == 0
    ensures Eval(WIDE_TEST, env) == Some(0) && Eval(LOST_TEST, env) == Some(1)
  {
    hide Fit, Apply, Eval, WellTyped;
    CharValue(0, env);
    CharValue(1, env);
    CutValue(env);
    TestTyped();
    CompareEval(Lt, WIDE_TEST.l, WIDE_TEST.r, INT, env);
    CompareEval(Le, Var(0, CHAR), Var(1, CHAR), INT, env);
  }

  lemma TestTyped()
    ensures WellTyped(WIDE_TEST.l) && WellTyped(WIDE_TEST.r) && WellTyped(Var(0, CHAR)) && WellTyped(Var(1, CHAR))
  {
    assert WellTyped(WIDE_SUM);
    assert WellTyped(Cast(WIDE_SUM, CHAR));
  }

  /** (char)(-129) is 127. */
  lemma CutValue(env: Env)
    requires env(0) == -128
    ensures Eval(WIDE_TEST.l, env) == Some(127)
  {
    hide Fit, Apply, Eval;
    CharValue(0, env);
    Literal(Num(1, INT), env);
    RingEval(Sub, Cast(Var(0, CHAR), INT), Num(1, INT), INT, env);
    FitSelf(-129, INT);
    CongIf(-129, 127, -1, 256);
    CongFit(-129, 127, CHAR);
    FitSelf(127, CHAR);
    FitSelf(127, INT);
    CastEval(WIDE_SUM, CHAR, env);
    CastEval(Cast(WIDE_SUM, CHAR), INT, env);
  }

  // ----- where a sum takes the type of its byte -----

  /** (int)(unsigned char)(c + (a < b)) for a signed char c. */
  const LESS: Expr := Binary(Lt, Var(1, INT), Var(2, INT), INT)
  const BYTE_SUM: Expr := Binary(Add, Cast(Var(0, CHAR), INT), LESS, INT)
  const SIGN_SUM: Expr := Binary(Add, Var(0, CHAR), WithType(LESS, CHAR), CHAR)
  const LOST_SIGN: Fired := Fired(Rules.RetypeSum, Cast(BYTE_SUM, UCHAR), SIGN_SUM)

  lemma LessVisited(g: Setup, fuel: nat)
    requires fuel > 1 && g.cost(Var(1, INT)) >= g.cost(Var(2, INT))
    ensures Visit(LESS, g, fuel) == Got(Trail(LESS, []))
  {
    hide Visit, AtCompare;
    LeafVisited(Var(1, INT), g, fuel - 1);
    LeafVisited(Var(2, INT), g, fuel - 1);
    VisitBinary(LESS, g, fuel);
    var none: seq<Fired> := [];
    assert none + none == none;
    LessAt(g, fuel - 1);
  }

  lemma LessAt(g: Setup, fuel: nat)
    requires g.cost(Var(1, INT)) >= g.cost(Var(2, INT))
    ensures AtCompare(Trail(LESS, []), g, fuel) == Got(Trail(LESS, []))
  {
    hide Visit, Folded, Rewritten;
    assert DropOneLeft(LESS).NoMatch? && DropOneRight(LESS).NoMatch? && NarrowBoth(LESS).NoMatch?;
    assert NarrowConst(LESS).NoMatch? && NarrowUint(LESS).NoMatch? && NextConst(LESS).NoMatch?;
    assert !SwapsLast(LESS, g) && !IsConst(LESS);
    CompareRules(Trail(LESS, []));
    NotFolded(Trail(LESS, []));
  }

  lemma ByteSumVisited(g: Setup, fuel: nat)
    requires fuel > 2 && g.cost(Var(1, INT)) >= g.cost(Var(2, INT)) && g.cost(BYTE_SUM.l) >= g.cost(LESS)
    ensures Visit(BYTE_SUM, g, fuel) == Got(Trail(BYTE_SUM, []))
  {
    hide Visit, Folded, Again;
    PromotedVisited(Var(0, CHAR), g, fuel - 1);
    LessVisited(g, fuel - 1);
    VisitBinary(BYTE_SUM, g, fuel);
    var none: seq<Fired> := [];
    assert none + none == none;
    assert SumOfTruths(BYTE_SUM).NoMatch? && MergeSums(BYTE_SUM).NoMatch?;
  }

  lemma SignSumVisited(g: Setup, fuel: nat)
    ensures AtCast(Trail(Cast(BYTE_SUM, UCHAR), []), g, fuel) == Got(Trail(SIGN_SUM, [LOST_SIGN]))
  {
    hide Again, Arms, Folded, Rewritten, NewCast, Divisions.CastQuotient;
    var t := Trail(Cast(BYTE_SUM, UCHAR), []);
    assert RetypeSum(t.e) == To(SIGN_SUM) && !IsConst(SIGN_SUM);
    CastRules(t);
    var none: seq<Fired> := [];
    assert none + [LOST_SIGN] == [LOST_SIGN];
    NotFolded(Trail(SIGN_SUM, [LOST_SIGN]));
  }

  lemma SignCastVisited(g: Setup, fuel: nat)
    ensures AtCast(Trail(Cast(SIGN_SUM, INT), [LOST_SIGN]), g, fuel) == Got(Trail(Cast(SIGN_SUM, INT), [LOST_SIGN]))
  {
    hide Again, Arms, Folded, Rewritten, NewCast;
    assert !IsConst(Cast(SIGN_SUM, INT));
    NotFolded(Trail(Cast(SIGN_SUM, INT), [LOST_SIGN]));
  }

  lemma SignNotGranted(env: Env)
    ensures Applied(LOST_SIGN) && !Granted(LOST_SIGN, env)
  {
    assert RetypeSum(Cast(BYTE_SUM, UCHAR)) == To(SIGN_SUM);
  }

  lemma SignValues(env: Env)
    requires env(0) == -1 && env(1) == 0 == env(2)
    ensures Eval(Cast(Cast(BYTE_SUM, UCHAR), INT), env) == Some(255) && Eval(Cast(SIGN_SUM, INT), env) == Some(-1)
  {
    hide Fit, Eval;
    FitSelf(0, INT);
    FitSelf(255, INT);
    FitSelf(-1, INT);
    FitSelf(-1, CHAR);
    FitMinusOne(UCHAR);
    CharValue(0, env);
    LessValue(env);
    RingEval(Add, BYTE_SUM.l, LESS, INT, env);
    RingEval(Add, SIGN_SUM.l, SIGN_SUM.r, CHAR, env);
    CastEval(BYTE_SUM, UCHAR, env);
    CastEval(Cast(BYTE_SUM, UCHAR), INT, env);
    CastEval(SIGN_SUM, INT, env);
  }

  lemma LessValue(env: Env)
    requires env(1) == 0 == env(2)
    ensures Eval(LESS, env) == Some(0) == Eval(SIGN_SUM.r, env)
  {
  }

  /**
   With c == -1 and a < b false that is 255; the sum takes the type of c instead of the one it is cast to, and -1
   comes out. That is the step whose guard does not hold.
   */
  lemma SignIsLost(g: Setup, fuel: nat, env: Env)
    requires fuel > 4 && g.cost(Var(1, INT)) >= g.cost(Var(2, INT)) && g.cost(BYTE_SUM.l) >= g.cost(LESS)
    requires env(0) == -1 && env(1) == 0 == env(2)
    ensures var e := Cast(Cast(BYTE_SUM, UCHAR), INT);
      && Visit(e, g, fuel) == Got(Trail(Cast(SIGN_SUM, INT), [LOST_SIGN]))
      && Eval(e, env) == Some(255) && Eval(Cast(SIGN_SUM, INT), env) == Some(-1)
      && !Granted(LOST_SIGN, env)
  {
    hide Visit, Eval, AtCast, Granted;
    var e := Cast(Cast(BYTE_SUM, UCHAR), INT);
    ByteSumVisited(g, fuel - 2);
    VisitCast(e.e, g, fuel - 1);
    SignSumVisited(g, fuel - 2);
    VisitCast(e, g, fuel);
    SignCastVisited(g, fuel - 1);
    SignNotGranted(env);
    SignValues(env);
  }
}
