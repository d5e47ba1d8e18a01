/** Comparisons and truth values: optimize_expr, optimize_demorgan and optimize_condition (optimize.c). */
module Comparisons {
  import opened Arith
  import opened Bits
  import opened CTypes
  import opened Exprs
  import opened Optimizer

  // ----- comparisons -----

  function SwapKind(op: BinaryOp): BinaryOp {
    match op
    case Lt => Gt
    case Le => Ge
    case Gt => Lt
    case Ge => Le
    case _ => op
  }

  function NegateKind(op: BinaryOp): BinaryOp {
    match op
    case Eq => Ne
    case Ne => Eq
    case Lt => Ge
    case Le => Gt
    case Gt => Le
    case Ge => Lt
    case _ => op
  }

  // ----- unordered operands -----

  /** How two operands compare; floating ones may be unordered, as a NaN is with everything. */
  datatype Order = Less | Equal | Greater | Unordered

  predicate HoldsIn(op: BinaryOp, o: Order) {
    match op
    case Eq => o == Equal
    case Ne => o != Equal
    case Lt => o == Less
    case Le => o == Less || o == Equal
    case Gt => o == Greater
    case Ge => o == Greater || o == Equal
    case _ => false
  }

  function OrderOf(x: int, y: int): Order { if x < y then Less else if x == y then Equal else Greater }

  /** can_negate_compare; `flonum` says that an operand is floating. */
  predicate CanNegate(op: BinaryOp, flonum: bool) {
    match op
    case Eq => true
    case Ne => true
    case Lt => !flonum
    case Le => !flonum
    case Gt => !flonum
    case Ge => !flonum
    case _ => false
  }

  predicate IsNegation(op: BinaryOp, op': BinaryOp, o: Order) { HoldsIn(op', o) == !HoldsIn(op, o) }

  /** The guard lets a comparison be negated exactly where the negated operator is right in every order that can occur. */
  lemma CanNegateExact(op: BinaryOp, flonum: bool)
    requires IsCompare(op)
    ensures CanNegate(op, flonum) <==> forall o :: flonum || o != Unordered ==> IsNegation(op, NegateKind(op), o)
  {
    if !CanNegate(op, flonum) {
      assert !IsNegation(op, NegateKind(op), Unordered);
    }
  }

  /** Operands change places with the mirrored operator in every order. */
  lemma SwapInOrder(op: BinaryOp, o: Order)
    requires IsCompare(op)
    ensures HoldsIn(SwapKind(op), match o case Less => Greater case Greater => Less case _ => o) == HoldsIn(op, o)
  {
  }

  lemma IntegersOrdered(op: BinaryOp, x: int, y: int)
    requires IsCompare(op)
    ensures Holds(op, x, y) == HoldsIn(op, OrderOf(x, y)) && OrderOf(x, y) != Unordered
  {
  }

  predicate Compares(e: Expr) { e.Binary? && IsCompare(e.op) }

  lemma CompareEval(op: BinaryOp, l: Expr, r: Expr, ty: Type, env: Env)
    requires IsCompare(op) && WellTyped(l) && WellTyped(r) && l.ty.unsigned == r.ty.unsigned
    ensures WellTyped(Binary(op, l, r, ty))
    ensures Eval(Binary(op, l, r, ty), env) ==
            if Eval(l, env).None? || Eval(r, env).None? then None
            else Some(Truth(Holds(op, Eval(l, env).v, Eval(r, env).v)))
  {
    hide Apply, Holds;
    StrictEval(op, l, r, ty, env);
    if Eval(l, env).Some? && Eval(r, env).Some? {
      ComparesValues(op, l, r, ty, env);
    }
  }

  /** The costlier operand goes left, whichever that is. */
  function SwapCompare(e: Expr): Rewrite {
    if Compares(e) then To(Binary(SwapKind(e.op), e.r, e.l, e.ty)) else NoMatch
  }

  lemma SwapCompareRight(e: Expr)
    requires WellTyped(e) && SwapCompare(e).To?
    ensures Preserves(e, SwapCompare(e).e)
  {
    hide Eval;
    forall env
      ensures WellTyped(SwapCompare(e).e) && SameValue(e, SwapCompare(e).e, env)
    {
      CompareEval(e.op, e.l, e.r, e.ty, env);
      CompareEval(SwapKind(e.op), e.r, e.l, e.ty, env);
    }
    var env0: Env := _ => 0;
    assert SameValue(e, SwapCompare(e).e, env0);
  }

  lemma SameOperandsAt(e: Expr, l: Expr, r: Expr, env: Env)
    requires WellTyped(e) && Compares(e) && WellTyped(l) && WellTyped(r) && l.ty.unsigned == r.ty.unsigned
    requires SameValue(e.l, l, env) && SameValue(e.r, r, env)
    ensures WellTyped(Binary(e.op, l, r, e.ty)) && SameValue(e, Binary(e.op, l, r, e.ty), env)
  {
    hide Eval, Holds;
    CompareEval(e.op, e.l, e.r, e.ty, env);
    CompareEval(e.op, l, r, e.ty, env);
  }

  /** Operands with the same values compare the same. */
  lemma SameOperands(e: Expr, l: Expr, r: Expr)
    requires WellTyped(e) && Compares(e) && WellTyped(l) && WellTyped(r) && l.ty.unsigned == r.ty.unsigned
    requires forall env :: SameValue(e.l, l, env) && SameValue(e.r, r, env)
    ensures Preserves(e, Binary(e.op, l, r, e.ty))
  {
    hide Eval, SameValue, WellTyped;
    forall env
      ensures WellTyped(Binary(e.op, l, r, e.ty)) && SameValue(e, Binary(e.op, l, r, e.ty), env)
    {
      SameOperandsAt(e, l, r, env);
    }
    var env0: Env := _ => 0;
    assert SameValue(e, Binary(e.op, l, r, e.ty), env0);
  }

  /** (int)a < (int)b -> a < b for bytes of one sign. */
  function NarrowBoth(e: Expr): Rewrite {
    if Compares(e) && IsPromotion(e.l) && IsPromotion(e.r) && e.l.e.ty.unsigned == e.r.e.ty.unsigned
    then To(Binary(e.op, e.l.e, e.r.e, e.ty))
    else NoMatch
  }

  lemma NarrowBothRight(e: Expr)
    requires WellTyped(e) && NarrowBoth(e).To?
    ensures Preserves(e, NarrowBoth(e).e)
  {
    hide Eval;
    assert WellTyped(e.l) && WellTyped(e.r);
    forall env
      ensures SameValue(e.l, e.l.e, env) && SameValue(e.r, e.r.e, env)
    {
      SkipValue(e.l, env);
      SkipValue(e.r, env);
    }
    SameOperands(e, e.l.e, e.r.e);
  }

  predicate UcharOrSmall(e: Expr) { (e.ty.kind == KChar && e.ty.unsigned) || (e.Num? && 0 <= e.val <= 255) }
  predicate ScharOrSmall(e: Expr) { (e.ty.kind == KChar && !e.ty.unsigned) || (e.Num? && -128 <= e.val <= 127) }

  function Retyped(e: Expr, ty: Type): Expr { if e.Num? then Num(e.val, ty) else e }

  /** (int)c < 100 -> c < 100 */
  function NarrowConst(e: Expr): Rewrite {
    if !(Compares(e) && IsPromotion(e.l) && e.r.Num?) then NoMatch
    else if UcharOrSmall(e.l.e) && UcharOrSmall(e.r) then To(Binary(e.op, Retyped(e.l.e, UCHAR), Retyped(e.r, UCHAR), e.ty))
    else if ScharOrSmall(e.l.e) && ScharOrSmall(e.r) then To(Binary(e.op, Retyped(e.l.e, CHAR), Retyped(e.r, CHAR), e.ty))
    else NoMatch
  }

  lemma RetypedValue(e: Expr, ty: Type, env: Env)
    requires WellTyped(e) && (e.Num? ==> IsLiteral(e) && InRange(e.val, ty))
    ensures WellTyped(Retyped(e, ty)) && Eval(Retyped(e, ty), env) == Eval(e, env)
  {
    if e.Num? {
      FitSelf(e.val, e.ty);
      FitSelf(e.val, ty);
    }
  }

  lemma NarrowConstRight(e: Expr)
    requires WellTyped(e) && NarrowConst(e).To? && IsLiteral(e.r) && (e.l.e.Num? ==> IsLiteral(e.l.e))
    ensures Preserves(e, NarrowConst(e).e)
  {
    hide Eval, Fit;
    var ty := if UcharOrSmall(e.l.e) && UcharOrSmall(e.r) then UCHAR else CHAR;
    assert WellTyped(e.l) && WellTyped(e.r) && WellTyped(e.l.e);
    var l, r := Retyped(e.l.e, ty), Retyped(e.r, ty);
    forall env
      ensures SameValue(e.l, l, env) && SameValue(e.r, r, env)
    {
      SkipValue(e.l, env);
      RetypedValue(e.l.e, ty, env);
      RetypedValue(e.r, ty, env);
    }
    SameOperands(e, l, r);
  }

  /** (unsigned)c < 100u -> c < 100 for an unsigned char. */
  function NarrowUint(e: Expr): Rewrite {
    if Compares(e) && IsByteToUint(e.l) && e.r.Num? && UcharOrSmall(e.l.e) && UcharOrSmall(e.r)
    then To(Binary(e.op, Retyped(e.l.e, UCHAR), Retyped(e.r, UCHAR), e.ty))
    else NoMatch
  }

  lemma NarrowUintRight(e: Expr)
    requires WellTyped(e) && NarrowUint(e).To? && IsLiteral(e.r) && (e.l.e.Num? ==> IsLiteral(e.l.e))
    ensures Preserves(e, NarrowUint(e).e)
  {
    hide Eval, Fit;
    assert WellTyped(e.l) && WellTyped(e.r) && WellTyped(e.l.e);
    var l, r := Retyped(e.l.e, UCHAR), Retyped(e.r, UCHAR);
    forall env
      ensures SameValue(e.l, l, env) && SameValue(e.r, r, env)
    {
      SkipValue(e.l, env);
      RetypedValue(e.l.e, UCHAR, env);
      RetypedValue(e.r, UCHAR, env);
    }
    SameOperands(e, l, r);
  }

  /** x <= c -> x < c + 1, x > c -> x >= c + 1 */
  function NextConst(e: Expr): Rewrite {
    if Compares(e) && (e.op == Le || e.op == Gt) && e.r.Num? && e.r.val != 0 && e.r.val < MaxValue(e.l.ty)
    then To(Binary(if e.op == Le then Lt else Ge, e.l, Num(e.r.val + 1, e.r.ty), e.ty))
    else NoMatch
  }

  lemma NextConstRight(e: Expr)
    requires WellTyped(e) && NextConst(e).To? && IsLiteral(e.r) && MaxValue(e.l.ty) <= MaxValue(e.r.ty)
    ensures Preserves(e, NextConst(e).e)
  {
    hide Eval, Fit;
    var e' := NextConst(e).e;
    forall env
      ensures WellTyped(e') && SameValue(e, e', env)
    {
      Literal(e.r, env);
      Literal(e'.r, env);
      CompareEval(e.op, e.l, e.r, e.ty, env);
      CompareEval(e'.op, e'.l, e'.r, e.ty, env);
    }
    var env0: Env := _ => 0;
    assert SameValue(e, e', env0);
  }

  // ----- dropping a 1 -----

  predicate IsOne(e: Expr) { e.Num? && e.val == 1 }
  predicate PlusOne(e: Expr, op: BinaryOp) { e.Binary? && e.op == op && IsOne(e.r) }

  /** x - 1 < y -> x <= y and the seven like it: one line per direction, -fwrapv not given. */
  function DropOneLeft(e: Expr): Rewrite {
    if !(Compares(e) && !e.l.ty.unsigned) then NoMatch
    else if e.op == Lt && PlusOne(e.l, Sub) then To(Binary(Le, e.l.l, e.r, e.ty))
    else if e.op == Le && PlusOne(e.l, Add) then To(Binary(Lt, e.l.l, e.r, e.ty))
    else if e.op == Ge && PlusOne(e.l, Sub) then To(Binary(Gt, e.l.l, e.r, e.ty))
    else if e.op == Gt && PlusOne(e.l, Add) then To(Binary(Ge, e.l.l, e.r, e.ty))
    else NoMatch
  }

  function DropOneRight(e: Expr): Rewrite {
    if !(Compares(e) && !e.r.ty.unsigned) then NoMatch
    else if e.op == Lt && PlusOne(e.r, Add) then To(Binary(Le, e.l, e.r.l, e.ty))
    else if e.op == Le && PlusOne(e.r, Sub) then To(Binary(Lt, e.l, e.r.l, e.ty))
    else if e.op == Ge && PlusOne(e.r, Add) then To(Binary(Gt, e.l, e.r.l, e.ty))
    else if e.op == Gt && PlusOne(e.r, Sub) then To(Binary(Ge, e.l, e.r.l, e.ty))
    else NoMatch
  }

  /** The value at which the sum leaves its type. */
  function Edge(s: Expr): int
    requires s.Binary?
  {
    if s.op == Sub then MinValue(s.ty) else MaxValue(s.ty)
  }

  /** One less or one more, going round at the ends. */
  function OneOff(minus: bool, x: int, ty: Type): int {
    if minus then (if x == MinValue(ty) then MaxValue(ty) else x - 1)
    else if x == MaxValue(ty) then MinValue(ty) else x + 1
  }

  lemma FitOneOff(minus: bool, x: int, ty: Type)
    requires !ty.unsigned && InRange(x, ty)
    ensures Fit(if minus then x - 1 else x + 1, ty) == OneOff(minus, x, ty)
  {
    hide Fit, Cong;
    var v, w := if minus then x - 1 else x + 1, OneOff(minus, x, ty);
    if v != w {
      CongIf(v, w, if minus then -1 else 1, ty.Modulus());
      CongFit(v, w, ty);
    }
    FitSelf(w, ty);
  }

  lemma RangedIn(x: Expr, ty: Type, env: Env)
    requires WellTyped(x) && Within(x.ty, ty) && Eval(x, env).Some?
    ensures InRange(Eval(x, env).v, ty)
  {
    hide Eval;
    Ranged(x, env);
  }

  lemma SumOfOne(s: Expr, env: Env)
    requires WellTyped(s) && (PlusOne(s, Add) || PlusOne(s, Sub)) && !s.ty.unsigned && Within(s.l.ty, s.ty)
    requires Eval(s.l, env).Some?
    ensures WellTyped(s.l) && InRange(Eval(s.l, env).v, s.ty)
    ensures Eval(s, env) == Some(OneOff(s.op == Sub, Eval(s.l, env).v, s.ty))
  {
    hide Eval, Fit, OneOff, InRange, MinValue, MaxValue, Within;
    assert WellTyped(s.l);
    RingEval(s.op, s.l, s.r, s.ty, env);
    OneValue(s.r, env);
    RangedIn(s.l, s.ty, env);
    FitOneOff(s.op == Sub, Eval(s.l, env).v, s.ty);
  }

  lemma OneValue(n: Expr, env: Env)
    requires IsOne(n)
    ensures Eval(n, env) == Some(1)
  {
    FitSelf(1, n.ty);
  }

  lemma OneDropped(op: BinaryOp, op': BinaryOp, minus: bool, x: int, y: int, ty: Type)
    requires (op, op') in (if minus then {(Lt, Le), (Ge, Gt)} else {(Le, Lt), (Gt, Ge)})
    requires InRange(x, ty) && InRange(y, ty)
    ensures var s, edge := OneOff(minus, x, ty), if minus then MinValue(ty) else MaxValue(ty);
      && (Holds(op, s, y) == Holds(op', x, y) <==> x != edge)
      && (Holds(SwapKind(op), y, s) == Holds(SwapKind(op'), y, x) <==> x != edge)
  {
  }

  /** Dropping it is right exactly where the sum does not leave its type. */
  lemma DropOneLeftExact(e: Expr, env: Env)
    requires WellTyped(e) && DropOneLeft(e).To? && Within(e.l.l.ty, e.l.ty) && Within(e.r.ty, e.l.ty)
    requires Eval(e.l.l, env).Some? && Eval(e.r, env).Some?
    ensures SameValue(e, DropOneLeft(e).e, env) <==> Eval(e.l.l, env).v != Edge(e.l)
  {
    hide Eval, Holds, WellTyped, OneOff, Within, InRange;
    var e' := DropOneLeft(e).e;
    SumTyped(e);
    SumOfOne(e.l, env);
    RangedIn(e.r, e.l.ty, env);
    CompareEval(e.op, e.l, e.r, e.ty, env);
    CompareEval(e'.op, e'.l, e'.r, e.ty, env);
    OneDropped(e.op, e'.op, e.l.op == Sub, Eval(e.l.l, env).v, Eval(e.r, env).v, e.l.ty);
  }

  lemma DropOneRightExact(e: Expr, env: Env)
    requires WellTyped(e) && DropOneRight(e).To? && Within(e.r.l.ty, e.r.ty) && Within(e.l.ty, e.r.ty)
    requires Eval(e.r.l, env).Some? && Eval(e.l, env).Some?
    ensures SameValue(e, DropOneRight(e).e, env) <==> Eval(e.r.l, env).v != Edge(e.r)
  {
    hide Eval, Holds, WellTyped, OneOff, Within, InRange;
    var e' := DropOneRight(e).e;
    SumTyped(e);
    SumOfOne(e.r, env);
    RangedIn(e.l, e.r.ty, env);
    CompareEval(e.op, e.l, e.r, e.ty, env);
    CompareEval(e'.op, e'.l, e'.r, e.ty, env);
    OneDropped(SwapKind(e.op), SwapKind(e'.op), e.r.op == Sub, Eval(e.r.l, env).v, Eval(e.l, env).v, e.r.ty);
  }

  lemma SumTyped(e: Expr)
    requires WellTyped(e) && Compares(e)
    ensures WellTyped(e.l) && WellTyped(e.r) && e.l.ty.unsigned == e.r.ty.unsigned
    ensures e.l.Binary? && (e.l.op == Add || e.l.op == Sub) && Within(e.l.l.ty, e.l.ty) ==> e.l.l.ty.unsigned == e.l.ty.unsigned
    ensures e.r.Binary? && (e.r.op == Add || e.r.op == Sub) && Within(e.r.l.ty, e.r.ty) ==> e.r.l.ty.unsigned == e.r.ty.unsigned
  {
  }

  // ----- not -----

  /** What `!e` means, whatever `e` is. */
  predicate Negates(e: Expr, e': Expr, env: Env) {
    Eval(e, env).Some? ==> Eval(e', env) == Some(Truth(Eval(e, env).v == 0))
  }

  lemma NegateCompare(e: Expr, ty: Type, env: Env)
    requires WellTyped(e) && Compares(e)
    ensures WellTyped(Binary(NegateKind(e.op), e.l, e.r, ty)) && Negates(e, Binary(NegateKind(e.op), e.l, e.r, ty), env)
  {
    hide Eval;
    CompareEval(e.op, e.l, e.r, e.ty, env);
    CompareEval(NegateKind(e.op), e.l, e.r, ty, env);
    if Eval(e, env).Some? {
      var x, y := Eval(e.l, env).v, Eval(e.r, env).v;
      IntegersOrdered(e.op, x, y);
      IntegersOrdered(NegateKind(e.op), x, y);
      CanNegateExact(e.op, false);
      assert IsNegation(e.op, NegateKind(e.op), OrderOf(x, y));
    }
  }

  /** optimize_demorgan: the negation of `e` pushed inwards, where `e` is a comparison, `&&` or `||`. */
  function DeMorgan(e: Expr): Rewrite {
    if Compares(e) then To(Binary(NegateKind(e.op), e.l, e.r, e.ty))
    else if e.Binary? && IsLogical(e.op) then
      var l, r := DeMorgan(e.l), DeMorgan(e.r);
      To(Binary(Dual(e.op),
        if l.To? then l.e else Unary(Not, e.l, INT),
        if r.To? then r.e else Unary(Not, e.r, INT), e.ty))
    else NoMatch
  }

  function DeMorganOr(e: Expr): Expr { if DeMorgan(e).To? then DeMorgan(e).e else Unary(Not, e, INT) }

  lemma LogicalEval(op: BinaryOp, l: Expr, r: Expr, ty: Type, env: Env)
    requires IsLogical(op)
    ensures Eval(Binary(op, l, r, ty), env) ==
            if Eval(l, env).None? then None
            else if (Eval(l, env).v == 0) == (op == LogAnd) then Some(if op == LogAnd then 0 else 1)
            else if Eval(r, env).None? then None
            else Some(Truth(Eval(r, env).v != 0))
  {
  }

  function Dual(op: BinaryOp): BinaryOp { if op == LogAnd then LogOr else LogAnd }

  lemma DeMorganStep(op: BinaryOp, l: Expr, r: Expr, l': Expr, r': Expr, ty: Type, env: Env)
    requires IsLogical(op) && Negates(l, l', env) && Negates(r, r', env)
    requires WellTyped(l') && WellTyped(r')
    ensures Negates(Binary(op, l, r, ty), Binary(Dual(op), l', r', ty), env)
    ensures WellTyped(Binary(Dual(op), l', r', ty))
  {
    hide Eval;
    LogicalEval(op, l, r, ty, env);
    LogicalEval(Dual(op), l', r', ty, env);
  }

  lemma {:induction false} DeMorganRight(e: Expr, env: Env)
    requires WellTyped(e)
    ensures WellTyped(DeMorganOr(e)) && Negates(e, DeMorganOr(e), env)
  {
    hide Eval, Negates, WellTyped;
    if Compares(e) {
      NegateCompare(e, e.ty, env);
    } else if e.Binary? && IsLogical(e.op) {
      OperandsTyped(e);
      DeMorganRight(e.l, env);
      DeMorganRight(e.r, env);
      DeMorganStep(e.op, e.l, e.r, DeMorganOr(e.l), DeMorganOr(e.r), e.ty, env);
    } else {
      NotNegates(e, env);
    }
  }

  lemma OperandsTyped(e: Expr)
    requires WellTyped(e) && e.Binary?
    ensures WellTyped(e.l) && WellTyped(e.r)
  {
  }

  lemma NotNegates(e: Expr, env: Env)
    requires WellTyped(e)
    ensures WellTyped(Unary(Not, e, INT)) && Negates(e, Unary(Not, e, INT), env)
  {
    UnaryEval(Not, e, INT, env);
  }

  /** The rules for `!`, in their order. */
  function NotRule(e: Expr): Rewrite {
    if !(e.Unary? && e.uop == Not) then NoMatch
    else
      var x := SkipPromotion(e.e);
      if Compares(x) then To(Binary(NegateKind(x.op), x.l, x.r, x.ty))
      else if x.Unary? && x.uop == Not then To(NewCast(NewCast(x.e, BOOL), e.ty))
      else if x.Num? then To(Num(Truth(x.val == 0), BOOL))
      else if DeMorgan(x).To? then To(DeMorgan(x).e.(ty := e.ty))
      else To(Unary(Not, x, e.ty))
  }

  /** Its value is the negation; a literal is trusted to be in range. */
  lemma NotRuleValue(e: Expr, env: Env)
    requires WellTyped(e) && NotRule(e).To? && (SkipPromotion(e.e).Num? ==> IsLiteral(SkipPromotion(e.e)))
    ensures WellTyped(NotRule(e).e) && SameValue(e, NotRule(e).e, env)
  {
    hide Eval, Fit, NewCast, DeMorgan;
    var x := SkipPromotion(e.e);
    assert WellTyped(e.e);
    SkipValue(e.e, env);
    UnaryEval(Not, e.e, e.ty, env);
    if Compares(x) {
      NegateCompare(x, x.ty, env);
    } else if x.Unary? && x.uop == Not {
      UnaryEval(Not, x.e, x.ty, env);
      NotNot(x.e, e.ty, env);
    } else if x.Num? {
      Literal(x, env);
      Literal(Num(Truth(x.val == 0), BOOL), env);
    } else if DeMorgan(x).To? {
      DeMorganRight(x, env);
      DeMorganRetyped(x, e.ty, env);
    } else {
      UnaryEval(Not, x, e.ty, env);
    }
  }

  lemma NotNot(x: Expr, ty: Type, env: Env)
    requires WellTyped(x)
    ensures var c := NewCast(NewCast(x, BOOL), ty);
      WellTyped(c) && (Eval(x, env).Some? ==> Eval(c, env) == Some(Truth(Eval(x, env).v != 0)))
  {
    hide Eval, Fit, NewCast;
    NewCastRight(x, BOOL, env);
    NewCastRight(NewCast(x, BOOL), ty, env);
    if Eval(x, env).Some? {
      ToBool(Eval(x, env).v, BOOL);
      FitSelf(0, ty);
      FitSelf(1, ty);
    }
  }

  lemma DeMorganRetyped(x: Expr, ty: Type, env: Env)
    requires WellTyped(x) && DeMorgan(x).To? && !Compares(x)
    ensures Eval(DeMorgan(x).e.(ty := ty), env) == Eval(DeMorgan(x).e, env)
    ensures WellTyped(DeMorgan(x).e) ==> WellTyped(DeMorgan(x).e.(ty := ty))
  {
    hide Eval;
    var e := DeMorgan(x).e;
    LogicEval(e.op, e.l, e.r, e.ty, ty, env);
  }

  // ----- && and || with a constant -----

  /** Promotions of the operands are dropped first. */
  function LogicSkip(e: Expr): Rewrite {
    if e.Binary? && IsLogical(e.op) then To(Binary(e.op, SkipPromotion(e.l), SkipPromotion(e.r), e.ty)) else NoMatch
  }

  lemma LogicSkipRight(e: Expr)
    requires WellTyped(e) && LogicSkip(e).To?
    ensures Preserves(e, LogicSkip(e).e)
  {
    hide Eval;
    forall env
      ensures WellTyped(LogicSkip(e).e) && SameValue(e, LogicSkip(e).e, env)
    {
      SkipValue(e.l, env);
      SkipValue(e.r, env);
      LogicalEval(e.op, e.l, e.r, e.ty, env);
      LogicalEval(e.op, SkipPromotion(e.l), SkipPromotion(e.r), e.ty, env);
    }
    var env0: Env := _ => 0;
    assert SameValue(e, LogicSkip(e).e, env0);
  }

  /** A constant on the left decides, or leaves the right side. */
  function LogicConst(e: Expr): Rewrite {
    if !(e.Binary? && IsLogical(e.op) && e.l.Num?) then NoMatch
    else if (e.l.val == 0) == (e.op == LogAnd) then To(Num(if e.op == LogAnd then 0 else 1, INT))
    else if e.r.Num? then To(Num(Truth(e.r.val != 0), INT))
    else To(NewCast(NewCast(e.r, BOOL), INT))
  }

  lemma LogicConstRight(e: Expr)
    requires WellTyped(e) && LogicConst(e).To? && e.ty == INT && IsLiteral(e.l) && (e.r.Num? ==> IsLiteral(e.r))
    ensures Preserves(e, LogicConst(e).e)
  {
    hide Eval, NewCast, Fit;
    var e' := LogicConst(e).e;
    forall env
      ensures WellTyped(e') && Within(e'.ty, INT) && SameValue(e, e', env)
    {
      LogicalEval(e.op, e.l, e.r, e.ty, env);
      Literal(e.l, env);
      if (e.l.val == 0) == (e.op == LogAnd) {
        Literal(e', env);
      } else if e.r.Num? {
        Literal(e', env);
        Literal(e.r, env);
      } else {
        NotNot(e.r, INT, env);
        NewCastRight(NewCast(e.r, BOOL), INT, env) by { NewCastRight(e.r, BOOL, env); }
      }
    }
    var env0: Env := _ => 0;
    assert SameValue(e, e', env0);
  }

  // ----- conditions -----

  function Size(e: Expr): (n: nat)
    ensures n > 0
  {
    match e
    case Num(_, _) => 1
    case Var(_, _) => 1
    case Cast(x, _) => 1 + Size(x)
    case Unary(_, x, _) => 1 + Size(x)
    case Binary(_, l, r, _) => 1 + Size(l) + Size(r)
    case Cond(c, x, y, _) => 1 + Size(c) + Size(x) + Size(y)
  }

  predicate IsZero(e: Expr) { e.Num? && e.val == 0 }

  /** optimize_condition after its calls of optimize_expr: each step acts on what the one before has left. */
  function Condition(e: Expr): (r: Expr)
    ensures Size(r) <= Size(e)
    decreases Size(e), 5
  {
    var e1 := if e.Binary? && IsLogical(e.op) then Binary(e.op, Condition(e.l), Condition(e.r), e.ty) else e;
    UndoNotNot(e1)
  }

  /** !!x -> x */
  function UndoNotNot(e: Expr): (r: Expr)
    ensures Size(r) <= Size(e)
    decreases Size(e), 4
  {
    EqualsZero(
      if e.Unary? && e.uop == Not && e.e.Unary? && e.e.uop == Not then
        assert Size(e.e) == 1 + Size(e.e.e);
        Condition(e.e.e)
      else e)
  }

  /** x == 0 -> !x */
  function EqualsZero(e: Expr): (r: Expr)
    ensures Size(r) <= Size(e)
    decreases Size(e), 3
  {
    var e1 :=
      if e.Binary? && e.op == Eq && IsZero(e.r) then
        var x := Condition(e.l);
        if x.Unary? && x.uop == Not then x.e else Unary(Not, x, BOOL)
      else e;
    DiffersZero(e1)
  }

  /** x != 0 -> x */
  function DiffersZero(e: Expr): (r: Expr)
    ensures Size(r) <= Size(e)
    decreases Size(e), 2
  {
    CastToBool(if e.Binary? && e.op == Ne && IsZero(e.r) then Condition(e.l) else e)
  }

  /** (_Bool)x -> x, and a cast that loses nothing goes. */
  function CastToBool(e: Expr): (r: Expr)
    ensures Size(r) <= Size(e)
    decreases Size(e), 1
  {
    var e1 := if e.Cast? && e.ty.kind == KBool then Condition(e.e) else e;
    if e1.Cast? && e1.ty.Size() >= e1.e.ty.Size() then e1.e else e1
  }

  /** Both are true or both false, in contexts that ask for no more. */
  predicate SameTruth(e: Expr, e': Expr, env: Env) {
    Eval(e, env).Some? ==> Eval(e', env).Some? && (Eval(e, env).v != 0 <==> Eval(e', env).v != 0)
  }

  lemma LogicTruth(op: BinaryOp, l: Expr, r: Expr, l': Expr, r': Expr, ty: Type, env: Env)
    requires IsLogical(op) && SameTruth(l, l', env) && SameTruth(r, r', env)
    ensures SameTruth(Binary(op, l, r, ty), Binary(op, l', r', ty), env)
  {
    hide Eval;
    LogicalEval(op, l, r, ty, env);
    LogicalEval(op, l', r', ty, env);
  }

  lemma ZeroTruth(e: Expr, env: Env)
    requires WellTyped(e) && e.Binary? && (e.op == Eq || e.op == Ne) && IsZero(e.r)
    ensures WellTyped(e.l)
    ensures Eval(e, env).Some? ==> Eval(e.l, env).Some? && (Eval(e, env).v != 0 <==> (Eval(e.l, env).v == 0) == (e.op == Eq))
  {
    hide Eval;
    FitSelf(0, e.r.ty);
    Literal(e.r, env);
    CompareEval(e.op, e.l, e.r, e.ty, env);
  }

  lemma CastTruth(e: Expr, env: Env)
    requires WellTyped(e) && e.Cast? && (e.ty.kind == KBool || e.ty.Size() >= e.e.ty.Size())
    ensures WellTyped(e.e) && SameTruth(e, e.e, env)
  {
    if Eval(e.e, env).Some? {
      Ranged(e.e, env);
      if e.ty.kind != KBool {
        ZeroKept(Eval(e.e, env).v, e.ty, e.e.ty);
      }
    }
  }

  /** optimize_condition keeps the truth of every condition. */
  lemma {:induction false} ConditionRight(e: Expr, env: Env)
    requires WellTyped(e)
    ensures WellTyped(Condition(e)) && SameTruth(e, Condition(e), env)
    decreases Size(e), 5
  {
    hide Eval, WellTyped, SameTruth;
    var e1 := if e.Binary? && IsLogical(e.op) then Binary(e.op, Condition(e.l), Condition(e.r), e.ty) else e;
    if e.Binary? && IsLogical(e.op) {
      OperandsTyped(e);
      ConditionRight(e.l, env);
      ConditionRight(e.r, env);
      LogicTyped(e.op, Condition(e.l), Condition(e.r), e.ty);
      LogicTruth(e.op, e.l, e.r, Condition(e.l), Condition(e.r), e.ty, env);
    } else {
      TruthSame(e, env);
    }
    UndoNotNotRight(e1, env);
    TruthTrans(e, e1, Condition(e), env);
  }

  lemma LogicTyped(op: BinaryOp, l: Expr, r: Expr, ty: Type)
    requires IsLogical(op) && WellTyped(l) && WellTyped(r)
    ensures WellTyped(Binary(op, l, r, ty))
  {
  }

  lemma TruthSame(e: Expr, env: Env)
    ensures SameTruth(e, e, env)
  {
  }

  lemma TruthTrans(a: Expr, b: Expr, c: Expr, env: Env)
    requires SameTruth(a, b, env) && SameTruth(b, c, env)
    ensures SameTruth(a, c, env)
  {
  }

  lemma NotNotTruth(e: Expr, env: Env)
    requires WellTyped(e) && e.Unary? && e.uop == Not && e.e.Unary? && e.e.uop == Not
    ensures WellTyped(e.e.e) && SameTruth(e, e.e.e, env)
  {
    hide Eval;
    UnaryEval(Not, e.e, e.ty, env);
    UnaryEval(Not, e.e.e, e.e.ty, env);
  }

  lemma {:induction false} UndoNotNotRight(e: Expr, env: Env)
    requires WellTyped(e)
    ensures WellTyped(UndoNotNot(e)) && SameTruth(e, UndoNotNot(e), env)
    decreases Size(e), 4
  {
    hide Eval, WellTyped, SameTruth;
    TruthSame(e, env);
    var e1 := if e.Unary? && e.uop == Not && e.e.Unary? && e.e.uop == Not then Condition(e.e.e) else e;
    if e.Unary? && e.uop == Not && e.e.Unary? && e.e.uop == Not {
      assert Size(e.e) == 1 + Size(e.e.e);
      NotNotTruth(e, env);
      ConditionRight(e.e.e, env);
      TruthTrans(e, e.e.e, e1, env);
    }
    EqualsZeroRight(e1, env);
    TruthTrans(e, e1, UndoNotNot(e), env);
  }

  lemma {:induction false} EqualsZeroRight(e: Expr, env: Env)
    requires WellTyped(e)
    ensures WellTyped(EqualsZero(e)) && SameTruth(e, EqualsZero(e), env)
    decreases Size(e), 3
  {
    hide Eval, WellTyped, SameTruth;
    TruthSame(e, env);
    if e.Binary? && e.op == Eq && IsZero(e.r) {
      OperandsTyped(e);
      var x := Condition(e.l);
      ConditionRight(e.l, env);
      var e1 := if x.Unary? && x.uop == Not then x.e else Unary(Not, x, BOOL);
      NotTruth(e, x, e1, env);
      DiffersZeroRight(e1, env);
      TruthTrans(e, e1, EqualsZero(e), env);
    } else {
      DiffersZeroRight(e, env);
    }
  }

  lemma NotTruth(e: Expr, x: Expr, e1: Expr, env: Env)
    requires WellTyped(e) && e.Binary? && e.op == Eq && IsZero(e.r) && WellTyped(x) && SameTruth(e.l, x, env)
    requires e1 == if x.Unary? && x.uop == Not then x.e else Unary(Not, x, BOOL)
    ensures WellTyped(e1) && SameTruth(e, e1, env)
  {
    hide Eval;
    ZeroTruth(e, env);
    UnaryEval(Not, x, BOOL, env);
    if x.Unary? && x.uop == Not {
      UnaryEval(Not, x.e, x.ty, env);
    }
  }

  lemma {:induction false} DiffersZeroRight(e: Expr, env: Env)
    requires WellTyped(e)
    ensures WellTyped(DiffersZero(e)) && SameTruth(e, DiffersZero(e), env)
    decreases Size(e), 2
  {
    hide Eval, WellTyped, SameTruth;
    TruthSame(e, env);
    if e.Binary? && e.op == Ne && IsZero(e.r) {
      NonzeroTruth(e, env);
      ConditionRight(e.l, env);
      TruthTrans(e, e.l, Condition(e.l), env);
      CastToBoolRight(Condition(e.l), env);
      TruthTrans(e, Condition(e.l), DiffersZero(e), env);
    } else {
      CastToBoolRight(e, env);
    }
  }

  lemma NonzeroTruth(e: Expr, env: Env)
    requires WellTyped(e) && e.Binary? && e.op == Ne && IsZero(e.r)
    ensures WellTyped(e.l) && SameTruth(e, e.l, env)
  {
    hide Eval;
    ZeroTruth(e, env);
  }

  lemma {:induction false} CastToBoolRight(e: Expr, env: Env)
    requires WellTyped(e)
    ensures WellTyped(CastToBool(e)) && SameTruth(e, CastToBool(e), env)
    decreases Size(e), 1
  {
    hide Eval, WellTyped, SameTruth;
    TruthSame(e, env);
    var e1 := if e.Cast? && e.ty.kind == KBool then Condition(e.e) else e;
    if e.Cast? && e.ty.kind == KBool {
      CastTruth(e, env);
      ConditionRight(e.e, env);
      TruthTrans(e, e.e, e1, env);
    }
    if e1.Cast? && e1.ty.Size() >= e1.e.ty.Size() {
      CastTruth(e1, env);
      TruthTrans(e, e1, e1.e, env);
    }
  }
}
