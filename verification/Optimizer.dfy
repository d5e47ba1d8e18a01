/**
 The integer rules of optimize_expr (optimize.c): each is a function on expressions, undefined where its
 pattern does not match, and each is shown to keep the value of every expression it rewrites.
 */
module Optimizer {
  import opened Arith
  import opened Bits
  import opened CTypes
  import opened Exprs

  datatype Rewrite = To(e: Expr) | NoMatch

  /** `e'` may stand for `e`: it is typed, its values belong to e's type, and it has e's value wherever e has one. */
  ghost predicate Preserves(e: Expr, e': Expr) {
    WellTyped(e') && Within(e'.ty, e.ty) && forall env :: SameValue(e, e', env)
  }

  predicate SameValue(e: Expr, e': Expr, env: Env) { Eval(e, env).Some? ==> Eval(e', env) == Eval(e, env) }

  /** The same where the variables have these values, for a value that is to be read in type `ty`. */
  predicate PreservesAs(e: Expr, e': Expr, ty: Type, env: Env) { WellTyped(e') && Within(e'.ty, ty) && SameValue(e, e', env) }

  predicate PreservesAt(e: Expr, e': Expr, env: Env) { PreservesAs(e, e', e.ty, env) }

  // ----- patterns -----

  predicate IsByte(ty: Type) { ty.kind == KBool || ty.kind == KChar }
  predicate IsInt16(ty: Type) { ty.kind == KShort || ty.kind == KInt || ty.kind == KEnum }

  predicate IsPromotion(e: Expr) { e.Cast? && e.ty == INT && e.e.ty.kind == KChar }
  predicate IsPromotionOrChar(e: Expr) { IsPromotion(e) || e.ty.kind == KChar }
  function SkipPromotion(e: Expr): Expr { if IsPromotion(e) then e.e else e }

  predicate IsByteToUint(e: Expr) {
    e.Cast? && e.ty.kind == KInt && e.ty.unsigned && ((e.e.ty.kind == KChar && e.e.ty.unsigned) || e.e.ty.kind == KBool)
  }

  function SkipByteToUint(e: Expr): Expr { if IsByteToUint(e) then e.e else e }

  predicate IsCompareOrNot(e: Expr) { (e.Binary? && IsCompare(e.op)) || (e.Unary? && e.uop == Not) }

  /** can_op_uchar: a comparison, or a 16-bit cast of an unsigned byte. */
  predicate CanOpUchar(e: Expr) {
    IsCompareOrNot(e) ||
    (e.Cast? && IsInt16(e.ty) && ((e.e.ty.kind == KChar && e.e.ty.unsigned) || e.e.ty.kind == KBool))
  }

  /** A literal in the range of its type, as the parser makes them. */
  predicate IsLiteral(e: Expr) { e.Num? && InRange(e.val, e.ty) }

  /** A literal whose type is no `_Bool`, unless it is 0 or 1. */
  predicate IsNumber(e: Expr) { e.Num? && (e.ty.kind == KBool ==> IsLiteral(e)) }

  lemma Literal(e: Expr, env: Env)
    requires IsLiteral(e)
    ensures Eval(e, env) == Some(e.val)
  {
    FitSelf(e.val, e.ty);
  }

  /** Casting a byte to a wider type keeps its value. */
  lemma SkipValue(e: Expr, env: Env)
    requires WellTyped(e)
    ensures Eval(SkipPromotion(e), env) == Eval(e, env) && Eval(SkipByteToUint(e), env) == Eval(e, env)
    ensures WellTyped(SkipPromotion(e)) && WellTyped(SkipByteToUint(e))
  {
    if e.Cast? && Eval(e.e, env).Some? && (IsPromotion(e) || IsByteToUint(e)) {
      Ranged(e.e, env);
      FitSelf(Eval(e.e, env).v, e.ty);
    }
  }

  // ----- new_cast -----

  /** new_cast (parse.c): a cast, less what is redundant. */
  function NewCast(e: Expr, ty: Type): Expr {
    if e.Cast? && Redundant(ty, e.ty, e.e.ty) then Cast(e.e, ty)
    else if ty.kind != KBool && e.ty.Size() == ty.Size() && e.ty.unsigned == ty.unsigned then e
    else Cast(e, ty)
  }

  lemma NewCastRight(e: Expr, ty: Type, env: Env)
    requires WellTyped(e)
    ensures WellTyped(NewCast(e, ty)) && Within(NewCast(e, ty).ty, ty)
    ensures SameValue(Cast(e, ty), NewCast(e, ty), env)
    ensures Eval(e, env).Some? ==> Eval(NewCast(e, ty), env) == Some(Fit(Eval(e, env).v, ty))
  {
    hide Fit;
    if Eval(e, env).Some? {
      Ranged(e, env);
      if e.Cast? && Redundant(ty, e.ty, e.e.ty) {
        Ranged(e.e, env);
        RedundantIsSafe(ty, e.ty, e.e.ty, Eval(e.e, env).v);
      } else if ty.kind != KBool && e.ty.Size() == ty.Size() && e.ty.unsigned == ty.unsigned {
        FitSelf(Eval(e, env).v, ty);
      }
    }
  }

  // ----- truncations pushed down -----

  /** A cast to a type that reads and counts the same. */
  function CastSame(e: Expr): Rewrite {
    if e.Cast? && e.ty.kind != KBool && e.e.ty.Size() == e.ty.Size() && e.e.ty.unsigned == e.ty.unsigned then To(e.e)
    else NoMatch
  }

  lemma CastSameRight(e: Expr)
    requires WellTyped(e) && CastSame(e).To?
    ensures Preserves(e, CastSame(e).e)
  {
    forall env
      ensures SameValue(e, CastSame(e).e, env)
    {
      if Eval(e.e, env).Some? {
        Ranged(e.e, env);
        FitSelf(Eval(e.e, env).v, e.ty);
      }
    }
  }

  /** (char)(int)x */
  function CastOfCast(e: Expr): Rewrite {
    if e.Cast? && e.ty.kind == KChar && e.e.Cast? && (e.e.ty.kind == KShort || e.e.ty.kind == KInt || e.e.ty.kind == KLong)
    then To(Cast(e.e.e, e.ty))
    else NoMatch
  }

  lemma CastOfCastRight(e: Expr)
    requires WellTyped(e) && CastOfCast(e).To?
    ensures Preserves(e, CastOfCast(e).e)
  {
    forall env
      ensures SameValue(e, CastOfCast(e).e, env)
    {
      if Eval(e.e.e, env).Some? {
        FitTwice(Eval(e.e.e, env).v, e.e.ty, e.ty);
      }
    }
  }

  // Evaluation, one node at a time.

  lemma CastEval(x: Expr, ty: Type, env: Env)
    ensures Eval(Cast(x, ty), env) == if Eval(x, env).None? then None else Some(Fit(Eval(x, env).v, ty))
  {
  }

  lemma UnaryEval(op: UnaryOp, x: Expr, ty: Type, env: Env)
    ensures Eval(Unary(op, x, ty), env) == if Eval(x, env).None? then None else Some(UnaryValue(op, Eval(x, env).v, ty))
  {
  }

  lemma StrictEval(op: BinaryOp, l: Expr, r: Expr, ty: Type, env: Env)
    requires !IsLogical(op)
    ensures Eval(Binary(op, l, r, ty), env) ==
            if Eval(l, env).None? || Eval(r, env).None? then None
            else Apply(op, Eval(l, env).v, Eval(r, env).v, l.ty, ty)
  {
    hide Apply;
  }

  lemma RingEval(op: BinaryOp, l: Expr, r: Expr, ty: Type, env: Env)
    requires IsRing(op)
    ensures Eval(Binary(op, l, r, ty), env) ==
            if Eval(l, env).None? || Eval(r, env).None? then None
            else Some(Fit(RingValue(op, Eval(l, env).v, Eval(r, env).v), ty))
  {
    hide Eval, Fit, RingValue, Pow2, Trunc, Rem, Unsigned;
    StrictEval(op, l, r, ty, env);
  }

  lemma CondEval(c: Expr, yes: Expr, no: Expr, ty: Type, env: Env)
    ensures Eval(Cond(c, yes, no, ty), env) ==
            if Eval(c, env).None? then None else if Eval(c, env).v != 0 then Eval(yes, env) else Eval(no, env)
  {
  }

  /** `x'` is as good as `x` when only the digits of `ty` count. */
  predicate CutTo(x: Expr, x': Expr, ty: Type, env: Env) {
    Eval(x, env).Some? ==> Eval(x', env).Some? && Cong(Eval(x, env).v, Eval(x', env).v, ty.Modulus())
  }

  lemma CutSame(x: Expr, x': Expr, ty: Type, env: Env)
    requires Eval(x', env) == Eval(x, env)
    ensures CutTo(x, x', ty, env)
  {
    if Eval(x, env).Some? {
      CongSame(Eval(x, env).v, ty.Modulus());
    }
  }

  lemma CutByCast(x: Expr, ty: Type, env: Env)
    requires WellTyped(x) && ty.kind != KBool
    ensures CutTo(x, NewCast(x, ty), ty, env)
  {
    NewCastRight(x, ty, env);
    if Eval(x, env).Some? {
      var v := Eval(x, env).v;
      FitCong(v, ty);
      CongSym(Fit(v, ty), v, ty.Modulus());
    }
  }

  /** A literal may be retyped. */
  lemma CutNum(val: int, big: Type, small: Type, ty: Type, env: Env)
    requires IsNumber(Num(val, big)) && small.kind != KBool && ty.kind != KBool
    requires ty.Size() <= big.Size() && ty.Size() <= small.Size()
    ensures CutTo(Num(val, big), Num(val, small), ty, env)
  {
    hide Fit, Cong;
    if big.kind == KBool {
      FitSelf(val, big);
      CongSame(val, ty.Modulus());
    } else {
      FitTwice(val, big, ty);
    }
    FitTwice(val, small, ty);
    CongSym(Fit(val, small), val, ty.Modulus());
    CongTrans(Fit(val, big), val, Fit(val, small), ty.Modulus());
  }

  /** The heart of all truncation rules. */
  lemma CutRing(op: BinaryOp, l: Expr, r: Expr, t: Type, l': Expr, r': Expr, ty: Type, env: Env)
    requires IsRing(op) && t.kind != KBool && ty.kind != KBool && ty.Size() <= t.Size()
    requires CutTo(l, l', ty, env) && CutTo(r, r', ty, env)
    ensures SameValue(Cast(Binary(op, l, r, t), ty), Binary(op, l', r', ty), env)
  {
    hide Fit, RingValue, Cong;
    var b := Binary(op, l, r, t);
    RingEval(op, l, r, t, env);
    RingEval(op, l', r', ty, env);
    CastEval(b, ty, env);
    if Eval(b, env).Some? {
      RingNarrows(op, Eval(l, env).v, Eval(l', env).v, Eval(r, env).v, Eval(r', env).v, t, ty);
    }
  }

  /** A cast to the type a value already has. */
  lemma CastAgain(x: Expr, ty: Type, env: Env)
    requires WellTyped(x) && Within(x.ty, ty)
    ensures Eval(Cast(x, ty), env) == Eval(x, env)
  {
    if Eval(x, env).Some? {
      Ranged(x, env);
      FitSelf(Eval(x, env).v, ty);
    }
  }

  /** (char)-(int)c and (char)~(int)c */
  function CastUnary(e: Expr): Rewrite {
    if e.Cast? && e.ty.kind == KChar && e.e.Unary? && e.e.uop != Not && e.e.e.Cast?
       && e.e.e.ty.kind == KInt && e.e.e.e.ty.kind == KChar
    then To(Unary(e.e.uop, e.e.e.e, e.ty))
    else NoMatch
  }

  lemma CastUnaryRight(e: Expr)
    requires WellTyped(e) && CastUnary(e).To?
    ensures Preserves(e, CastUnary(e).e)
  {
    hide Fit, Eval, UnaryValue;
    var c, u := e.e.e.e, e.e;
    assert WellTyped(u) && WellTyped(u.e) && WellTyped(c);
    forall env
      ensures SameValue(e, CastUnary(e).e, env)
    {
      CastEval(c, u.e.ty, env);
      UnaryEval(u.uop, u.e, u.ty, env);
      CastEval(u, e.ty, env);
      UnaryEval(u.uop, c, e.ty, env);
      if Eval(c, env).Some? {
        UnaryNarrows(u.uop, Eval(c, env).v, u.e.ty, u.ty, e.ty);
      }
    }
  }

  lemma UnaryNarrows(op: UnaryOp, x: int, mid: Type, big: Type, ty: Type)
    requires op != Not && mid.kind != KBool && big.kind != KBool && ty.kind != KBool
    requires ty.Size() <= mid.Size() && ty.Size() <= big.Size()
    ensures Fit(UnaryValue(op, Fit(x, mid), big), ty) == UnaryValue(op, x, ty)
  {
    hide Fit, Cong;
    var y, m := Fit(x, mid), ty.Modulus();
    var c := if op == Neg then 0 else -1;
    FitTwice(x, mid, ty);
    CongSame(c, m);
    CongAdd(c, c, y, x, m);
    FitTwice(c - y, big, ty);
    CongFit(c - y, c - x, ty);
  }

  /** (int)((int)a & (int)b) done in bytes, of one sign. */
  function CastBitsToInt(e: Expr): Rewrite {
    if IsPromotion(e) && e.e.Binary? && IsBitwise(e.e.op) && IsPromotion(e.e.l) && IsPromotion(e.e.r)
       && e.e.l.e.ty.unsigned == e.e.r.e.ty.unsigned
    then To(Cast(Binary(e.e.op, e.e.l.e, e.e.r.e, e.e.ty), e.ty))
    else NoMatch
  }

  lemma CastBitsToIntRight(e: Expr)
    requires WellTyped(e) && CastBitsToInt(e).To?
    ensures Preserves(e, CastBitsToInt(e).e)
  {
    hide Fit, Eval, RingValue;
    var b := e.e;
    assert WellTyped(b) && WellTyped(b.l) && WellTyped(b.r) && WellTyped(b.l.e) && WellTyped(b.r.e);
    assert WellTyped(Binary(b.op, b.l.e, b.r.e, b.ty));
    forall env
      ensures SameValue(e, CastBitsToInt(e).e, env)
    {
      SkipValue(b.l, env);
      SkipValue(b.r, env);
      RingEval(b.op, b.l, b.r, b.ty, env);
      RingEval(b.op, b.l.e, b.r.e, b.ty, env);
      CastEval(b, e.ty, env);
      CastEval(Binary(b.op, b.l.e, b.r.e, b.ty), e.ty, env);
    }
  }

  /** (char)((int)a & (int)b) */
  function CastBitsToChar(e: Expr): Rewrite {
    if e.Cast? && e.ty.kind == KChar && e.e.Binary? && IsBitwise(e.e.op) && IsPromotion(e.e.l) && IsPromotion(e.e.r)
    then To(Cast(Binary(e.e.op, e.e.l.e, e.e.r.e, e.e.l.e.ty), e.ty))
    else NoMatch
  }

  lemma CastBitsToCharRight(e: Expr)
    requires WellTyped(e) && CastBitsToChar(e).To?
    ensures Preserves(e, CastBitsToChar(e).e)
  {
    hide Fit, RingValue, Cong, Eval;
    var b, t := e.e, e.e.l.e.ty;
    var narrow := Binary(b.op, b.l.e, b.r.e, t);
    assert WellTyped(b) && WellTyped(b.l) && WellTyped(b.r) && WellTyped(b.l.e) && WellTyped(b.r.e);
    assert WellTyped(narrow);
    forall env
      ensures SameValue(e, CastBitsToChar(e).e, env)
    {
      SkipValue(b.l, env);
      SkipValue(b.r, env);
      CutSame(b.l, b.l.e, t, env);
      CutSame(b.r, b.r.e, t, env);
      CutRing(b.op, b.l, b.r, b.ty, b.l.e, b.r.e, t, env);
      CastTwice(b, t, e.ty, env);
      CastOver(Cast(b, t), narrow, e.ty, env);
    }
  }

  /** (ty)(mid)x is (ty)x when nothing of ty is lost on the way. */
  lemma CastTwice(x: Expr, mid: Type, ty: Type, env: Env)
    requires mid.kind != KBool && ty.kind != KBool && ty.Size() <= mid.Size()
    ensures Eval(Cast(Cast(x, mid), ty), env) == Eval(Cast(x, ty), env)
  {
    hide Fit;
    if Eval(x, env).Some? {
      FitTwice(Eval(x, env).v, mid, ty);
    }
  }

  lemma CastOver(x: Expr, x': Expr, ty: Type, env: Env)
    requires SameValue(x, x', env)
    ensures SameValue(Cast(x, ty), Cast(x', ty), env)
  {
    CastEval(x, ty, env);
    CastEval(x', ty, env);
  }

  predicate IsAddSubMul(op: BinaryOp) { op == Add || op == Sub || op == Mul }

  /** (char)((int)a + (int)b) */
  function CastPromoted(e: Expr): Rewrite {
    if e.Cast? && e.ty.kind == KChar && e.e.Binary? && IsAddSubMul(e.e.op) && IsPromotion(e.e.l) && IsPromotion(e.e.r)
    then To(Binary(e.e.op, SkipPromotion(e.e.l), SkipPromotion(e.e.r), e.ty))
    else NoMatch
  }

  lemma CastPromotedRight(e: Expr)
    requires WellTyped(e) && CastPromoted(e).To?
    ensures Preserves(e, CastPromoted(e).e)
  {
    hide Fit, RingValue, Cong, Eval;
    var b := e.e;
    assert WellTyped(b) && WellTyped(b.l) && WellTyped(b.r) && WellTyped(b.l.e) && WellTyped(b.r.e);
    forall env
      ensures SameValue(e, CastPromoted(e).e, env)
    {
      SkipValue(b.l, env);
      SkipValue(b.r, env);
      CutSame(b.l, SkipPromotion(b.l), e.ty, env);
      CutSame(b.r, SkipPromotion(b.r), e.ty, env);
      CutRing(b.op, b.l, b.r, b.ty, SkipPromotion(b.l), SkipPromotion(b.r), e.ty, env);
    }
  }

  /** (char)((unsigned)a + (unsigned)b) */
  function CastUints(e: Expr): Rewrite {
    if e.Cast? && e.ty.kind == KChar && e.e.Binary? && (e.e.op == Add || e.e.op == Sub)
       && IsByteToUint(e.e.l) && IsByteToUint(e.e.r)
    then To(Binary(e.e.op, SkipByteToUint(e.e.l), SkipByteToUint(e.e.r), e.ty))
    else NoMatch
  }

  lemma CastUintsRight(e: Expr)
    requires WellTyped(e) && CastUints(e).To?
    ensures Preserves(e, CastUints(e).e)
  {
    hide Fit, RingValue, Cong, Eval;
    var b := e.e;
    assert WellTyped(b) && WellTyped(b.l) && WellTyped(b.r) && WellTyped(b.l.e) && WellTyped(b.r.e);
    forall env
      ensures SameValue(e, CastUints(e).e, env)
    {
      SkipValue(b.l, env);
      SkipValue(b.r, env);
      CutSame(b.l, SkipByteToUint(b.l), e.ty, env);
      CutSame(b.r, SkipByteToUint(b.r), e.ty, env);
      CutRing(b.op, b.l, b.r, b.ty, SkipByteToUint(b.l), SkipByteToUint(b.r), e.ty, env);
    }
  }

  /** (char)(n + (int)c): the literal keeps its value field and is retyped. */
  function CastNumLeft(e: Expr): Rewrite {
    if e.Cast? && e.ty.kind == KChar && e.e.Binary? && (e.e.op == Add || e.e.op == Sub) && e.e.l.Num?
       && (IsPromotion(e.e.r) || IsByteToUint(e.e.r))
    then To(Cast(Binary(e.e.op, Num(e.e.l.val, CHAR), e.e.r.e, e.ty), e.ty))
    else NoMatch
  }

  lemma CastNumLeftRight(e: Expr)
    requires WellTyped(e) && CastNumLeft(e).To? && IsNumber(e.e.l)
    ensures Preserves(e, CastNumLeft(e).e)
  {
    hide Fit, RingValue, Cong, Eval;
    var b := e.e;
    var n := Num(b.l.val, CHAR);
    assert WellTyped(b) && WellTyped(b.l) && WellTyped(b.r) && WellTyped(b.r.e);
    assert WellTyped(Binary(b.op, n, b.r.e, e.ty));
    forall env
      ensures SameValue(e, CastNumLeft(e).e, env)
    {
      SkipValue(b.r, env);
      CutSame(b.r, b.r.e, e.ty, env);
      CutNum(b.l.val, b.l.ty, CHAR, e.ty, env);
      CutRing(b.op, b.l, b.r, b.ty, n, b.r.e, e.ty, env);
      CastAgain(Binary(b.op, n, b.r.e, e.ty), e.ty, env);
    }
  }

  /** (char)((int)c + n) */
  function CastNumRight(e: Expr): Rewrite {
    if e.Cast? && e.ty.kind == KChar && e.e.Binary? && IsAddSubMul(e.e.op) && e.e.r.Num?
       && (IsPromotion(e.e.l) || IsByteToUint(e.e.l))
    then To(Cast(Binary(e.e.op, e.e.l.e, Num(e.e.r.val, CHAR), e.ty), e.ty))
    else NoMatch
  }

  lemma CastNumRightRight(e: Expr)
    requires WellTyped(e) && CastNumRight(e).To? && IsNumber(e.e.r)
    ensures Preserves(e, CastNumRight(e).e)
  {
    hide Fit, RingValue, Cong, Eval;
    var b := e.e;
    var n := Num(b.r.val, CHAR);
    assert WellTyped(b) && WellTyped(b.l) && WellTyped(b.r) && WellTyped(b.l.e);
    assert WellTyped(Binary(b.op, b.l.e, n, e.ty));
    forall env
      ensures SameValue(e, CastNumRight(e).e, env)
    {
      SkipValue(b.l, env);
      CutSame(b.l, b.l.e, e.ty, env);
      CutNum(b.r.val, b.r.ty, CHAR, e.ty, env);
      CutRing(b.op, b.l, b.r, b.ty, b.l.e, n, e.ty, env);
      CastAgain(Binary(b.op, b.l.e, n, e.ty), e.ty, env);
    }
  }

  /** An operand under a char cast: a promotion is dropped, anything else is cut down. */
  function Narrowed(x: Expr, ty: Type): Expr { if IsPromotionOrChar(x) then SkipPromotion(x) else NewCast(x, ty) }

  lemma NarrowedRight(x: Expr, ty: Type, env: Env)
    requires WellTyped(x) && ty.kind == KChar
    ensures WellTyped(Narrowed(x, ty)) && CutTo(x, Narrowed(x, ty), ty, env)
  {
    SkipValue(x, env);
    NewCastRight(x, ty, env);
    CutByCast(x, ty, env);
    CutSame(x, SkipPromotion(x), ty, env);
  }

  /** (char)(x + y) */
  function CastRing(e: Expr): Rewrite {
    if e.Cast? && e.ty.kind == KChar && e.e.Binary? && IsRing(e.e.op)
    then To(Binary(e.e.op, Narrowed(e.e.l, e.ty), Narrowed(e.e.r, e.ty), e.ty))
    else NoMatch
  }

  lemma CastRingRight(e: Expr)
    requires WellTyped(e) && CastRing(e).To?
    ensures Preserves(e, CastRing(e).e)
  {
    hide Fit, RingValue, Cong, Eval;
    var b := e.e;
    forall env
      ensures WellTyped(CastRing(e).e) && SameValue(e, CastRing(e).e, env)
    {
      NarrowedRight(b.l, e.ty, env);
      NarrowedRight(b.r, e.ty, env);
      CutRing(b.op, b.l, b.r, b.ty, Narrowed(b.l, e.ty), Narrowed(b.r, e.ty), e.ty, env);
    }
    var env0: Env := _ => 0;
    assert SameValue(e, CastRing(e).e, env0);
  }

  /** (char)(x << n) */
  function CastShl(e: Expr): Rewrite {
    if e.Cast? && e.ty.kind == KChar && e.e.Binary? && e.e.op == Shl
    then To(Binary(Shl, Narrowed(e.e.l, e.ty), e.e.r, e.ty))
    else NoMatch
  }

  lemma CastShlRight(e: Expr)
    requires WellTyped(e) && CastShl(e).To?
    ensures Preserves(e, CastShl(e).e)
  {
    hide Fit, Pow2, Cong, Eval;
    var b := e.e;
    var l' := Narrowed(b.l, e.ty);
    forall env
      ensures WellTyped(l') && SameValue(e, CastShl(e).e, env)
    {
      NarrowedRight(b.l, e.ty, env);
      StrictEval(Shl, b.l, b.r, b.ty, env);
      CastEval(b, e.ty, env);
      StrictEval(Shl, l', b.r, e.ty, env);
      if Eval(b.l, env).Some? && Eval(b.r, env).Some? && Eval(b.r, env).v >= 0 {
        ShlNarrows(Eval(b.l, env).v, Eval(l', env).v, Eval(b.r, env).v, b.ty, e.ty);
      }
    }
    var env0: Env := _ => 0;
    assert SameValue(e, CastShl(e).e, env0);
  }

  lemma ShlNarrows(x: int, x': int, n: nat, big: Type, ty: Type)
    requires big.kind != KBool && ty.kind != KBool && ty.Size() <= big.Size() && Cong(x, x', ty.Modulus())
    ensures Fit(Fit(x * Pow2(n), big), ty) == Fit(x' * Pow2(n), ty)
  {
    hide Fit, Cong;
    var p, m := Pow2(n), ty.Modulus();
    CongSame(p, m);
    CongMul(x, x', p, p, m);
    FitTwice(x * p, big, ty);
    CongFit(x * p, x' * p, ty);
  }

  /** (ty)(x & y), for a type smaller than that of the operation. */
  function CastNarrowBits(e: Expr): Rewrite {
    if e.Cast? && e.ty.kind != KBool && e.ty.Size() < e.e.ty.Size() && e.e.Binary? && IsBitwise(e.e.op)
    then To(Binary(e.e.op, NewCast(e.e.l, e.ty), NewCast(e.e.r, e.ty), e.ty))
    else NoMatch
  }

  lemma CastNarrowBitsRight(e: Expr)
    requires WellTyped(e) && CastNarrowBits(e).To?
    ensures Preserves(e, CastNarrowBits(e).e)
  {
    hide Fit, RingValue, Cong, Eval;
    var b := e.e;
    forall env
      ensures WellTyped(CastNarrowBits(e).e) && SameValue(e, CastNarrowBits(e).e, env)
    {
      NewCastRight(b.l, e.ty, env);
      NewCastRight(b.r, e.ty, env);
      CutByCast(b.l, e.ty, env);
      CutByCast(b.r, e.ty, env);
      CutRing(b.op, b.l, b.r, b.ty, NewCast(b.l, e.ty), NewCast(b.r, e.ty), e.ty, env);
    }
    var env0: Env := _ => 0;
    assert SameValue(e, CastNarrowBits(e).e, env0);
  }

  /** (char)(c ? x : y) */
  function CastCond(e: Expr): Rewrite {
    if e.Cast? && e.ty.kind == KChar && e.e.Cond?
    then To(Cond(e.e.c, NewCast(e.e.yes, e.ty), NewCast(e.e.no, e.ty), e.ty))
    else NoMatch
  }

  lemma CastCondRight(e: Expr)
    requires WellTyped(e) && CastCond(e).To?
    ensures Preserves(e, CastCond(e).e)
  {
    hide Fit, Eval, NewCast;
    forall env
      ensures WellTyped(CastCond(e).e) && SameValue(e, CastCond(e).e, env)
    {
      NewCastRight(e.e.yes, e.ty, env);
      NewCastRight(e.e.no, e.ty, env);
      CondEval(e.e.c, e.e.yes, e.e.no, e.e.ty, env);
      CastEval(e.e, e.ty, env);
      CondEval(e.e.c, NewCast(e.e.yes, e.ty), NewCast(e.e.no, e.ty), e.ty, env);
    }
    var env0: Env := _ => 0;
    assert SameValue(e, CastCond(e).e, env0);
  }

  /** (char)(x && y): 0 and 1 need no conversion. */
  function CastLogic(e: Expr): Rewrite {
    if e.Cast? && IsByte(e.ty) && e.e.Binary? && IsLogical(e.e.op) then To(Binary(e.e.op, e.e.l, e.e.r, e.ty))
    else if e.Cast? && IsByte(e.ty) && e.e.Unary? && e.e.uop == Not then To(Unary(Not, e.e.e, e.ty))
    else NoMatch
  }

  lemma CastLogicRight(e: Expr)
    requires WellTyped(e) && CastLogic(e).To?
    ensures Preserves(e, CastLogic(e).e)
  {
    hide Fit;
    FitSelf(0, e.ty);
    FitSelf(1, e.ty);
    var e' := CastLogic(e).e;
    forall env
      ensures SameValue(e, e', env)
    {
      CastEval(e.e, e.ty, env);
      if e.e.Binary? {
        LogicEval(e.e.op, e.e.l, e.e.r, e.e.ty, e.ty, env);
      }
    }
  }

  /** `&&` and `||` give 0 or 1 whatever their type is called. */
  lemma LogicEval(op: BinaryOp, l: Expr, r: Expr, t: Type, ty: Type, env: Env)
    requires IsLogical(op)
    ensures Eval(Binary(op, l, r, t), env) == Eval(Binary(op, l, r, ty), env)
    ensures Eval(Binary(op, l, r, t), env) in {None, Some(0), Some(1)}
  {
  }
}
