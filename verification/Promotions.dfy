/**
 Dropping C's integer promotions (ISO/IEC 9899:2011 section 6.3.1.1) around `&`, `|` and `^`:
 optimize_bitop_integral_promotion and the bit rules of optimize_expr (optimize.c).
 */
module Promotions {
  import opened Arith
  import opened Bits
  import opened CTypes
  import opened Exprs
  import opened Optimizer

  // ----- how large a bitwise result is -----

  lemma {:induction false} AndOfSmall(x: int, y: int, n: nat, k: nat)
    requires 0 <= x < Pow2(k) && k <= n
    ensures Bitwise(BitAnd, x, y, n) < Pow2(k) && Bitwise(BitAnd, y, x, n) < Pow2(k)
    decreases n
  {
    if k == 0 {
      AndZero(y, n);
      ZeroAnd(y, n);
    } else {
      AndOfSmall(x / 2, y / 2, n - 1, k - 1);
    }
  }

  lemma {:induction false} ZeroAnd(y: int, n: nat)
    ensures Bitwise(BitAnd, 0, y, n) == 0
    decreases n
  {
    if n > 0 {
      ZeroAnd(y / 2, n - 1);
    }
  }

  lemma {:induction false} BothSmall(op: BitOp, x: int, y: int, n: nat, k: nat)
    requires 0 <= x < Pow2(k) && 0 <= y < Pow2(k) && k <= n
    ensures Bitwise(op, x, y, n) < Pow2(k)
    decreases n
  {
    if k > 0 {
      BothSmall(op, x / 2, y / 2, n - 1, k - 1);
    } else if n > 0 {
      BothSmall(op, 0, 0, n - 1, 0);
    }
  }

  /** Operands whose upper digits all repeat the sign give such a result. */
  lemma {:induction false} BothSigned(op: BitOp, x: int, y: int, n: nat, k: nat)
    requires 0 <= x + Pow2(k) < 2 * Pow2(k) && 0 <= y + Pow2(k) < 2 * Pow2(k) && k <= n
    ensures var r := Bitwise(op, x, y, n); r < Pow2(k) || r >= Pow2(n) - Pow2(k)
    decreases n
  {
    if k > 0 {
      BothSigned(op, x / 2, y / 2, n - 1, k - 1);
    } else if n > 0 {
      BothSigned(op, x / 2, y / 2, n - 1, 0);
    }
  }

  lemma FitSigned(r: int)
    requires 0 <= r < 128 || 0x1_0000_0000 - 128 <= r < 0x1_0000_0000
    ensures -128 <= Fit(r, INT) <= 127
  {
    if r < 128 {
      DivModUnique(r, 0, r, 65536);
    } else {
      DivModUnique(r, 65535, r - 65535 * 65536, 65536);
    }
  }

  /** The result read as `t` fits the byte type `ty`. */
  predicate Fits(op: BinaryOp, x: int, y: int, t: Type, ty: Type) { InRange(Fit(RingValue(op, x, y), t), ty) }

  lemma UcharResult(op: BinaryOp, x: int, y: int, t: Type)
    requires IsBitwise(op) && t.Size() == 2
    requires if op == And then 0 <= x < 256 || 0 <= y < 256 else 0 <= x < 256 && 0 <= y < 256
    ensures Fits(op, x, y, t, UCHAR)
  {
    hide Bitwise, Pow2;
    Pow2Values();
    if op == And {
      if 0 <= x < 256 {
        AndOfSmall(x, y, 32, 8);
      } else {
        AndOfSmall(y, x, 32, 8);
      }
    } else {
      BothSmall(BitOpOf(op), x, y, 32, 8);
    }
    var r := RingValue(op, x, y);
    DivModUnique(r, 0, r, 65536);
  }

  lemma CharResult(op: BinaryOp, x: int, y: int)
    requires IsBitwise(op) && -128 <= x < 128 && -128 <= y < 128
    ensures Fits(op, x, y, INT, CHAR)
  {
    hide Bitwise, Pow2, Fit;
    Pow2Values();
    assert Pow2(7) == 128 by { Pow2Seven(); }
    BothSigned(BitOpOf(op), x, y, 32, 7);
    FitSigned(RingValue(op, x, y));
  }

  lemma Pow2Seven()
    ensures Pow2(7) == 128
  {
    Pow2Values();
    assert Pow2(8) == 2 * Pow2(7);
  }

  // ----- an operation on promoted bytes done in bytes -----

  /** `(t)((ty)l' op r')` may stand for `l op r` where the result fits. */
  lemma NarrowIfFits(op: BinaryOp, l: Expr, r: Expr, t: Type, l': Expr, r': Expr, ty: Type, env: Env)
    requires IsBitwise(op) && t.kind != KBool && ty.kind != KBool && ty.Size() <= t.Size()
    requires CutTo(l, l', ty, env) && CutTo(r, r', ty, env)
    requires Eval(l, env).Some? && Eval(r, env).Some? ==> Fits(op, Eval(l, env).v, Eval(r, env).v, t, ty)
    ensures SameValue(Binary(op, l, r, t), Cast(Binary(op, l', r', ty), t), env)
  {
    hide Fit, RingValue, Cong, Eval, CutTo;
    var b := Binary(op, l, r, t);
    CutRing(op, l, r, t, l', r', ty, env);
    RingEval(op, l, r, t, env);
    CastEval(b, ty, env);
    CastEval(Binary(op, l', r', ty), t, env);
    if Eval(b, env).Some? {
      var v := Eval(b, env).v;
      FitSelf(v, ty);
      FitSelf(v, t);
    }
  }

  /** What the rules build: the byte operation, cast back. */
  function Bytewise(op: BinaryOp, l: Expr, r: Expr, ty: Type): Rewrite { To(Cast(Binary(op, l, r, ty), INT)) }

  lemma SmallNum(val: int, t: Type, ty: Type, env: Env)
    requires InRange(val, ty) && t.kind == KInt && ty.kind == KChar
    ensures CutTo(Num(val, t), Num(val, ty), ty, env)
    ensures Eval(Num(val, t), env).Some? && (val >= 0 ==> Eval(Num(val, t), env).v == val)
    ensures Cong(Eval(Num(val, t), env).v, val, 65536)
  {
    hide Cong;
    CutNum(val, t, ty, ty, env);
    FitCong(val, t);
    if val >= 0 {
      FitSelf(val, t);
    }
  }

  /** optimize_bitop_integral_promotion at one node, branch by branch. */
  function Promote(e: Expr): Rewrite {
    if !(e.Binary? && IsBitwise(e.op) && e.ty == INT) then NoMatch
    else if e.op == And && e.r.Unary? && e.r.uop == BitNot && IsPromotion(e.r.e) && IsPromotion(e.l) && e.l.e.ty.unsigned then
      Bytewise(And, e.l.e, Unary(BitNot, e.r.e.e, UCHAR), UCHAR)
    else if e.op == And && e.l.Unary? && e.l.uop == BitNot && IsPromotion(e.l.e) && IsPromotion(e.r) && e.r.e.ty.unsigned then
      Bytewise(And, Unary(BitNot, e.l.e.e, UCHAR), e.r.e, UCHAR)
    else if !IsPromotionOrChar(e.l) then NoMatch
    else
      var l, r := SkipPromotion(e.l), SkipPromotion(e.r);
      if l.ty.unsigned && e.r.Num? && e.r.ty.kind == KInt && 0 <= e.r.val <= 255 then
        Bytewise(e.op, l, Num(e.r.val, UCHAR), UCHAR)
      else if e.op == And && !l.ty.unsigned && e.r.Num? && e.r.ty.kind == KInt && 0 <= e.r.val <= 127 then
        Bytewise(e.op, l, Num(e.r.val, UCHAR), UCHAR)
      else if !l.ty.unsigned && e.r.Num? && e.r.ty.kind == KInt && -128 <= e.r.val <= 127 then
        Bytewise(e.op, l, Num(e.r.val, CHAR), CHAR)
      else if IsPromotionOrChar(e.r) && l.ty.unsigned == r.ty.unsigned then
        Bytewise(e.op, l, r, l.ty)
      else if e.op == And && IsPromotionOrChar(e.r) then
        Bytewise(e.op, l, r, TypeRec(l.ty.kind, true))
      else NoMatch
  }

  /** `~` of a promoted byte, and of the byte. */
  lemma NotCut(x: Expr, env: Env)
    requires x.Unary? && x.uop == BitNot && x.ty.kind != KBool && x.ty.Size() >= 1 && WellTyped(x) && IsPromotion(x.e)
    ensures CutTo(x, Unary(BitNot, x.e.e, UCHAR), UCHAR, env)
  {
    hide Fit, Cong, UnaryValue;
    var c := x.e.e;
    SkipValue(x.e, env);
    UnaryEval(BitNot, x.e, x.ty, env);
    UnaryEval(BitNot, c, UCHAR, env);
    if Eval(c, env).Some? {
      NotCong(Eval(c, env).v, x.ty);
    }
  }

  lemma NotCong(v: int, t: Type)
    requires t.kind != KBool
    ensures Cong(UnaryValue(BitNot, v, t), UnaryValue(BitNot, v, UCHAR), 256)
  {
    hide Fit, Cong;
    var n := -v - 1;
    FitTwice(n, t, UCHAR);
    FitCong(n, UCHAR);
    CongSym(Fit(n, UCHAR), n, 256);
    CongTrans(Fit(n, t), n, Fit(n, UCHAR), 256);
  }

  lemma ByteRange(x: Expr, env: Env)
    requires WellTyped(x) && IsPromotionOrChar(x) && Eval(x, env).Some?
    ensures InRange(Eval(x, env).v, SkipPromotion(x).ty)
  {
    hide Eval;
    SkipValue(x, env);
    Ranged(SkipPromotion(x), env);
  }

  lemma BitsTyped(op: BinaryOp, l: Expr, r: Expr, ty: Type)
    requires IsBitwise(op) && ty.kind == KChar
    ensures WellTyped(l) && WellTyped(r) ==> WellTyped(Cast(Binary(op, l, r, ty), INT))
  {
    assert WellTyped(l) && WellTyped(r) ==> WellTyped(Binary(op, l, r, ty));
  }

  /** `&` with an unsigned byte on one side. */
  lemma UcharAnd(e: Expr, l': Expr, r': Expr, ty: Type, env: Env)
    requires WellTyped(e) && e.Binary? && e.op == And && e.ty == INT && ty.kind == KChar && ty.unsigned
    requires (IsPromotionOrChar(e.l) && l' == SkipPromotion(e.l)) || CutTo(e.l, l', ty, env)
    requires (IsPromotionOrChar(e.r) && r' == SkipPromotion(e.r)) || CutTo(e.r, r', ty, env)
    requires (IsPromotionOrChar(e.l) && SkipPromotion(e.l).ty.unsigned) || (IsPromotionOrChar(e.r) && SkipPromotion(e.r).ty.unsigned)
             || (Eval(e.r, env).Some? && 0 <= Eval(e.r, env).v <= 255)
    ensures WellTyped(l') && WellTyped(r') ==> WellTyped(Cast(Binary(And, l', r', ty), INT))
    ensures SameValue(e, Cast(Binary(And, l', r', ty), INT), env)
  {
    hide Fit, RingValue, Cong, Eval, Bitwise;
    BitsTyped(And, l', r', ty);
    SkipValue(e.l, env);
    SkipValue(e.r, env);
    CutSame(e.l, SkipPromotion(e.l), ty, env);
    CutSame(e.r, SkipPromotion(e.r), ty, env);
    if Eval(e.l, env).Some? && Eval(e.r, env).Some? {
      if IsPromotionOrChar(e.l) && SkipPromotion(e.l).ty.unsigned {
        ByteRange(e.l, env);
      } else if IsPromotionOrChar(e.r) && SkipPromotion(e.r).ty.unsigned {
        ByteRange(e.r, env);
      }
      UcharResult(And, Eval(e.l, env).v, Eval(e.r, env).v, INT);
    }
    NarrowIfFits(And, e.l, e.r, INT, l', r', ty, env);
  }

  /** A byte and a literal that fits one. */
  lemma WithNum(e: Expr, ty: Type, env: Env)
    requires WellTyped(e) && e.Binary? && IsBitwise(e.op) && e.ty == INT && IsPromotionOrChar(e.l)
    requires e.r.Num? && e.r.ty.kind == KInt && InRange(e.r.val, ty) && ty.kind == KChar
    requires ty.unsigned ==> SkipPromotion(e.l).ty.unsigned || e.op == And
    requires !ty.unsigned ==> !SkipPromotion(e.l).ty.unsigned
    ensures WellTyped(Cast(Binary(e.op, SkipPromotion(e.l), Num(e.r.val, ty), ty), INT))
    ensures SameValue(e, Cast(Binary(e.op, SkipPromotion(e.l), Num(e.r.val, ty), ty), INT), env)
  {
    hide Fit, RingValue, Cong, Eval, Bitwise, Fits;
    BitsTyped(e.op, SkipPromotion(e.l), Num(e.r.val, ty), ty);
    var l, n := SkipPromotion(e.l), e.r.val;
    SkipValue(e.l, env);
    CutSame(e.l, l, ty, env);
    SmallNum(n, e.r.ty, ty, env);
    if Eval(e.l, env).Some? {
      var x, y := Eval(e.l, env).v, Eval(e.r, env).v;
      ByteRange(e.l, env);
      if ty.unsigned {
        UcharResult(e.op, x, y, INT);
      } else {
        CharResult(e.op, x, n);
        CongSame(x, 65536);
        RingCong(e.op, x, x, y, n, 65536);
        FitsToo(e.op, x, y, n, ty);
      }
    }
    NarrowIfFits(e.op, e.l, e.r, INT, l, Num(n, ty), ty, env);
  }

  lemma FitsToo(op: BinaryOp, x: int, y: int, z: int, ty: Type)
    requires Fits(op, x, z, INT, ty) && Cong(RingValue(op, x, y), RingValue(op, x, z), 65536)
    ensures Fits(op, x, y, INT, ty)
  {
    CongFit(RingValue(op, x, y), RingValue(op, x, z), INT);
  }

  lemma SameSign(e: Expr, env: Env)
    requires WellTyped(e) && e.Binary? && IsBitwise(e.op) && e.ty == INT && IsPromotionOrChar(e.l) && IsPromotionOrChar(e.r)
    requires SkipPromotion(e.l).ty.unsigned == SkipPromotion(e.r).ty.unsigned
    ensures WellTyped(Cast(Binary(e.op, SkipPromotion(e.l), SkipPromotion(e.r), SkipPromotion(e.l).ty), INT))
    ensures SameValue(e, Cast(Binary(e.op, SkipPromotion(e.l), SkipPromotion(e.r), SkipPromotion(e.l).ty), INT), env)
  {
    hide Fit, RingValue, Cong, Eval, Bitwise;
    BitsTyped(e.op, SkipPromotion(e.l), SkipPromotion(e.r), SkipPromotion(e.l).ty);
    var l, r := SkipPromotion(e.l), SkipPromotion(e.r);
    SkipValue(e.l, env);
    SkipValue(e.r, env);
    CutSame(e.l, l, l.ty, env);
    CutSame(e.r, r, l.ty, env);
    if Eval(e.l, env).Some? && Eval(e.r, env).Some? {
      ByteRange(e.l, env);
      ByteRange(e.r, env);
      if l.ty.unsigned {
        UcharResult(e.op, Eval(e.l, env).v, Eval(e.r, env).v, INT);
      } else {
        CharResult(e.op, Eval(e.l, env).v, Eval(e.r, env).v);
      }
    }
    NarrowIfFits(e.op, e.l, e.r, INT, l, r, l.ty, env);
  }

  lemma SkipOperands(e: Expr, env: Env)
    requires WellTyped(e) && e.Binary?
    ensures WellTyped(e.l) && WellTyped(e.r) && WellTyped(SkipPromotion(e.l)) && WellTyped(SkipPromotion(e.r))
    ensures e.l.Unary? && IsPromotion(e.l.e) ==> WellTyped(Unary(BitNot, e.l.e.e, UCHAR))
    ensures e.r.Unary? && IsPromotion(e.r.e) ==> WellTyped(Unary(BitNot, e.r.e.e, UCHAR))
  {
    SkipValue(e.l, env);
    SkipValue(e.r, env);
    if e.l.Unary? && IsPromotion(e.l.e) {
      SkipValue(e.l.e, env);
    }
    if e.r.Unary? && IsPromotion(e.r.e) {
      SkipValue(e.r.e, env);
    }
  }

  lemma PromoteValue(e: Expr, env: Env)
    requires WellTyped(e) && Promote(e).To?
    ensures WellTyped(Promote(e).e) && SameValue(e, Promote(e).e, env)
  {
    hide Fit, RingValue, Cong, Eval, CutTo, Fits, Bitwise, UnaryValue, WellTyped;
    var l, r := SkipPromotion(e.l), SkipPromotion(e.r);
    SkipOperands(e, env);
    if e.op == And && e.r.Unary? && e.r.uop == BitNot && IsPromotion(e.r.e) && IsPromotion(e.l) && e.l.e.ty.unsigned {
      NotCut(e.r, env);
      UcharAnd(e, l, Unary(BitNot, e.r.e.e, UCHAR), UCHAR, env);
    } else if e.op == And && e.l.Unary? && e.l.uop == BitNot && IsPromotion(e.l.e) && IsPromotion(e.r) && e.r.e.ty.unsigned {
      NotCut(e.l, env);
      UcharAnd(e, Unary(BitNot, e.l.e.e, UCHAR), r, UCHAR, env);
    } else if e.r.Num? && e.r.ty.kind == KInt && 0 <= e.r.val <= 255 && (l.ty.unsigned || (e.op == And && e.r.val <= 127)) {
      WithNum(e, UCHAR, env);
    } else if !l.ty.unsigned && e.r.Num? && e.r.ty.kind == KInt && -128 <= e.r.val <= 127 {
      WithNum(e, CHAR, env);
    } else if l.ty.unsigned == r.ty.unsigned {
      SameSign(e, env);
    } else {
      UcharAnd(e, l, r, TypeRec(l.ty.kind, true), env);
    }
  }

  lemma PromoteRight(e: Expr)
    requires WellTyped(e) && Promote(e).To?
    ensures Preserves(e, Promote(e).e)
  {
    hide Eval, WellTyped, SameValue;
    var e' := Promote(e).e;
    assert e'.ty == INT;
    forall env
      ensures WellTyped(e') && SameValue(e, e', env)
    {
      PromoteValue(e, env);
    }
    var env0: Env := _ => 0;
    assert SameValue(e, e', env0);
  }

  // ----- operands that are unsigned bytes -----

  /** Casting one down to `unsigned char` keeps its value. */
  lemma UcharOperand(x: Expr, env: Env)
    requires WellTyped(x) && CanOpUchar(x)
    ensures WellTyped(NewCast(x, UCHAR)) && Within(NewCast(x, UCHAR).ty, UCHAR)
    ensures Eval(NewCast(x, UCHAR), env) == Eval(x, env)
    ensures Eval(x, env).Some? ==> 0 <= Eval(x, env).v <= 255
  {
    NewCastRight(x, UCHAR, env);
    if Eval(x, env).Some? {
      UcharValue(x, env);
      FitSelf(Eval(x, env).v, UCHAR);
    }
    if Eval(NewCast(x, UCHAR), env).Some? {
      NewCastNone(x, UCHAR, env);
    }
  }

  lemma NewCastNone(x: Expr, ty: Type, env: Env)
    ensures Eval(NewCast(x, ty), env).Some? ==> Eval(x, env).Some?
  {
    hide Fit, Redundant;
  }

  lemma UcharValue(x: Expr, env: Env)
    requires WellTyped(x) && CanOpUchar(x) && Eval(x, env).Some?
    ensures 0 <= Eval(x, env).v <= 255
  {
    hide Fit, Apply;
    if x.Cast? {
      Ranged(x.e, env);
      FitSelf(Eval(x.e, env).v, x.ty);
    } else if x.Binary? {
      TruthOnly(x, env);
    }
  }

  lemma TruthOnly(x: Expr, env: Env)
    requires x.Binary? && IsCompare(x.op) && Eval(x, env).Some?
    ensures Eval(x, env).v in {0, 1}
  {
    hide Unsigned;
  }

  /** `x & y` of unsigned bytes: done in `unsigned char`. */
  function BitsOfUchars(e: Expr): Rewrite {
    if e.Binary? && IsBitwise(e.op) && IsInt16(e.ty) && CanOpUchar(e.l) && CanOpUchar(e.r)
    then To(NewCast(Binary(e.op, NewCast(e.l, UCHAR), NewCast(e.r, UCHAR), UCHAR), e.ty))
    else NoMatch
  }

  /** `x & 0..255`: only the low byte of `x` counts. */
  function MaskByte(e: Expr): Rewrite {
    if e.Binary? && e.op == And && IsInt16(e.ty) && e.r.Num? && 0 <= e.r.val <= 255
    then To(NewCast(Binary(And, NewCast(e.l, UCHAR), e.r, UCHAR), e.ty))
    else NoMatch
  }

  lemma ThenNewCast(e: Expr, b: Expr, env: Env)
    requires WellTyped(b) && SameValue(e, Cast(b, e.ty), env)
    ensures WellTyped(NewCast(b, e.ty)) && Within(NewCast(b, e.ty).ty, e.ty) && SameValue(e, NewCast(b, e.ty), env)
  {
    hide Fit, Eval, NewCast;
    NewCastRight(b, e.ty, env);
  }

  lemma BitsOfUcharsRight(e: Expr)
    requires WellTyped(e) && BitsOfUchars(e).To?
    ensures Preserves(e, BitsOfUchars(e).e)
  {
    hide Eval, SameValue, NewCast, CanOpUchar, Fit, CutTo, Fits, Within;
    var e' := BitsOfUchars(e).e;
    var l, r := NewCast(e.l, UCHAR), NewCast(e.r, UCHAR);
    var b := Binary(e.op, l, r, UCHAR);
    forall env
      ensures WellTyped(e') && Within(e'.ty, e.ty) && SameValue(e, e', env)
    {
      UcharOperand(e.l, env);
      UcharOperand(e.r, env);
      CutSame(e.l, l, UCHAR, env);
      CutSame(e.r, r, UCHAR, env);
      if Eval(e.l, env).Some? && Eval(e.r, env).Some? {
        UcharResult(e.op, Eval(e.l, env).v, Eval(e.r, env).v, e.ty);
      }
      NarrowIfFits(e.op, e.l, e.r, e.ty, l, r, UCHAR, env);
      ThenNewCast(e, b, env);
    }
    var env0: Env := _ => 0;
    assert SameValue(e, e', env0);
  }

  lemma MaskByteRight(e: Expr)
    requires WellTyped(e) && MaskByte(e).To? && IsLiteral(e.r)
    ensures Preserves(e, MaskByte(e).e)
  {
    hide Eval, SameValue, NewCast, Fit, CutTo, Fits, Within;
    var e' := MaskByte(e).e;
    var l := NewCast(e.l, UCHAR);
    var b := Binary(And, l, e.r, UCHAR);
    forall env
      ensures WellTyped(e') && Within(e'.ty, e.ty) && SameValue(e, e', env)
    {
      NewCastRight(e.l, UCHAR, env);
      CutByCast(e.l, UCHAR, env);
      CutSame(e.r, e.r, UCHAR, env);
      Literal(e.r, env);
      if Eval(e.l, env).Some? {
        UcharResult(And, Eval(e.l, env).v, e.r.val, e.ty);
      }
      NarrowIfFits(And, e.l, e.r, e.ty, l, e.r, UCHAR, env);
      ThenNewCast(e, b, env);
    }
    var env0: Env := _ => 0;
    assert SameValue(e, e', env0);
  }
}
