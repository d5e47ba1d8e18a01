/** Powers of two by shifts and masks, bytes divided as bytes, and constant shifts: optimize_expr (optimize.c). */
module Divisions {
  import opened Arith
  import opened Bits
  import opened CTypes
  import opened Exprs
  import opened Optimizer
  import opened Promotions
  import opened Strength

  // ----- powers of two -----

  /** x * 2^k -> x << k, where that is worth it. */
  function MulShift(e: Expr): Rewrite {
    if e.Binary? && e.op == Mul && e.r.Num? && Exponent(e.r.val) > 0 && (e.ty.Size() == 4 || e.r.val >= 128)
    then To(Binary(Shl, e.l, Num(Exponent(e.r.val), UCHAR), e.ty))
    else NoMatch
  }

  /** The exponent of a literal is a byte. */
  lemma ExponentValue(val: int, env: Env)
    requires Exponent(val) >= 0 && val < 0x1_0000_0000
    ensures Eval(Num(Exponent(val), UCHAR), env) == Some(Exponent(val)) && Exponent(val) < 32
  {
    hide Fit;
    var k := Exponent(val);
    Pow2Values();
    if k >= 32 {
      Pow2Monotonic(32, k);
    }
    FitSelf(k, UCHAR);
  }

  /** The host's literals are 64 bits wide, so their exponents are bytes. */
  lemma HostExponent(val: int, env: Env)
    requires Exponent(val) >= 0 && val < 0x1_0000_0000_0000_0000
    ensures Eval(Num(Exponent(val), UCHAR), env) == Some(Exponent(val)) && Exponent(val) < 64
  {
    hide Fit;
    var k := Exponent(val);
    Pow2Values();
    Pow2Add(32, 32);
    if k >= 64 {
      Pow2Monotonic(64, k);
    }
    FitSelf(k, UCHAR);
  }

  lemma MulShiftRight(e: Expr)
    requires WellTyped(e) && MulShift(e).To? && CountsAs(e.r, e.ty) && e.r.val < 0x1_0000_0000_0000_0000
    ensures Preserves(e, MulShift(e).e)
  {
    hide Eval, Fit, Pow2, Exponent, Cong;
    var e' := MulShift(e).e;
    assert WellTyped(e'.l) && WellTyped(e'.r) && WellTyped(e');
    forall env
      ensures SameValue(e, e', env)
    {
      RingEval(Mul, e.l, e.r, e.ty, env);
      StrictEval(Shl, e'.l, e'.r, e'.ty, env);
      NumEval(e.r, env);
      HostExponent(e.r.val, env);
      if Eval(e.l, env).Some? {
        var x, m := Eval(e.l, env).v, e.ty.Modulus();
        CongSame(x, m);
        CongMul(x, x, Fit(e.r.val, e.r.ty), e.r.val, m);
        CongFit(x * Fit(e.r.val, e.r.ty), x * e.r.val, e.ty);
      }
    }
  }

  lemma NumEval(n: Expr, env: Env)
    requires n.Num?
    ensures Eval(n, env) == Some(Fit(n.val, n.ty))
  {
  }

  /** A power of two of `n` digits or more is 0 in its low `n` digits, and one that just has no more is half of the modulus. */
  lemma PowerAgainst(k: nat, n: nat)
    requires n > 0
    ensures Pow2(k) >= Pow2(n) ==> Pow2(k) % Pow2(n) == 0
    ensures Pow2(n) == 2 * Pow2(n - 1) && (Pow2(n - 1) <= Pow2(k) < Pow2(n) ==> Pow2(k) == Pow2(n - 1))
  {
    if k >= n {
      Pow2Add(n, k - n);
      ModShift(0, Pow2(k - n), Pow2(n));
      Pow2Monotonic(n, k);
    } else {
      Pow2Monotonic(k, n - 1);
    }
  }

  /**
   What the type of a literal leaves of a power of two: itself, its negative where it is just out of reach of
   a signed type, or nothing.
   */
  lemma PowerFits(val: int, ty: Type)
    requires Exponent(val) >= 0 && IsNumber(Num(val, ty))
    ensures Fit(val, ty) != 0 ==> IsLiteral(Num(val - 1, ty)) && 0 < val < 0x1_0000_0000
    ensures Fit(val, ty) == 0 || Fit(val, ty) == val || (Fit(val, ty) == -val && !ty.unsigned)
  {
    hide Exponent, Pow2;
    Pow2Values();
    PowerAgainst(Exponent(val), ty.Bits());
    if ty.kind == KBool {
      FitSelf(val, ty);
    } else if val < ty.Modulus() {
      DivModUnique(val, 0, val, ty.Modulus());
    }
  }

  /** unsigned x / 2^k -> x >> k */
  function DivShift(e: Expr): Rewrite {
    if e.Binary? && e.op == Div && e.l.ty.unsigned && e.r.Num? && Exponent(e.r.val) > 0
    then To(Binary(Shr, e.l, Num(Exponent(e.r.val), UCHAR), e.ty))
    else NoMatch
  }

  lemma DivShiftRight(e: Expr)
    requires WellTyped(e) && DivShift(e).To? && IsNumber(e.r)
    ensures Preserves(e, DivShift(e).e)
  {
    hide Eval, Fit, Pow2, Exponent;
    var e' := DivShift(e).e;
    assert WellTyped(e'.l) && WellTyped(e'.r) && WellTyped(e');
    forall env
      ensures SameValue(e, e', env)
    {
      StrictEval(Div, e.l, e.r, e.ty, env);
      StrictEval(Shr, e'.l, e'.r, e'.ty, env);
      NumEval(e.r, env);
      PowerFits(e.r.val, e.r.ty);
      if Eval(e.l, env).Some? && Fit(e.r.val, e.r.ty) != 0 {
        ExponentValue(e.r.val, env);
        Ranged(e.l, env);
      }
    }
  }

  /** x % 2^k -> x & (2^k - 1), for values that are not negative. */
  function ModMask(e: Expr): Rewrite {
    if e.Binary? && e.op == Mod && (e.ty.unsigned || SkipByteToInt(e.l).ty.unsigned) && e.r.Num? && Exponent(e.r.val) >= 0
    then To(Binary(And, e.l, Num(e.r.val - 1, e.r.ty), e.ty))
    else NoMatch
  }

  function SkipByteToInt(e: Expr): Expr { if IsPromotion(e) || IsByteToUint(e) then e.e else e }

  lemma ModMaskRight(e: Expr)
    requires WellTyped(e) && ModMask(e).To? && IsNumber(e.r)
    ensures Preserves(e, ModMask(e).e)
  {
    hide Eval, Fit, Exponent, Within;
    var e' := ModMask(e).e;
    assert WellTyped(e'.l) && WellTyped(e'.r) && WellTyped(e');
    forall env
      ensures SameValue(e, e', env)
    {
      ModMaskValue(e, env);
    }
    WithinSelf(e.ty);
  }

  lemma ModMaskValue(e: Expr, env: Env)
    requires WellTyped(e) && ModMask(e).To? && IsNumber(e.r)
    ensures SameValue(e, ModMask(e).e, env)
  {
    hide Eval, Fit, Exponent, Apply, RingValue, IsLiteral;
    var e' := ModMask(e).e;
    var y := Fit(e.r.val, e.r.ty);
    StrictEval(Mod, e.l, e.r, e.ty, env);
    NumEval(e.r, env);
    PowerFits(e.r.val, e.r.ty);
    if Eval(e.l, env).Some? {
      var x := Eval(e.l, env).v;
      if y == 0 {
        ByZero(x, e.l.ty, e.ty);
      } else {
        RingEval(And, e'.l, e'.r, e'.ty, env);
        Literal(e'.r, env);
        NotNegative(e.l, env);
        ModIsAnd(x, e.r.val, y, e.l.ty, e.ty);
      }
    }
  }

  lemma ByZero(x: int, lty: Type, ty: Type)
    ensures Apply(Mod, x, 0, lty, ty) == None
  {
  }

  lemma NegativeDivisor(x: int, m: int)
    requires m > 0
    ensures x / -m == -(x / m)
  {
    var q: int, r: int := x / -m, x % -m;
    assert x == -m * q + r && 0 <= r < m;
    assert -m * q == m * -q;
    DivModUnique(x, -q, r, m);
  }

  /** The remainder by `val`, or by its negative. */
  lemma ModIsAnd(x: int, val: int, y: int, lty: Type, ty: Type)
    requires x >= 0 && 0 < val < 0x1_0000_0000 && Exponent(val) >= 0 && (y == val || (y == -val && !ty.unsigned))
    ensures Apply(Mod, x, y, lty, ty) == Some(Fit(RingValue(And, x, val - 1), ty))
  {
    hide Fit, Pow2, Exponent, Bitwise;
    if y == -val {
      NegativeDivisor(x, val);
      assert val * (x / val) == -val * -(x / val);
    }
    ModValue(x, val, y, ty);
    LowDigits(x, val);
  }

  lemma ModValue(x: int, val: int, y: int, ty: Type)
    requires x >= 0 && 0 < val < 0x1_0000_0000 && (y == val || (y == -val && !ty.unsigned)) && y * (x / y) == val * (x / val)
    ensures (if ty.unsigned then Rem(Unsigned(x), Unsigned(y)) else Rem(x, y)) == x % val && Unsigned(y) != 0
  {
    assert x == val * (x / val) + x % val;
  }

  lemma LowDigits(x: int, val: int)
    requires x >= 0 && 0 < val < 0x1_0000_0000 && Exponent(val) >= 0
    ensures RingValue(And, x, val - 1) == x % val
  {
    hide Fit, Pow2, Bitwise, Exponent;
    var env: Env := _ => 0;
    ExponentValue(val, env);
    AndMask(x, 32, Exponent(val));
  }

  lemma NotNegative(x: Expr, env: Env)
    requires WellTyped(x) && Eval(x, env).Some? && (x.ty.unsigned || SkipByteToInt(x).ty.unsigned)
    ensures 0 <= Eval(x, env).v < 0x1_0000_0000
  {
    hide Eval;
    SkipValue(x, env);
    Ranged(x, env);
    Ranged(SkipByteToInt(x), env);
  }

  // ----- bytes divided as bytes -----

  /** `/` and `%` of unsigned bytes. */
  function DivideUchars(e: Expr): Rewrite {
    if e.Binary? && (e.op == Div || e.op == Mod) && IsInt16(e.ty) && CanOpUchar(e.l)
       && (CanOpUchar(e.r) || (e.r.Num? && 1 <= e.r.val <= 255))
    then To(NewCast(Binary(e.op, NewCast(e.l, UCHAR), NewCast(e.r, UCHAR), UCHAR), e.ty))
    else NoMatch
  }

  /** The value of an operand read as a byte type. */
  predicate SameAs(x: Expr, x': Expr, ty: Type, env: Env) {
    WellTyped(x') && Within(x'.ty, ty) && Eval(x', env) == Eval(x, env) && (Eval(x, env).Some? ==> InRange(Eval(x, env).v, ty))
  }

  lemma NumAs(n: Expr, ty: Type, env: Env)
    requires IsLiteral(n) && InRange(n.val, ty)
    ensures SameAs(n, NewCast(n, ty), ty, env)
  {
    hide Fit;
    Literal(n, env);
    NewCastRight(n, ty, env);
    FitSelf(n.val, ty);
  }

  lemma UcharAs(x: Expr, env: Env)
    requires WellTyped(x) && CanOpUchar(x)
    ensures SameAs(x, NewCast(x, UCHAR), UCHAR, env)
  {
    hide Eval, NewCast, CanOpUchar;
    UcharOperand(x, env);
  }

  /** A signed promotion cast down again. */
  lemma CharAs(x: Expr, env: Env)
    requires WellTyped(x) && IsPromotion(x) && !x.e.ty.unsigned
    ensures SameAs(x, NewCast(x, CHAR), CHAR, env)
  {
    SkipValue(x, env);
    if Eval(x.e, env).Some? {
      Ranged(x.e, env);
      FitSelf(Eval(x.e, env).v, CHAR);
    }
  }

  /** Quotients and remainders of bytes but for -128 / -1 are bytes, and one cast makes up for that. */
  lemma ByteQuotient(op: BinaryOp, x: int, y: int, ty: Type, t: Type)
    requires op in {Div, Mod} && ty in {UCHAR, CHAR} && t.Size() == 2 && y != 0 && InRange(x, ty) && InRange(y, ty)
    requires ty == CHAR ==> !t.unsigned && op == Mod
    ensures Apply(op, x, y, t, t).Some? && Apply(op, x, y, ty, ty) == Apply(op, x, y, t, t) && InRange(Apply(op, x, y, ty, ty).v, ty)
  {
    hide Fit;
    var v := if op == Div then Trunc(x, y) else Rem(x, y);
    assert InRange(v, ty) by { Quotients(x, y); }
    FitSelf(v, ty);
    FitSelf(v, t);
  }

  lemma Quotients(x: int, y: int)
    requires y != 0
    ensures x >= 0 && y > 0 ==> 0 <= Trunc(x, y) <= x
    ensures x >= 0 ==> 0 <= Rem(x, y) < Abs(y)
    ensures x < 0 ==> 0 <= -Rem(x, y) < Abs(y)
  {
    if x >= 0 {
      RemainderOf(x, y);
      if y > 0 {
        ShrunkBy(x, y);
      }
    } else {
      RemainderOf(-x, y);
      assert y * (-((-x) / y)) == -(y * ((-x) / y));
    }
  }

  lemma RemainderOf(x: int, y: int)
    requires y != 0
    ensures 0 <= x - y * (x / y) < Abs(y)
  {
    assert x == y * (x / y) + x % y;
  }

  lemma QuotientValue(e: Expr, l: Expr, r: Expr, ty: Type, env: Env)
    requires WellTyped(e) && e.Binary? && e.op in {Div, Mod} && e.ty.Size() == 2 && ty in {UCHAR, CHAR}
    requires ty == CHAR ==> !e.ty.unsigned && e.op == Mod
    requires SameAs(e.l, l, ty, env) && SameAs(e.r, r, ty, env)
    ensures WellTyped(Binary(e.op, l, r, ty)) && SameValue(e, Cast(Binary(e.op, l, r, ty), e.ty), env)
  {
    hide Fit, Apply, Eval;
    StrictEval(e.op, e.l, e.r, e.ty, env);
    StrictEval(e.op, l, r, ty, env);
    CastEval(Binary(e.op, l, r, ty), e.ty, env);
    if Eval(e, env).Some? {
      var x, y := Eval(e.l, env).v, Eval(e.r, env).v;
      DivisorNonzero(e.op, x, y, e.l.ty, e.ty);
      ByteQuotient(e.op, x, y, ty, e.ty);
      OperandType(e.op, x, y, e.l.ty, e.ty);
      OperandType(e.op, x, y, l.ty, ty);
      FitSelf(Apply(e.op, x, y, ty, ty).v, e.ty);
    }
  }

  lemma DivisorNonzero(op: BinaryOp, x: int, y: int, lty: Type, ty: Type)
    requires op in {Div, Mod} && Apply(op, x, y, lty, ty).Some?
    ensures y != 0
  {
  }

  lemma OperandType(op: BinaryOp, x: int, y: int, lty: Type, ty: Type)
    requires op in {Div, Mod}
    ensures Apply(op, x, y, lty, ty) == Apply(op, x, y, ty, ty)
  {
  }

  lemma DivideUcharsRight(e: Expr)
    requires WellTyped(e) && DivideUchars(e).To? && (e.r.Num? ==> IsLiteral(e.r))
    ensures Preserves(e, DivideUchars(e).e)
  {
    hide Eval, SameValue, NewCast, Fit, CanOpUchar, SameAs, Within, InRange;
    var e' := DivideUchars(e).e;
    var l, r := NewCast(e.l, UCHAR), NewCast(e.r, UCHAR);
    assert WellTyped(e.l) && WellTyped(e.r);
    forall env
      ensures WellTyped(e') && Within(e'.ty, e.ty) && SameValue(e, e', env)
    {
      UcharAs(e.l, env);
      if CanOpUchar(e.r) {
        UcharAs(e.r, env);
      } else {
        UcharNum(e.r, env);
      }
      QuotientValue(e, l, r, UCHAR, env);
      ThenNewCast(e, Binary(e.op, l, r, UCHAR), env);
    }
    var env0: Env := _ => 0;
    assert SameValue(e, e', env0);
  }

  lemma UcharNum(n: Expr, env: Env)
    requires IsLiteral(n) && 1 <= n.val <= 255
    ensures SameAs(n, NewCast(n, UCHAR), UCHAR, env)
  {
    NumAs(n, UCHAR, env);
  }

  /** `%` of signed bytes. */
  function ModChars(e: Expr): Rewrite {
    if e.Binary? && e.op == Mod && IsInt16(e.ty) && IsPromotion(e.l) && !e.l.e.ty.unsigned
       && ((IsPromotion(e.r) && !e.r.e.ty.unsigned) || (e.r.Num? && -128 <= e.r.val <= 127 && e.r.val != 0))
    then To(NewCast(Binary(Mod, NewCast(e.l, CHAR), NewCast(e.r, CHAR), CHAR), e.ty))
    else NoMatch
  }

  lemma ModCharsRight(e: Expr)
    requires WellTyped(e) && ModChars(e).To? && (e.r.Num? ==> IsLiteral(e.r))
    ensures Preserves(e, ModChars(e).e)
  {
    hide Eval, SameValue, NewCast, Fit, SameAs, InRange;
    var e' := ModChars(e).e;
    var l, r := NewCast(e.l, CHAR), NewCast(e.r, CHAR);
    assert WellTyped(e.l) && WellTyped(e.r);
    forall env
      ensures WellTyped(e') && Within(e'.ty, e.ty) && SameValue(e, e', env)
    {
      CharAs(e.l, env);
      if IsPromotion(e.r) {
        CharAs(e.r, env);
      } else {
        CharNum(e.r, env);
      }
      QuotientValue(e, l, r, CHAR, env);
      ThenNewCast(e, Binary(e.op, l, r, CHAR), env);
    }
    var env0: Env := _ => 0;
    assert SameValue(e, e', env0);
  }

  lemma CharNum(n: Expr, env: Env)
    requires IsLiteral(n) && -128 <= n.val <= 127
    ensures SameAs(n, NewCast(n, CHAR), CHAR, env)
  {
    NumAs(n, CHAR, env);
  }

  /** (char)((int)a / (int)b): -128 / -1 overflows a signed byte, but to the byte the cast would have left. */
  function CastQuotient(e: Expr): Rewrite {
    if e.Cast? && e.ty.kind == KChar && e.e.Binary? && e.e.op == Div && IsPromotion(e.e.l) && IsPromotion(e.e.r)
       && e.e.l.e.ty.unsigned == e.e.r.e.ty.unsigned
    then To(Cast(Binary(Div, e.e.l.e, e.e.r.e, e.e.l.e.ty), e.ty))
    else NoMatch
  }

  lemma CastQuotientRight(e: Expr)
    requires WellTyped(e) && CastQuotient(e).To?
    ensures Preserves(e, CastQuotient(e).e)
  {
    hide Eval, Fit, Trunc;
    var e' := CastQuotient(e).e;
    var b, t := e.e, e.e.l.e.ty;
    assert WellTyped(b) && WellTyped(b.l) && WellTyped(b.r) && WellTyped(b.l.e) && WellTyped(b.r.e);
    assert WellTyped(e'.e);
    forall env
      ensures SameValue(e, e', env)
    {
      StrictEval(Div, b.l, b.r, b.ty, env);
      CastEval(b, e.ty, env);
      StrictEval(Div, b.l.e, b.r.e, t, env);
      CastEval(e'.e, e.ty, env);
      SkipValue(b.l, env);
      SkipValue(b.r, env);
      if Eval(b, env).Some? {
        var x, y := Eval(b.l.e, env).v, Eval(b.r.e, env).v;
        Ranged(b.l.e, env);
        Ranged(b.r.e, env);
        FitTwice(Trunc(x, y), b.ty, e.ty);
        FitTwice(Trunc(x, y), t, e.ty);
      }
    }
  }

  // ----- shifts by constants -----

  /** x << 0 */
  function ShiftZero(e: Expr): Rewrite {
    if e.Binary? && (e.op == Shl || e.op == Shr) && e.r.Num? && e.r.val == 0 then To(e.l) else NoMatch
  }

  lemma ShiftZeroRight(e: Expr)
    requires WellTyped(e) && ShiftZero(e).To? && Within(e.l.ty, e.ty)
    ensures Preserves(e, e.l)
  {
    hide Eval, Fit, Operands;
    forall env
      ensures SameValue(e, e.l, env)
    {
      StrictEval(e.op, e.l, e.r, e.ty, env);
      Literal(e.r, env);
      if Eval(e.l, env).Some? {
        Ranged(e.l, env);
        FitSelf(Eval(e.l, env).v, e.ty);
      }
    }
  }

  /** A shift by the width or more gives 0. */
  function ShiftOut(e: Expr): Rewrite {
    if e.Binary? && (e.op == Shl || e.op == Shr) && e.r.Num? && e.r.val > 0 && e.r.val >= 8 * e.ty.Size() then To(Num(0, e.ty))
    else NoMatch
  }

  lemma WidthPower(ty: Type, n: int)
    requires ty.kind != KBool && n >= 8 * ty.Size()
    ensures n >= 0 && Pow2(n) % ty.Modulus() == 0 && Pow2(n) >= ty.Modulus()
  {
    var m, w := ty.Modulus(), 8 * ty.Size();
    Pow2Values();
    assert m == Pow2(w);
    Pow2Add(w, n - w);
    ModShift(0, Pow2(n - w), m);
    MulMonotonic(1, Pow2(n - w), m);
  }

  /** That is right for `<<`; for `>>` it is right exactly where what is shifted is not negative. */
  lemma ShiftOutExact(e: Expr, env: Env)
    requires WellTyped(e) && ShiftOut(e).To? && IsLiteral(e.r) && Eval(e.l, env).Some?
    ensures SameValue(e, ShiftOut(e).e, env) <==> (e.op == Shl || Eval(e.l, env).v >= 0)
  {
    hide Eval, Pow2, Fit;
    var e' := ShiftOut(e).e;
    var x, p := Eval(e.l, env).v, Pow2(e.r.val);
    StrictEval(e.op, e.l, e.r, e.ty, env);
    Literal(e.r, env);
    Literal(e', env);
    WidthPower(e.ty, e.r.val);
    Ranged(e.l, env);
    FitSelf(0, e.ty);
    if e.op == Shl {
      var m := e.ty.Modulus();
      CongMul(x, x, p, 0, m) by { CongSame(x, m); }
      CongFit(x * p, 0, e.ty);
    } else if x >= 0 {
      DivModUnique(x, 0, x, p);
    } else {
      DivModUnique(x, -1, x + p, p);
      FitMinusOne(e.ty);
    }
  }

  lemma ShiftOutRight(e: Expr)
    requires WellTyped(e) && ShiftOut(e).To? && IsLiteral(e.r) && (e.op == Shl || e.l.ty.unsigned)
    ensures Preserves(e, ShiftOut(e).e)
  {
    hide Eval;
    forall env
      ensures SameValue(e, ShiftOut(e).e, env)
    {
      StrictEval(e.op, e.l, e.r, e.ty, env);
      if Eval(e.l, env).Some? {
        Ranged(e.l, env);
        ShiftOutExact(e, env);
      }
    }
  }

  /** (int)c >> n -> (int)(c >> n) */
  function ShrPromoted(e: Expr): Rewrite {
    if e.Binary? && e.op == Shr && e.ty.kind == KInt && IsPromotion(e.l)
    then To(Cast(Binary(Shr, e.l.e, e.r, e.l.e.ty), INT))
    else NoMatch
  }

  lemma ShrPromotedRight(e: Expr)
    requires WellTyped(e) && ShrPromoted(e).To?
    ensures Preserves(e, ShrPromoted(e).e)
  {
    hide Eval, Fit, Pow2;
    var e' := ShrPromoted(e).e;
    var c := e.l.e;
    assert WellTyped(e.l) && WellTyped(c) && WellTyped(e.r);
    assert WellTyped(e'.e);
    forall env
      ensures SameValue(e, e', env)
    {
      SkipValue(e.l, env);
      StrictEval(Shr, e.l, e.r, e.ty, env);
      StrictEval(Shr, c, e.r, c.ty, env);
      CastEval(e'.e, INT, env);
      if Eval(e, env).Some? {
        var x, p := Eval(c, env).v, Pow2(Eval(e.r, env).v);
        Ranged(c, env);
        ShrunkBy(x, p);
        FitSelf(x / p, c.ty);
        FitSelf(x / p, INT);
      }
    }
  }

  lemma SignOfProduct(q: int, p: nat)
    ensures q * p < 0 ==> q < 0
  {
  }

  lemma ShrunkBy(x: int, p: nat)
    requires p > 0
    ensures if x >= 0 then 0 <= x / p <= x else x <= x / p < 0
  {
    var q := x / p;
    assert x == q * p + x % p;
    if x >= 0 {
      MulMonotonic(1, p, Abs(q));
    } else {
      SignOfProduct(q, p);
      var k := -q - 1;
      MulMonotonic(1, p, k);
      assert p * k == -(q * p) - p;
    }
  }
}
