/**
 What the compiler's constant evaluator (eval2, parse.c) gives, in terms of numbers alone: the laws of each
 operator that its values keep, for all operands.
 */
module EvalLaws {
  import opened Arith
  import opened Bits
  import opened CTypes
  import opened Exprs
  import opened Optimizer
  import opened Divisions
  import opened Rewriting

  // ----- digits -----

  /** Digit `k` of a number in two's complement, the least significant one being digit 0. */
  function DigitOf(v: int, k: nat): int { v / Pow2(k) % 2 }

  lemma {:induction false} BitwiseDigit(op: BitOp, x: int, y: int, n: nat, k: nat)
    requires k < n
    ensures DigitOf(Bitwise(op, x, y, n), k) == Digit(op, x / Pow2(k), y / Pow2(k))
    decreases k
  {
    var b: int := Bitwise(op, x / 2, y / 2, n - 1);
    var d: int := Digit(op, x, y);
    DivModUnique(d + 2 * b, b, d, 2);
    if k > 0 {
      BitwiseDigit(op, x / 2, y / 2, n - 1, k - 1);
      DivTwice(d + 2 * b, Pow2(k - 1));
      DivTwice(x, Pow2(k - 1));
      DivTwice(y, Pow2(k - 1));
    }
  }

  /** Numbers that agree modulo 2^n agree in their low `n` digits. */
  lemma {:induction false} CongDigit(v: int, w: int, n: nat, k: nat)
    requires k < n && Cong(v, w, Pow2(n))
    ensures DigitOf(v, k) == DigitOf(w, k)
    decreases k
  {
    HalfCong(v, w, n);
    if k > 0 {
      CongDigit(v / 2, w / 2, n - 1, k - 1);
      DivTwice(v, Pow2(k - 1));
      DivTwice(w, Pow2(k - 1));
    }
  }

  lemma ModulusPower(ty: Type)
    ensures Pow2(ty.Bits()) == ty.Modulus()
  {
    Pow2Values();
  }

  /** Every digit of x & y, x | y and x ^ y. */
  lemma BitOperationDigits(l: Expr, r: Expr, ty: Type, env: Env, k: nat)
    requires ty.kind != KBool && k < ty.Bits() && Eval(l, env).Some? && Eval(r, env).Some?
    ensures var x, y := DigitOf(Eval(l, env).v, k), DigitOf(Eval(r, env).v, k);
      var a, o, d := Eval(Binary(And, l, r, ty), env), Eval(Binary(Or, l, r, ty), env), Eval(Binary(Xor, l, r, ty), env);
      && a.Some? && DigitOf(a.v, k) == (if x == 1 && y == 1 then 1 else 0)
      && o.Some? && DigitOf(o.v, k) == (if x == 1 || y == 1 then 1 else 0)
      && d.Some? && DigitOf(d.v, k) == (if x != y then 1 else 0)
  {
    hide Eval, Fit, Bitwise, Pow2, Cong;
    var x, y := Eval(l, env).v, Eval(r, env).v;
    RingEval(And, l, r, ty, env);
    RingEval(Or, l, r, ty, env);
    RingEval(Xor, l, r, ty, env);
    OneDigit(BitAnd, x, y, ty, k);
    OneDigit(BitOr, x, y, ty, k);
    OneDigit(BitXor, x, y, ty, k);
  }

  lemma OneDigit(op: BitOp, x: int, y: int, ty: Type, k: nat)
    requires ty.kind != KBool && k < ty.Bits()
    ensures DigitOf(Fit(Bitwise(op, x, y, 32), ty), k) == Digit(op, x / Pow2(k), y / Pow2(k))
  {
    hide Fit, Bitwise, Digit, Pow2;
    ModulusPower(ty);
    FitCong(Bitwise(op, x, y, 32), ty);
    CongDigit(Fit(Bitwise(op, x, y, 32), ty), Bitwise(op, x, y, 32), ty.Bits(), k);
    BitwiseDigit(op, x, y, 32, k);
  }

  // ----- sums -----

  /** Digits common to both are counted twice in a sum. */
  lemma {:induction false} BitwiseSums(x: int, y: int, n: nat)
    ensures Bitwise(BitOr, x, y, n) == x % Pow2(n) + y % Pow2(n) - Bitwise(BitAnd, x, y, n)
    ensures Bitwise(BitXor, x, y, n) == x % Pow2(n) + y % Pow2(n) - 2 * Bitwise(BitAnd, x, y, n)
    decreases n
  {
    if n == 0 {
      ModUnit(x);
      ModUnit(y);
    } else {
      BitwiseSums(x / 2, y / 2, n - 1);
      LowDigitAndRest(x, Pow2(n - 1));
      LowDigitAndRest(y, Pow2(n - 1));
    }
  }

  lemma ModUnit(x: int)
    ensures x % 1 == 0
  {
  }

  lemma LowDigitAndRest(x: int, p: nat)
    requires p > 0
    ensures x % (2 * p) == x % 2 + 2 * ((x / 2) % p)
  {
    var h := x / 2;
    var q, r := h / p, h % p;
    assert h == q * p + r;
    assert q * (2 * p) == 2 * (q * p);
    DivModUnique(x, q, x % 2 + 2 * r, 2 * p);
  }

  lemma CongLess(x: int, m: nat)
    requires m > 0
    ensures Cong(x % m, x, m)
  {
    var q := x / m;
    assert x == m * q + x % m && m * -q == -(m * q);
    CongIf(x % m, x, -q, m);
  }

  /** x | y is x + y - (x & y) and x ^ y is x + y - 2 (x & y), in the type. */
  lemma BitOperationSums(l: Expr, r: Expr, ty: Type, env: Env)
    requires ty.kind != KBool && Eval(l, env).Some? && Eval(r, env).Some?
    ensures var x, y, a := Eval(l, env).v, Eval(r, env).v, Eval(Binary(And, l, r, ty), env);
      && a.Some?
      && Eval(Binary(Or, l, r, ty), env) == Some(Fit(x + y - a.v, ty))
      && Eval(Binary(Xor, l, r, ty), env) == Some(Fit(x + y - 2 * a.v, ty))
  {
    hide Eval, Fit, Bitwise, Pow2, Cong;
    var x, y, m := Eval(l, env).v, Eval(r, env).v, ty.Modulus();
    RingEval(And, l, r, ty, env);
    RingEval(Or, l, r, ty, env);
    RingEval(Xor, l, r, ty, env);
    Pow2Values();
    BitwiseSums(x, y, 32);
    var a: int := Bitwise(BitAnd, x, y, 32);
    CongWord(x, ty);
    CongWord(y, ty);
    CongAdd(x % 0x1_0000_0000, x, y % 0x1_0000_0000, y, m);
    FitCong(a, ty);
    CongSym(Fit(a, ty), a, m);
    CongAdd(x % 0x1_0000_0000 + y % 0x1_0000_0000, x + y, a, Fit(a, ty), m);
    CongFit(x % 0x1_0000_0000 + y % 0x1_0000_0000 - a, x + y - Fit(a, ty), ty);
    CongAdd(x % 0x1_0000_0000 + y % 0x1_0000_0000 - a, x + y - Fit(a, ty), a, Fit(a, ty), m);
    CongFit(x % 0x1_0000_0000 + y % 0x1_0000_0000 - a - a, x + y - Fit(a, ty) - Fit(a, ty), ty);
  }

  lemma CongWord(x: int, ty: Type)
    ensures Cong(x % 0x1_0000_0000, x, ty.Modulus())
  {
    hide Cong;
    CongLess(x, 0x1_0000_0000);
    CongCoarser(x % 0x1_0000_0000, x, ty.Modulus(), 0x1_0000_0000 / ty.Modulus());
  }

  lemma {:induction false} WithItself(x: int, n: nat)
    ensures Bitwise(BitAnd, x, x, n) == x % Pow2(n) && Bitwise(BitAnd, x, 0, n) == 0
    decreases n
  {
    AndZero(x, n);
    if n == 0 {
      ModUnit(x);
    } else {
      WithItself(x / 2, n - 1);
      LowDigitAndRest(x, Pow2(n - 1));
    }
  }

  /** x | 0 and x | x are x, x ^ 0 is x, x & x is x, x & 0 and x ^ x are 0. */
  lemma BitOperationUnits(x: Expr, z: Expr, ty: Type, env: Env)
    requires ty.kind != KBool && Eval(x, env).Some? && InRange(Eval(x, env).v, ty) && Eval(z, env) == Some(0)
    ensures Eval(Binary(Or, x, z, ty), env) == Eval(Binary(Or, x, x, ty), env) == Eval(Binary(Xor, x, z, ty), env) == Eval(x, env)
    ensures Eval(Binary(And, x, x, ty), env) == Eval(x, env)
    ensures Eval(Binary(And, x, z, ty), env) == Eval(Binary(Xor, x, x, ty), env) == Some(0)
  {
    hide Eval, Fit, Bitwise, Pow2;
    var v := Eval(x, env).v;
    BitOperationSums(x, z, ty, env);
    BitOperationSums(x, x, ty, env);
    RingEval(And, x, x, ty, env);
    RingEval(And, x, z, ty, env);
    WithItself(v, 32);
    Pow2Values();
    CongWord(v, ty);
    CongFit(v % 0x1_0000_0000, v, ty);
    FitSelf(v, ty);
    FitSelf(0, ty);
  }

  // ----- arithmetic -----

  /** x + y, x - y and x * y are what they are modulo the width; -x and ~x are what cancels x and what fills it up to -1. */
  lemma SumsAndProducts(l: Expr, r: Expr, ty: Type, env: Env)
    requires ty.kind != KBool && Eval(l, env).Some? && Eval(r, env).Some?
    ensures var x, y, m := Eval(l, env).v, Eval(r, env).v, ty.Modulus();
      var a, s, p := Eval(Binary(Add, l, r, ty), env), Eval(Binary(Sub, l, r, ty), env), Eval(Binary(Mul, l, r, ty), env);
      var n, c := Eval(Unary(Neg, l, ty), env), Eval(Unary(BitNot, l, ty), env);
      && a.Some? && InRange(a.v, ty) && Cong(a.v, x + y, m)
      && s.Some? && InRange(s.v, ty) && Cong(s.v + y, x, m)
      && p.Some? && InRange(p.v, ty) && Cong(p.v, x * y, m)
      && n.Some? && InRange(n.v, ty) && Cong(n.v + x, 0, m)
      && c.Some? && InRange(c.v, ty) && Cong(c.v + x, -1, m)
  {
    hide Eval, Fit, Cong;
    var x, y, m := Eval(l, env).v, Eval(r, env).v, ty.Modulus();
    RingEval(Add, l, r, ty, env);
    RingEval(Sub, l, r, ty, env);
    RingEval(Mul, l, r, ty, env);
    UnaryEval(Neg, l, ty, env);
    UnaryEval(BitNot, l, ty, env);
    FitCong(x + y, ty);
    FitCong(x - y, ty);
    FitCong(x * y, ty);
    FitCong(-x, ty);
    FitCong(-x - 1, ty);
    CongSame(x, m);
    CongSame(y, m);
    CongAdd(Fit(x - y, ty), x - y, y, y, m);
    CongAdd(Fit(-x, ty), -x, x, x, m);
    CongAdd(Fit(-x - 1, ty), -x - 1, x, x, m);
  }

  /**
   x / y and x % y: x == y * q + r with r smaller than y and of the sign of x, unless it is the least number by -1;
   no value if and only if y is 0.
   */
  lemma Quotients(l: Expr, r: Expr, ty: Type, env: Env)
    requires WellTyped(Binary(Div, l, r, ty)) && Eval(l, env).Some? && Eval(r, env).Some?
    ensures var x, y, q, m := Eval(l, env).v, Eval(r, env).v, Eval(Binary(Div, l, r, ty), env), Eval(Binary(Mod, l, r, ty), env);
      && (q.None? <==> y == 0) && (m.None? <==> y == 0)
      && (y != 0 ==> Abs(m.v) < Abs(y) && (x >= 0 ==> m.v >= 0) && (x <= 0 ==> m.v <= 0))
      && (y != 0 && !(y == -1 && x == MinValue(ty)) ==> x == y * q.v + m.v)
      && (y == -1 && x == MinValue(ty) ==> q.v == x && m.v == 0)
  {
    hide Eval, Fit, Trunc, Rem, WellTyped;
    var x, y := Eval(l, env).v, Eval(r, env).v;
    QuotientTyped(l, r, ty);
    Ranged(l, env);
    Ranged(r, env);
    StrictEval(Div, l, r, ty, env);
    StrictEval(Mod, l, r, ty, env);
    if y != 0 {
      Truncates(x, y);
      QuotientFits(x, y, ty);
    }
  }

  lemma QuotientTyped(l: Expr, r: Expr, ty: Type)
    requires WellTyped(Binary(Div, l, r, ty))
    ensures WellTyped(l) && WellTyped(r) && Within(l.ty, ty) && Within(r.ty, ty) && ty.kind != KBool
  {
  }

  /** C's division truncates toward zero. */
  lemma Truncates(x: int, y: int)
    requires y != 0
    ensures x == y * Trunc(x, y) + Rem(x, y) && Abs(Rem(x, y)) < Abs(y)
    ensures (x >= 0 ==> Rem(x, y) >= 0) && (x <= 0 ==> Rem(x, y) <= 0)
    ensures Abs(Trunc(x, y)) <= Abs(x) && (y == -1 ==> Trunc(x, y) == -x)
    ensures (Abs(Trunc(x, y)) == Abs(x) ==> x == 0 || y == 1 || y == -1) && (y == 1 ==> Trunc(x, y) == x)
    ensures x >= 0 && y > 0 ==> Trunc(x, y) >= 0
  {
    var a: int := if x >= 0 then x else -x;
    var q: int, r: int := a / y, a % y;
    Divides(a, y, q, r);
    assert Trunc(x, y) == if x >= 0 then q else -q;
    assert y * -q == -(y * q);
    assert Rem(x, y) == if x >= 0 then r else -r;
    Smaller(a, y, q, r);
  }

  lemma Divides(a: int, y: int, q: int, r: int)
    requires y != 0 && q == a / y && r == a % y
    ensures a == y * q + r && 0 <= r < Abs(y)
  {
  }

  lemma Smaller(a: int, y: int, q: int, r: int)
    requires a >= 0 && y != 0 && a == y * q + r && 0 <= r < Abs(y)
    ensures Abs(q) <= a && (Abs(q) == a ==> a == 0 || y == 1 || y == -1) && (y > 0 ==> q >= 0) && (y == 1 ==> q == a) && (y == -1 ==> q == -a)
  {
    var b: int, p: int := Abs(y), if y > 0 then q else -q;
    assert y * q == b * p;
    if p < 0 {
      MulMonotonic(p, -1, b);
    }
    if p >= 1 {
      MulMonotonic(1, b, p);
      if b >= 2 {
        MulMonotonic(2, b, p);
      }
    }
  }

  lemma QuotientFits(x: int, y: int, ty: Type)
    requires ty.kind != KBool && InRange(x, ty) && InRange(y, ty) && y != 0
    requires Abs(Rem(x, y)) < Abs(y) && (x >= 0 ==> Rem(x, y) >= 0) && (x <= 0 ==> Rem(x, y) <= 0)
    requires Abs(Trunc(x, y)) <= Abs(x) && (Abs(Trunc(x, y)) == Abs(x) ==> x == 0 || y == 1 || y == -1)
    requires (y == -1 ==> Trunc(x, y) == -x) && (y == 1 ==> Trunc(x, y) == x) && (x >= 0 && y > 0 ==> Trunc(x, y) >= 0)
    ensures Fit(Rem(x, y), ty) == Rem(x, y)
    ensures !(y == -1 && x == MinValue(ty)) ==> Fit(Trunc(x, y), ty) == Trunc(x, y)
    ensures y == -1 && x == MinValue(ty) ==> Fit(Trunc(x, y), ty) == x
  {
    hide Fit, Trunc, Rem;
    FitSelf(Rem(x, y), ty);
    if y == -1 && x == MinValue(ty) {
      CongIf(-x, x, 1, ty.Modulus());
      CongFit(-x, x, ty);
      FitSelf(x, ty);
    } else {
      FitSelf(Trunc(x, y), ty);
    }
  }

  /** x << n is x * 2^n modulo the width; x >> n is the greatest number that, times 2^n, is not above x. */
  lemma ShiftsMean(l: Expr, r: Expr, ty: Type, env: Env)
    requires WellTyped(Binary(Shr, l, r, ty)) && Eval(l, env).Some? && Eval(r, env).Some? && Eval(r, env).v >= 0
    ensures var x, p := Eval(l, env).v, Pow2(Eval(r, env).v);
      var s, h := Eval(Binary(Shl, l, r, ty), env), Eval(Binary(Shr, l, r, ty), env);
      && s.Some? && InRange(s.v, ty) && Cong(s.v, x * p, ty.Modulus())
      && h.Some? && p * h.v <= x < p * (h.v + 1)
  {
    hide Eval, Fit, Pow2, Cong, WellTyped;
    var x, p := Eval(l, env).v, Pow2(Eval(r, env).v);
    ShiftTyped(l, r, ty);
    Ranged(l, env);
    StrictEval(Shl, l, r, ty, env);
    StrictEval(Shr, l, r, ty, env);
    FitCong(x * p, ty);
    HalvedInside(x, p, ty);
    FitSelf(x / p, ty);
    Floor(x, p);
  }

  lemma Floor(x: int, p: int)
    requires p > 0
    ensures p * (x / p) <= x < p * (x / p + 1)
  {
    Divides(x, p, x / p, x % p);
    assert p * (x / p + 1) == p * (x / p) + p;
  }

  lemma ShiftTyped(l: Expr, r: Expr, ty: Type)
    requires WellTyped(Binary(Shr, l, r, ty))
    ensures WellTyped(l) && Within(l.ty, ty) && ty.kind != KBool
  {
  }

  lemma HalvedInside(x: int, p: nat, ty: Type)
    requires p > 0 && InRange(x, ty)
    ensures InRange(x / p, ty)
  {
    ShrunkBy(x, p);
  }

  // ----- truth -----

  /** Comparisons compare the values, `!` is 1 for 0 alone. */
  lemma ComparisonsMean(l: Expr, r: Expr, ty: Type, env: Env)
    requires WellTyped(l) && WellTyped(r) && l.ty.unsigned == r.ty.unsigned && Eval(l, env).Some? && Eval(r, env).Some?
    ensures var x, y := Eval(l, env).v, Eval(r, env).v;
      && Eval(Binary(Eq, l, r, ty), env) == Some(if x == y then 1 else 0)
      && Eval(Binary(Ne, l, r, ty), env) == Some(if x == y then 0 else 1)
      && Eval(Binary(Lt, l, r, ty), env) == Some(if x < y then 1 else 0)
      && Eval(Binary(Le, l, r, ty), env) == Some(if x <= y then 1 else 0)
      && Eval(Binary(Gt, l, r, ty), env) == Some(if y < x then 1 else 0)
      && Eval(Binary(Ge, l, r, ty), env) == Some(if y <= x then 1 else 0)
      && Eval(Unary(Not, l, ty), env) == Some(if x == 0 then 1 else 0)
  {
    hide Eval, Fit, WellTyped;
    UnaryEval(Not, l, ty, env);
    Compared(Eq, l, r, ty, env);
    Compared(Ne, l, r, ty, env);
    Compared(Lt, l, r, ty, env);
    Compared(Le, l, r, ty, env);
    Compared(Gt, l, r, ty, env);
    Compared(Ge, l, r, ty, env);
  }

  lemma Compared(op: BinaryOp, l: Expr, r: Expr, ty: Type, env: Env)
    requires IsCompare(op) && WellTyped(l) && WellTyped(r) && l.ty.unsigned == r.ty.unsigned && Eval(l, env).Some? && Eval(r, env).Some?
    ensures Eval(Binary(op, l, r, ty), env) == Some(Truth(Exprs.Holds(op, Eval(l, env).v, Eval(r, env).v)))
  {
    hide Eval;
    ComparesValues(op, l, r, ty, env);
  }

  /** && and || are 1 or 0, and leave the right side alone where the left one decides. */
  lemma ConnectivesMean(l: Expr, r: Expr, ty: Type, env: Env)
    requires Eval(l, env).Some?
    ensures var x, y := Eval(l, env).v, Eval(r, env);
      && (x == 0 ==> Eval(Binary(LogAnd, l, r, ty), env) == Some(0))
      && (x != 0 ==> Eval(Binary(LogAnd, l, r, ty), env) == if y.None? then None else Some(if y.v == 0 then 0 else 1))
      && (x != 0 ==> Eval(Binary(LogOr, l, r, ty), env) == Some(1))
      && (x == 0 ==> Eval(Binary(LogOr, l, r, ty), env) == if y.None? then None else Some(if y.v == 0 then 0 else 1))
  {
  }

  /** A conversion to `_Bool` asks whether the value is 0; any other keeps the number modulo the width. */
  lemma ConversionsMean(x: Expr, ty: Type, env: Env)
    requires Eval(x, env).Some?
    ensures var v, c := Eval(x, env).v, Eval(Cast(x, ty), env);
      && c.Some? && InRange(c.v, ty)
      && if ty.kind == KBool then c.v == (if v == 0 then 0 else 1) else Cong(c.v, v, ty.Modulus())
  {
    hide Cong;
    if ty.kind != KBool {
      FitCong(Eval(x, env).v, ty);
    }
  }

  /** Folding gives these values: the literal that stands for a constant expression has its value. */
  lemma FoldedValue(e: Expr, env: Env)
    requires WellTyped(e) && Fold(e).To?
    ensures Eval(e, env).Some? && Fold(e).e == Num(Eval(e, env).v, e.ty)
  {
    hide Eval;
    ConstEverywhere(e, env);
  }

  /** 5 & 1, 5 | 1 and 5 ^ 1 as the compiler folds them. */
  lemma KnownBits()
    ensures
      var five, one := Num(5, INT), Num(1, INT);
      && Fold(Binary(And, five, one, INT)) == To(one) && Fold(Binary(Or, five, one, INT)) == To(five)
      && Fold(Binary(Xor, five, one, INT)) == To(Num(4, INT))
  {
    hide Fit, Bitwise, Eval, Pow2;
    var five, one := Num(5, INT), Num(1, INT);
    Known(5);
    Known(4);
    Known(1);
    RingEval(And, five, one, INT, NOWHERE);
    OddMask();
    BitOperationSums(five, one, INT, NOWHERE);
  }

  lemma Known(n: int)
    requires InRange(n, INT)
    ensures Eval(Num(n, INT), NOWHERE) == Some(n) && Fit(n, INT) == n
  {
    FitSelf(n, INT);
  }

  lemma OddMask()
    ensures Bitwise(BitAnd, 5, 1, 32) == 1
  {
    hide Bitwise;
    AndMask(5, 32, 1);
  }

  /** -7 / 2, -7 % 2 and -7 >> 1 as the compiler folds them. */
  lemma KnownQuotients()
    ensures
      var less, two := Num(-7, INT), Num(2, INT);
      && Fold(Binary(Div, less, two, INT)) == To(Num(-3, INT)) && Fold(Binary(Mod, less, two, INT)) == To(Num(-1, INT))
      && Fold(Binary(Shr, less, Num(1, INT), INT)) == To(Num(-4, INT))
  {
    hide Fit, Eval;
    Known(-7);
    Known(-4);
    Known(-3);
    Known(-1);
    Known(1);
    Known(2);
    StrictEval(Div, Num(-7, INT), Num(2, INT), INT, NOWHERE);
    StrictEval(Mod, Num(-7, INT), Num(2, INT), INT, NOWHERE);
    StrictEval(Shr, Num(-7, INT), Num(1, INT), INT, NOWHERE);
    assert Pow2(1) == 2;
    DivModUnique(-7, -4, 1, 2);
  }
}
