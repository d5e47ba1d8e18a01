/**
 Sums, products, quotients and shifts by constants: the rules of optimize_expr (optimize.c) that merge
 constants, turn powers of two into shifts and masks, and divide bytes as bytes.
 */
module Strength {
  import opened Arith
  import opened Bits
  import opened CTypes
  import opened Exprs
  import opened Optimizer
  import opened Promotions

  // ----- powers of two -----

  /** The exponent when `val` is a power of two, -1 otherwise. */
  function Exponent(val: int): (k: int)
    ensures k >= -1 && (k >= 0 ==> val == Pow2(k))
    decreases if val < 0 then 0 else val
  {
    if val <= 0 then -1
    else if val == 1 then 0
    else if val % 2 == 1 then -1
    else
      var k := Exponent(val / 2);
      if k < 0 then -1 else k + 1
  }

  lemma {:induction false} ExponentOf(k: nat)
    ensures Exponent(Pow2(k)) == k
  {
    if k > 0 {
      ExponentOf(k - 1);
    }
  }

  /** A number has no digit in common with its predecessor exactly if it is a power of two. */
  lemma {:induction false} AndPredecessor(v: int, n: nat)
    requires 0 < v < Pow2(n)
    ensures Bitwise(BitAnd, v, v - 1, n) == 0 <==> Exponent(v) >= 0
    decreases n
  {
    if v % 2 == 1 {
      assert (v - 1) / 2 == v / 2;
      AndSelf(v / 2, n - 1);
    } else {
      assert (v - 1) / 2 == v / 2 - 1;
      AndPredecessor(v / 2, n - 1);
    }
  }

  lemma {:induction false} AndSelf(v: int, n: nat)
    requires 0 <= v < Pow2(n)
    ensures Bitwise(BitAnd, v, v, n) == v
  {
    if n > 0 {
      AndSelf(v / 2, n - 1);
    }
  }

  /** exact_log2, on the host's 64-bit integers. */
  method ExactLog2(val: int) returns (n: int)
    requires val < Pow2(63)
    ensures n == Exponent(val)
    ensures n >= 0 ==> val == Pow2(n)
    ensures n == -1 <==> forall k: nat :: val != Pow2(k)
  {
    Pow2Add(63, 1);
    if val > 0 {
      Pow2Monotonic(63, 64);
      AndPredecessor(val, 64);
    }
    if val <= 0 || Bitwise(BitAnd, val, val - 1, 64) != 0 {
      forall k: nat
        ensures val != Pow2(k)
      {
        ExponentOf(k);
      }
      return -1;
    }
    n := 0;
    var v := val / 2;
    while v > 0
      invariant 0 <= v && 0 <= n
      invariant Exponent(val) >= 0
      invariant v > 0 ==> Exponent(val) == n + 1 + Exponent(v) && Exponent(v) >= 0
      invariant v == 0 ==> n == Exponent(val)
    {
      v := v / 2;
      n := n + 1;
    }
  }

  // ----- constants merged -----

  /** A literal at least as wide as `ty`, so that its value field counts modulo the width of `ty`. */
  predicate Counts(n: Expr, ty: Type) { n.Num? && n.ty.kind != KBool && n.ty.Size() >= ty.Size() }

  lemma CountsValue(n: Expr, ty: Type, env: Env)
    requires Counts(n, ty) && ty.kind != KBool
    ensures Eval(n, env).Some? && Cong(Eval(n, env).v, n.val, ty.Modulus())
  {
    hide Cong, Fit;
    FitTwice(n.val, n.ty, ty);
  }

  /** A literal whose value counts as its value field modulo the width of `ty`, whatever its own type. */
  predicate CountsAs(n: Expr, ty: Type) { n.Num? && Cong(Fit(n.val, n.ty), n.val, ty.Modulus()) }

  /** Literals in the range of their type do, and those at least as wide. */
  lemma WhatCounts(n: Expr, ty: Type)
    requires IsLiteral(n) || (Counts(n, ty) && ty.kind != KBool)
    ensures CountsAs(n, ty)
  {
    hide Fit, Cong;
    if IsLiteral(n) {
      FitSelf(n.val, n.ty);
      CongSame(n.val, ty.Modulus());
    } else {
      CountsValue(n, ty, _ => 0);
    }
  }

  predicate Alike(a: Type, b: Type) { a.Size() == b.Size() && a.unsigned == b.unsigned && a.kind != KBool && b.kind != KBool }

  function Signed(op: BinaryOp, v: int): int { if op == Sub then -v else v }

  predicate IsSum(e: Expr) { e.Binary? && (e.op == Add || e.op == Sub) }

  /** (x + c2) + c -> x + (c + c2), and the like: the result keeps the kind and type of the inner node. */
  function MergeSums(e: Expr): Rewrite {
    if !(IsSum(e) && e.r.Num? && IsSum(e.l) && e.l.r.Num?) then NoMatch
    else
      var v, v2, t2 := e.r.val, e.l.r.val, e.l.r.ty;
      if e.op == Add && e.l.op == Add then To(Binary(Add, e.l.l, Num(v + v2, t2), e.l.ty))
      else if e.op == Add then To(Binary(Add, e.l.l, Num(v - v2, t2), e.l.ty))
      else if e.l.op == Add then To(Binary(Add, e.l.l, Num(v2 - v, t2), e.l.ty))
      else To(Binary(Sub, e.l.l, Num(v + v2, t2), e.l.ty))
  }

  lemma MergeSumsRight(e: Expr)
    requires WellTyped(e) && MergeSums(e).To?
    requires Alike(e.l.ty, e.ty) && Counts(e.r, e.ty) && Counts(e.l.r, e.ty)
    ensures Preserves(e, MergeSums(e).e)
  {
    hide Eval, Fit, Cong;
    var e' := MergeSums(e).e;
    assert WellTyped(e.l) && WellTyped(e.l.l);
    assert WellTyped(e'.l) && WellTyped(e'.r) && WellTyped(e');
    forall env
      ensures SameValue(e, e', env)
    {
      RingEval(e.op, e.l, e.r, e.ty, env);
      RingEval(e.l.op, e.l.l, e.l.r, e.l.ty, env);
      RingEval(e'.op, e'.l, e'.r, e'.ty, env);
      CountsValue(e.r, e.ty, env);
      CountsValue(e.l.r, e.ty, env);
      CountsValue(e'.r, e.ty, env);
      if Eval(e.l.l, env).Some? {
        SumsMerge(e.op, e.l.op, e'.op, Eval(e.l.l, env).v, Eval(e.l.r, env).v, e.l.r.val, Eval(e.r, env).v, e.r.val,
          Eval(e'.r, env).v, e'.r.val, e.ty, e.l.ty);
      }
    }
  }

  lemma SumsMerge(op: BinaryOp, op2: BinaryOp, op3: BinaryOp, x: int, y2: int, v2: int, y: int, v: int, y3: int, v3: int, ty: Type, t: Type)
    requires op in {Add, Sub} && op2 in {Add, Sub} && op3 in {Add, Sub} && Alike(t, ty)
    requires Cong(y, v, ty.Modulus()) && Cong(y2, v2, ty.Modulus()) && Cong(y3, v3, ty.Modulus())
    requires Signed(op3, v3) == Signed(op, v) + Signed(op2, v2)
    ensures Fit(RingValue(op, Fit(RingValue(op2, x, y2), t), y), ty) == Fit(RingValue(op3, x, y3), t)
  {
    hide Fit, Cong;
    var m, s := ty.Modulus(), RingValue(op2, x, y2);
    CongSame(x, m);
    RingCong(op2, x, x, y2, v2, m);
    FitCong(s, t);
    CongTrans(Fit(s, t), s, RingValue(op2, x, v2), m);
    RingCong(op, Fit(s, t), RingValue(op2, x, v2), y, v, m);
    RingCong(op3, x, x, y3, v3, m);
    assert RingValue(op, RingValue(op2, x, v2), v) == RingValue(op3, x, v3);
    CongSym(RingValue(op3, x, y3), RingValue(op3, x, v3), m);
    CongTrans(RingValue(op, Fit(s, t), y), RingValue(op3, x, v3), RingValue(op3, x, y3), m);
    CongFit(RingValue(op, Fit(s, t), y), RingValue(op3, x, y3), ty);
    FitAlike(RingValue(op3, x, y3), ty, t);
  }

  lemma FitAlike(v: int, a: Type, b: Type)
    requires Alike(a, b)
    ensures Fit(v, a) == Fit(v, b)
  {
  }

  /** swap_lr, for operations that commute */
  function SwapOperands(e: Expr): Rewrite {
    if e.Binary? && IsRing(e.op) && e.op != Sub then To(Binary(e.op, e.r, e.l, e.ty)) else NoMatch
  }

  lemma {:induction false} BitwiseSwaps(op: BitOp, x: int, y: int, n: nat)
    ensures Bitwise(op, x, y, n) == Bitwise(op, y, x, n)
    decreases n
  {
    if n > 0 {
      BitwiseSwaps(op, x / 2, y / 2, n - 1);
    }
  }

  lemma SwapOperandsRight(e: Expr)
    requires WellTyped(e) && SwapOperands(e).To?
    ensures Preserves(e, SwapOperands(e).e)
  {
    hide Eval, Fit, Bitwise;
    var e' := SwapOperands(e).e;
    assert WellTyped(e');
    forall env
      ensures SameValue(e, e', env)
    {
      RingEval(e.op, e.l, e.r, e.ty, env);
      RingEval(e.op, e.r, e.l, e.ty, env);
      if Eval(e.l, env).Some? && Eval(e.r, env).Some? {
        BitwiseSwaps(BitOpOf(e.op), Eval(e.l, env).v, Eval(e.r, env).v, 32);
      }
    }
  }

  /** 0 - x */
  function ZeroMinus(e: Expr): Rewrite {
    if e.Binary? && e.op == Sub && e.ty.kind != KLong && e.l.Num? && e.l.val == 0 then To(Unary(Neg, e.r, e.ty))
    else NoMatch
  }

  lemma ZeroMinusRight(e: Expr)
    requires WellTyped(e) && ZeroMinus(e).To?
    ensures Preserves(e, ZeroMinus(e).e)
  {
    hide Eval, Fit;
    var e' := ZeroMinus(e).e;
    assert WellTyped(e');
    forall env
      ensures SameValue(e, e', env)
    {
      RingEval(Sub, e.l, e.r, e.ty, env);
      UnaryEval(Neg, e.r, e.ty, env);
      Literal(e.l, env);
    }
  }

  /** The host multiplies as uint64_t. */
  function Host(v: int): int { v % 0x1_0000_0000_0000_0000 }

  lemma HostCong(v: int, ty: Type)
    ensures Cong(Host(v), v, ty.Modulus())
  {
    var m := ty.Modulus();
    var h: nat := 0x1_0000_0000_0000_0000;
    var q := v / h;
    assert m * (-(h / m) * q) == -(h * q);
    CongIf(Host(v), v, -(h / m) * q, m);
  }

  function Product(v: int, v2: int, ty: Type): Expr { Num(Fit(Host(v * v2), ty), ty) }

  lemma ProductTyped(v: int, v2: int, ty: Type)
    ensures WellTyped(Product(v, v2, ty)) && Product(v, v2, ty).ty == ty
  {
  }

  lemma ProductValue(v: int, v2: int, ty: Type, env: Env)
    requires ty.kind != KBool
    ensures Eval(Product(v, v2, ty), env).Some? && Cong(Eval(Product(v, v2, ty), env).v, v * v2, ty.Modulus())
  {
    hide Cong;
    var p := Host(v * v2);
    FitSelf(Fit(p, ty), ty);
    FitCong(p, ty);
    HostCong(v * v2, ty);
    CongTrans(Fit(p, ty), p, v * v2, ty.Modulus());
  }

  /** (x * c2) * c -> x * (c * c2) */
  function MergeProducts(e: Expr): Rewrite {
    if e.Binary? && e.op == Mul && e.r.Num? && e.l.Binary? && e.l.op == Mul && e.l.r.Num?
    then To(Binary(Mul, e.l.l, Product(e.r.val, e.l.r.val, e.ty), e.ty))
    else NoMatch
  }

  lemma MergeProductsRight(e: Expr)
    requires WellTyped(e) && MergeProducts(e).To?
    requires e.l.ty.Size() >= e.ty.Size() && Counts(e.r, e.ty) && Counts(e.l.r, e.ty)
    ensures Preserves(e, MergeProducts(e).e)
  {
    hide Eval, Fit, Cong, RingValue, Product;
    var e' := MergeProducts(e).e;
    assert WellTyped(e.l) && WellTyped(e.l.l);
    ProductTyped(e.r.val, e.l.r.val, e.ty);
    forall env
      ensures SameValue(e, e', env)
    {
      RingEval(Mul, e.l, e.r, e.ty, env);
      RingEval(Mul, e.l.l, e.l.r, e.l.ty, env);
      RingEval(Mul, e'.l, e'.r, e'.ty, env);
      CountsValue(e.r, e.ty, env);
      CountsValue(e.l.r, e.ty, env);
      ProductValue(e.r.val, e.l.r.val, e.ty, env);
      if Eval(e.l.l, env).Some? {
        ProductsMerge(Eval(e.l.l, env).v, Eval(e.l.r, env).v, e.l.r.val, Eval(e.r, env).v, e.r.val, Eval(e'.r, env).v, e.ty, e.l.ty);
      }
    }
  }

  lemma ProductsMerge(x: int, y2: int, v2: int, y: int, v: int, p: int, ty: Type, t: Type)
    requires ty.kind != KBool && t.kind != KBool && t.Size() >= ty.Size()
    requires Cong(y, v, ty.Modulus()) && Cong(y2, v2, ty.Modulus()) && Cong(p, v * v2, ty.Modulus())
    ensures Fit(RingValue(Mul, Fit(RingValue(Mul, x, y2), t), y), ty) == Fit(RingValue(Mul, x, p), ty)
  {
    hide Fit, Cong;
    var m := ty.Modulus();
    CongSame(x, m);
    FitTwice(x * y2, t, ty);
    CongMul(x, x, y2, v2, m);
    CongTrans(Fit(x * y2, t), x * y2, x * v2, m);
    CongMul(Fit(x * y2, t), x * v2, y, v, m);
    CongMul(x, x, p, v * v2, m);
    Shuffle(x, v2, v);
    CongSym(x * p, x * (v * v2), m);
    CongTrans(Fit(x * y2, t) * y, x * v2 * v, x * p, m);
    CongFit(Fit(x * y2, t) * y, x * p, ty);
  }

  lemma Shuffle(x: int, v2: int, v: int)
    ensures x * v2 * v == x * (v * v2)
  {
  }

  /** (x + c2) * c -> x * c + c2 * c */
  function Distribute(e: Expr): Rewrite {
    if e.Binary? && e.op == Mul && e.r.Num? && IsSum(e.l) && e.l.r.Num?
    then To(Binary(e.l.op, Binary(Mul, e.l.l, e.r, e.ty), Product(e.r.val, e.l.r.val, e.ty), e.ty))
    else NoMatch
  }

  lemma DistributeRight(e: Expr)
    requires WellTyped(e) && Distribute(e).To?
    requires e.l.ty.Size() >= e.ty.Size() && Counts(e.r, e.ty) && Counts(e.l.r, e.ty)
    ensures Preserves(e, Distribute(e).e)
  {
    hide Eval, Fit, Cong, RingValue, Product;
    var e' := Distribute(e).e;
    assert WellTyped(e.l) && WellTyped(e.l.l) && WellTyped(e'.l);
    ProductTyped(e.r.val, e.l.r.val, e.ty);
    forall env
      ensures SameValue(e, e', env)
    {
      RingEval(Mul, e.l, e.r, e.ty, env);
      RingEval(e.l.op, e.l.l, e.l.r, e.l.ty, env);
      RingEval(Mul, e.l.l, e.r, e.ty, env);
      RingEval(e.l.op, e'.l, e'.r, e'.ty, env);
      CountsValue(e.r, e.ty, env);
      CountsValue(e.l.r, e.ty, env);
      ProductValue(e.r.val, e.l.r.val, e.ty, env);
      if Eval(e.l.l, env).Some? {
        Distributes(e.l.op, Eval(e.l.l, env).v, Eval(e.l.r, env).v, e.l.r.val, Eval(e.r, env).v, e.r.val, Eval(e'.r, env).v, e.ty, e.l.ty);
      }
    }
  }

  lemma Distributes(op: BinaryOp, x: int, y2: int, v2: int, y: int, v: int, p: int, ty: Type, t: Type)
    requires op in {Add, Sub} && ty.kind != KBool && t.kind != KBool && t.Size() >= ty.Size()
    requires Cong(y, v, ty.Modulus()) && Cong(y2, v2, ty.Modulus()) && Cong(p, v * v2, ty.Modulus())
    ensures Fit(RingValue(Mul, Fit(RingValue(op, x, y2), t), y), ty) == Fit(RingValue(op, Fit(RingValue(Mul, x, y), ty), p), ty)
  {
    hide Fit, Cong;
    var m, s, q := ty.Modulus(), RingValue(op, x, y2), x * y;
    CongSame(x, m);
    CongSame(y, m);
    FitTwice(s, t, ty);
    CongMul(Fit(s, t), s, y, y, m);
    FitCong(q, ty);
    CongMul(v, y, v2, y2, m) by { CongSym(y, v, m); CongSym(y2, v2, m); }
    CongTrans(p, v * v2, y * y2, m);
    RingCong(op, Fit(q, ty), q, p, y * y2, m);
    assert s * y == RingValue(op, q, y * y2) by { Spread(op, x, y2, y); }
    CongSym(RingValue(op, Fit(q, ty), p), s * y, m);
    CongTrans(Fit(s, t) * y, s * y, RingValue(op, Fit(q, ty), p), m);
    CongFit(Fit(s, t) * y, RingValue(op, Fit(q, ty), p), ty);
  }

  lemma Spread(op: BinaryOp, x: int, z: int, y: int)
    requires op in {Add, Sub}
    ensures RingValue(op, x, z) * y == RingValue(op, x * y, y * z)
  {
  }
}
