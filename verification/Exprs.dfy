/**
 Integer expressions, and what the compiler's own constant evaluator (eval2, parse.c) takes them
 to mean, with variables standing for operands that are not constant.
 */
module Exprs {
  import opened Arith
  import opened Bits
  import opened CTypes

  datatype UnaryOp = Neg | BitNot | Not
  datatype BinaryOp =
    | Add | Sub | Mul | Div | Mod | And | Or | Xor | Shl | Shr
    | Eq | Ne | Lt | Le | Gt | Ge | LogAnd | LogOr

  datatype Expr =
    | Num(val: int, ty: Type)
    | Var(id: nat, ty: Type)
    | Cast(e: Expr, ty: Type)
    | Unary(uop: UnaryOp, e: Expr, ty: Type)
    | Binary(op: BinaryOp, l: Expr, r: Expr, ty: Type)
    | Cond(c: Expr, yes: Expr, no: Expr, ty: Type)

  type Env = nat -> int

  datatype Value = Some(v: int) | None

  predicate IsCompare(op: BinaryOp) { op == Eq || op == Ne || op == Lt || op == Le || op == Gt || op == Ge }
  predicate IsRing(op: BinaryOp) { op == Add || op == Sub || op == Mul || op == And || op == Or || op == Xor }
  predicate IsBitwise(op: BinaryOp) { op == And || op == Or || op == Xor }

  function BitOpOf(op: BinaryOp): BitOp { if op == And then BitAnd else if op == Or then BitOr else BitXor }

  /** The host's int64_t read as a uint64_t. */
  function Unsigned(v: int): int { if v < 0 then v + 0x1_0000_0000_0000_0000 else v }

  /** C's division truncates toward zero. */
  function Trunc(x: int, y: int): int
    requires y != 0
  {
    if x >= 0 then x / y else -((-x) / y)
  }

  function Rem(x: int, y: int): int
    requires y != 0
  {
    x - y * Trunc(x, y)
  }

  function RingValue(op: BinaryOp, x: int, y: int): int {
    match op
    case Add => x + y
    case Sub => x - y
    case Mul => x * y
    case _ => Bitwise(BitOpOf(op), x, y, 32)
  }

  predicate Holds(op: BinaryOp, x: int, y: int) {
    match op
    case Eq => x == y
    case Ne => x != y
    case Lt => x < y
    case Le => x <= y
    case Gt => x > y
    case Ge => x >= y
    case _ => false
  }

  function Truth(b: bool): int { if b then 1 else 0 }

  /** Everything but `&&` and `||`, on the values of both operands. */
  function Apply(op: BinaryOp, x: int, y: int, lty: Type, ty: Type): Value {
    match op
    case Div =>
      if y == 0 || Unsigned(y) == 0 then None
      else Some(Fit(if ty.unsigned then Trunc(Unsigned(x), Unsigned(y)) else Trunc(x, y), ty))
    case Mod =>
      if y == 0 || Unsigned(y) == 0 then None
      else Some(Fit(if ty.unsigned then Rem(Unsigned(x), Unsigned(y)) else Rem(x, y), ty))
    case Shl => if y < 0 then None else Some(Fit(x * Pow2(y), ty))
    case Shr => if y < 0 then None else Some(Fit(x / Pow2(y), ty))
    case Eq => Some(Truth(x == y))
    case Ne => Some(Truth(x != y))
    case Lt => Some(Truth(if lty.unsigned then Unsigned(x) < Unsigned(y) else x < y))
    case Le => Some(Truth(if lty.unsigned then Unsigned(x) <= Unsigned(y) else x <= y))
    case Gt => Some(Truth(if lty.unsigned then Unsigned(x) > Unsigned(y) else x > y))
    case Ge => Some(Truth(if lty.unsigned then Unsigned(x) >= Unsigned(y) else x >= y))
    case LogAnd => None
    case LogOr => None
    case _ => Some(Fit(RingValue(op, x, y), ty))
  }

  function UnaryValue(op: UnaryOp, x: int, ty: Type): int {
    match op
    case Neg => Fit(-x, ty)
    case BitNot => Fit(-x - 1, ty)
    case Not => Truth(x == 0)
  }

  /** eval2; None where it gives up (division by zero) or the host's shift is undefined. */
  function Eval(e: Expr, env: Env): Value {
    match e
    case Num(val, ty) => Some(Fit(val, ty))
    case Var(id, ty) => Some(Fit(env(id), ty))
    case Cast(x, ty) =>
      var v := Eval(x, env);
      if v.None? then None else Some(Fit(v.v, ty))
    case Unary(op, x, ty) =>
      var v := Eval(x, env);
      if v.None? then None else Some(UnaryValue(op, v.v, ty))
    case Binary(op, l, r, ty) =>
      var x := Eval(l, env);
      if x.None? then None
      else if op == LogAnd && x.v == 0 then Some(0)
      else if op == LogOr && x.v != 0 then Some(1)
      else
        var y := Eval(r, env);
        if y.None? then None
        else if op == LogAnd || op == LogOr then Some(Truth(y.v != 0))
        else Apply(op, x.v, y.v, l.ty, ty)
    case Cond(c, yes, no, ty) =>
      var v := Eval(c, env);
      if v.None? then None else if v.v != 0 then Eval(yes, env) else Eval(no, env)
  }

  predicate IsLogical(op: BinaryOp) { op == LogAnd || op == LogOr }

  /**
   What type.c makes sure of: arithmetic is not done in `_Bool`, both sides of a comparison read the same
   way, those of `/` and `%` have values of its type, and so have what `>>` shifts and the arms of `?:`.
   */
  predicate Operands(op: BinaryOp, l: Type, r: Type, ty: Type) {
    && (!IsCompare(op) && !IsLogical(op) ==> ty.kind != KBool)
    && (IsCompare(op) ==> l.unsigned == r.unsigned)
    && (op == Div || op == Mod ==> Within(l, ty) && Within(r, ty))
    && (op == Shr ==> Within(l, ty))
  }

  predicate WellTyped(e: Expr) {
    match e
    case Num(_, _) => true
    case Var(_, _) => true
    case Cast(x, _) => WellTyped(x)
    case Unary(op, x, ty) => WellTyped(x) && (op != Not ==> ty.kind != KBool)
    case Binary(op, l, r, ty) =>
      WellTyped(l) && WellTyped(r) && Operands(op, l.ty, r.ty, ty)
    case Cond(c, yes, no, ty) => WellTyped(c) && WellTyped(yes) && WellTyped(no) && Within(yes.ty, ty) && Within(no.ty, ty)
  }

  /** The value of an expression is one of its type. */
  lemma {:induction false} Ranged(e: Expr, env: Env)
    requires WellTyped(e) && Eval(e, env).Some?
    ensures InRange(Eval(e, env).v, e.ty)
  {
    hide RingValue, Trunc, Rem, Bitwise, Unsigned, Pow2, Fit;
    match e
    case Cond(c, yes, no, ty) =>
      if Eval(c, env).v != 0 {
        Ranged(yes, env);
      } else {
        Ranged(no, env);
      }
    case _ =>
  }

  /** On typed operands the host's unsigned comparison is the comparison of the values. */
  lemma ComparesValues(op: BinaryOp, l: Expr, r: Expr, ty: Type, env: Env)
    requires IsCompare(op) && WellTyped(Binary(op, l, r, ty)) && Eval(l, env).Some? && Eval(r, env).Some?
    ensures Eval(Binary(op, l, r, ty), env) == Some(Truth(Holds(op, Eval(l, env).v, Eval(r, env).v)))
  {
    Ranged(l, env);
    Ranged(r, env);
  }

  // ----- arithmetic modulo a power of two -----

  /** The low digits of a bitwise operation depend on the low digits of its operands. */
  lemma {:induction false} BitwiseLow(op: BitOp, x: int, y: int, n: nat, k: nat)
    requires k <= n
    ensures Bitwise(op, x, y, n) % Pow2(k) == Bitwise(op, x, y, k)
    decreases n
  {
    if k > 0 {
      BitwiseLow(op, x / 2, y / 2, n - 1, k - 1);
      DigitStep(Digit(op, x, y), Bitwise(op, x / 2, y / 2, n - 1), Pow2(k - 1));
    }
  }

  lemma {:induction false} BitwiseCong(op: BitOp, x: int, x': int, y: int, y': int, k: nat)
    requires Cong(x, x', Pow2(k)) && Cong(y, y', Pow2(k))
    ensures Bitwise(op, x, y, k) == Bitwise(op, x', y', k)
    decreases k
  {
    if k > 0 {
      HalfCong(x, x', k);
      HalfCong(y, y', k);
      BitwiseCong(op, x / 2, x' / 2, y / 2, y' / 2, k - 1);
    }
  }

  lemma HalfCong(x: int, x': int, k: nat)
    requires k > 0 && Cong(x, x', Pow2(k))
    ensures x % 2 == x' % 2 && Cong(x / 2, x' / 2, Pow2(k - 1))
  {
    CongBy(x, x', Pow2(k));
    var q, p := (x - x') / Pow2(k), Pow2(k - 1);
    assert Pow2(k) * q == 2 * (p * q);
    DivModUnique(x, x' / 2 + p * q, x' % 2, 2);
    CongIf(x / 2, x' / 2, q, p);
  }

  /** The number of digits of a modulus. */
  function Digits(m: nat): nat { if m == 256 then 8 else if m == 65536 then 16 else 32 }

  predicate IsModulus(m: nat) { m == 256 || m == 65536 || m == 0x1_0000_0000 }

  /** `+`, `-`, `*`, `&`, `|` and `^` respect congruence: what a truncation drops can be dropped before. */
  lemma RingCong(op: BinaryOp, x: int, x': int, y: int, y': int, m: nat)
    requires IsRing(op) && IsModulus(m) && Cong(x, x', m) && Cong(y, y', m)
    ensures Cong(RingValue(op, x, y), RingValue(op, x', y'), m)
  {
    if op == Mul {
      CongMul(x, x', y, y', m);
    } else if IsBitwise(op) {
      var b, k := BitOpOf(op), Digits(m);
      Pow2Values();
      BitwiseLow(b, x, y, 32, k);
      BitwiseLow(b, x', y', 32, k);
      BitwiseCong(b, x, x', y, y', k);
      SameRemainder(Bitwise(b, x, y, 32), Bitwise(b, x', y', 32), m);
    } else {
      CongAdd(x, x', y, y', m);
    }
  }

  lemma SameRemainder(x: int, y: int, m: nat)
    requires m > 0 && x % m == y % m
    ensures Cong(x, y, m)
  {
    var p, q := x / m, y / m;
    assert x == m * p + x % m && y == m * q + y % m;
    assert m * (p - q) == m * p - m * q;
    CongIf(x, y, p - q, m);
  }

  lemma CongSame(x: int, m: nat)
    requires m > 0
    ensures Cong(x, x, m)
  {
    assert m * 0 == 0;
    CongIf(x, x, 0, m);
  }

  /** An operation done in a wider type and then cut down is the operation on cut-down operands. */
  lemma RingNarrows(op: BinaryOp, x: int, x': int, y: int, y': int, big: Type, ty: Type)
    requires IsRing(op) && big.kind != KBool && ty.kind != KBool && ty.Size() <= big.Size()
    requires Cong(x, x', ty.Modulus()) && Cong(y, y', ty.Modulus())
    ensures Fit(Fit(RingValue(op, x, y), big), ty) == Fit(RingValue(op, x', y'), ty)
  {
    RingCong(op, x, x', y, y', ty.Modulus());
    FitTwice(RingValue(op, x, y), big, ty);
    CongFit(RingValue(op, x, y), RingValue(op, x', y'), ty);
  }
}
