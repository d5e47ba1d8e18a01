/**
 Conditions: the trees of `!`, `&&`, `||` and comparisons that gen_jump.c compiles to branches,
 and what they mean in C, written without reference to any code.
 */
module Conditions {
  import opened Arith
  import opened Bits
  import opened Machine
  import opened Emitters

  /** The 8- and 16-bit arithmetic types; a pointer is a 16-bit unsigned one (type.c). */
  datatype Ty = U8 | S8 | U16 | S16 {
    predicate IsWide() { this.U16? || this.S16? }
    predicate IsUnsigned() { this.U8? || this.U16? }
  }

  /** The values a type can have. */
  predicate InRange(ty: Ty, v: int) {
    match ty
    case U8 => 0 <= v < 256
    case S8 => -128 <= v < 128
    case U16 => 0 <= v < 65536
    case S16 => -32768 <= v < 32768
  }

  datatype RelOp = REq | RNe | RLt | RLe | RGt | RGe

  datatype Node =
    | Num(val: int, ty: Ty)
    | Local(off: nat, ty: Ty)             // a scalar local at @bp+off
    | Global(name: string, ty: Ty)        // a scalar global
    | AddrConst(sym: string)              // an address constant
    | LocalArray(off: nat)                // a local array, decayed to its address
    | Other(id: nat, ty: Ty)              // any other operand, compiled by code outside this model
    | Promote(e: Node)                    // integral promotion of a byte
    | IfElse(c: Node, yes: Node, no: Node)  // c ? yes : no
    | Masked(e: Node, mask: int)          // byte & constant
    | Not(e: Node)
    | AndAlso(l: Node, r: Node)
    | OrElse(l: Node, r: Node)
    | Compare(op: RelOp, l: Node, r: Node)
  {
    function Type(): Ty {
      match this
      case Num(_, ty) => ty
      case Local(_, ty) => ty
      case Global(_, ty) => ty
      case AddrConst(_) => U16
      case LocalArray(_) => U16
      case Other(_, ty) => ty
      case Promote(_) => S16
      case IfElse(_, yes, _) => yes.Type()
      case Masked(e, _) => e.Type()
      case Not(_) => S16
      case AndAlso(_, _) => S16
      case OrElse(_, _) => S16
      case Compare(_, _, _) => S16
    }

    /** An operand: it has a value in a register, as opposed to a condition one branches on. */
    predicate IsOperand() {
      !this.Masked? && !this.Not? && !this.AndAlso? && !this.OrElse? && !this.Compare?
    }

    /**
     What the parser and type.c guarantee: a constant is a value of its type, both sides of a comparison have one type, promotion is
     of a byte (and of no constant, which is folded), the arms of `?:` have one type.  A frame exists if there are locals.
     */
    ghost predicate WellTyped(cfg: Config) {
      match this
      case Num(val, ty) => InRange(ty, val)
      case Local(off, _) => off <= 252 && cfg.hasFrame
      case Global(_, _) => true
      case AddrConst(_) => true
      case LocalArray(off) => off < 65536 && cfg.hasFrame
      case Other(_, _) => true
      case Promote(e) => e.IsOperand() && !e.Num? && !e.Type().IsWide() && e.WellTyped(cfg)
      case IfElse(c, yes, no) =>
        yes.IsOperand() && no.IsOperand() && yes.Type() == no.Type()
        && c.WellTyped(cfg) && yes.WellTyped(cfg) && no.WellTyped(cfg)
      case Masked(e, _) => e.IsOperand() && !e.Type().IsWide() && e.WellTyped(cfg)
      case Not(e) => e.WellTyped(cfg)
      case AndAlso(l, r) => l.WellTyped(cfg) && r.WellTyped(cfg)
      case OrElse(l, r) => l.WellTyped(cfg) && r.WellTyped(cfg)
      case Compare(_, l, r) =>
        l.IsOperand() && r.IsOperand() && l.Type() == r.Type() && l.WellTyped(cfg) && r.WellTyped(cfg)
    }
  }

  // ----- what an expression means -----

  /** The value of a 16-bit pattern read at a type. */
  function Fit(raw: Word, ty: Ty): int {
    match ty
    case U8 => raw % 256
    case S8 => Sgn8(raw % 256)
    case U16 => raw
    case S16 => Sgn16(raw)
  }

  function RelHolds(op: RelOp, x: int, y: int): bool {
    match op
    case REq => x == y
    case RNe => x != y
    case RLt => x < y
    case RLe => x <= y
    case RGt => x > y
    case RGe => x >= y
  }

  /** Memory as the program sees it: the free stack is not part of it. */
  function World(fr: Frame, m: Mem): Mem {
    seq(65536, a requires 0 <= a < 65536 => if fr.bp - fr.room <= a < fr.bp then 0 else m[a])
  }

  /** What operand `id` evaluates to, and what evaluating it does to memory. */
  datatype Env = Env(value: (nat, Mem) -> Word, effect: (nat, Mem) -> Mem)

  function ReadTy(m: Mem, a: Word, ty: Ty): int {
    Fit(if ty.IsWide() then Word16At(m, a) else m[a], ty)
  }

  /**
   ISO/IEC 9899:2011 sections 6.5.3.3, 6.5.8, 6.5.9, 6.5.13, 6.5.14 and 6.5.15.  `&&` and `||`
   evaluate their right side only if the left side does not decide.  The order of the two sides
   of a comparison is unspecified in C; here it is the compiler's: right first at 16 bits, left
   first at 8, and a side that needs no code of its own is read last.
   */
  function Eval(cfg: Config, fr: Frame, env: Env, n: Node, w: Mem): (int, Mem)
    decreases n, 1
  {
    match n
    case Num(val, ty) => (Fit(val % 65536, ty), w)
    case Local(off, ty) => (ReadTy(w, (fr.bp + off) % 65536, ty), w)
    case Global(name, ty) => (ReadTy(w, cfg.link(name), ty), w)
    case AddrConst(sym) => (cfg.link(sym), w)
    case LocalArray(off) => ((fr.bp + off) % 65536, w)
    case Other(id, ty) => (Fit(env.value(id, w), ty), env.effect(id, w))
    case Promote(e) => Eval(cfg, fr, env, e, w)
    case IfElse(c, yes, no) =>
      var (v, w1) := Eval(cfg, fr, env, c, w);
      Eval(cfg, fr, env, if v != 0 then yes else no, w1)
    case Masked(e, mask) =>
      var (v, w1) := Eval(cfg, fr, env, e, w);
      (Fit(Op8(BitAnd, v % 256, mask % 256), e.Type()), w1)
    case Not(e) =>
      var (v, w1) := Eval(cfg, fr, env, e, w);
      (if v == 0 then 1 else 0, w1)
    case AndAlso(l, r) =>
      var (v, w1) := Eval(cfg, fr, env, l, w);
      if v == 0 then (0, w1) else
      var (u, w2) := Eval(cfg, fr, env, r, w1);
      (if u == 0 then 0 else 1, w2)
    case OrElse(l, r) =>
      var (v, w1) := Eval(cfg, fr, env, l, w);
      if v != 0 then (1, w1) else
      var (u, w2) := Eval(cfg, fr, env, r, w1);
      (if u == 0 then 0 else 1, w2)
    case Compare(op, l, r) =>
      var (x, y, w1) := EvalSides(cfg, fr, env, n, w);
      (if RelHolds(op, x, y) then 1 else 0, w1)
  }

  function EvalSides(cfg: Config, fr: Frame, env: Env, n: Node, w: Mem): (int, int, Mem)
    requires n.Compare?
    decreases n, 0
  {
    var Compare(op, l, r) := n;
    if RightFirst(op, l, r) then
      var (y, w1) := Eval(cfg, fr, env, r, w);
      var (x, w2) := Eval(cfg, fr, env, l, w1);
      (x, y, w2)
    else
      var (x, w1) := Eval(cfg, fr, env, l, w);
      var (y, w2) := Eval(cfg, fr, env, r, w1);
      (x, y, w2)
  }

  // ----- which operands need no code of their own (gen_direct.c) -----

  /** can_direct: the operand can be the memory or immediate operand of a 16-bit pair of instructions. */
  predicate CanDirect(n: Node) {
    match n
    case Num(_, _) => true
    case Local(_, ty) => ty != S8
    case Global(_, ty) => ty != S8
    case AddrConst(_) => true
    case Promote(e) => e.Type() == U8 && (e.Local? || e.Global?)
    case _ => false
  }

  /** can_direct_8bit */
  predicate CanDirect8(n: Node) { n.Num? || n.Local? || n.Global? }

  predicate RightFirst(op: RelOp, l: Node, r: Node) {
    l.Type().IsWide() &&
    if op == REq || op == RNe then
      if r.LocalArray? then false else if l.LocalArray? then true else !CanDirect(r)
    else !CanDirect(r)
  }
}
