/**
 Arithmetic on numbers of several bytes, most significant byte first: the chains of byte instructions of
 gen_direct_long.c and of gen_opeq32_addsub and gen_opeq32_bitop (codegen.c).
 */
module LongChains {
  import opened Arith
  import opened Bits
  import opened Machine

  // ----- numbers in memory -----

  /** Where a number begins. */
  datatype Place = Direct(addr: Word) | Indexed(off: Byte)

  predicate Fits(p: Place, n: nat) {
    match p case Direct(addr) => addr + n <= 65536 case Indexed(off) => off + n <= 256
  }

  function At(p: Place, i: nat): Loc
    requires Fits(p, i + 1)
  {
    match p case Direct(addr) => Ext(addr + i) case Indexed(off) => Idx(off + i)
  }

  /** The address of digit `i`, counted from the least significant one. */
  function Cell(p: Place, n: nat, i: nat, s: State): Word
    requires Fits(p, n) && i < n
  {
    Addr(At(p, n - 1 - i), s)
  }

  /** The value of the low `j` digits. */
  function Low(p: Place, n: nat, j: nat, s: State): nat
    requires Fits(p, n) && j <= n
  {
    if j == 0 then 0 else Low(p, n, j - 1, s) + Pow256(j - 1) * s.mem[Cell(p, n, j - 1, s)]
  }

  lemma {:induction false} LowBound(p: Place, n: nat, j: nat, s: State)
    requires Fits(p, n) && j <= n
    ensures Low(p, n, j, s) < Pow256(j)
  {
    if j > 0 {
      LowBound(p, n, j - 1, s);
      TopDigit(Low(p, n, j - 1, s), Pow256(j - 1), s.mem[Cell(p, n, j - 1, s)]);
    }
  }

  lemma TopDigit(x: nat, p: nat, d: Byte)
    requires x < p
    ensures x + p * d < 256 * p
  {
    MulMonotonic(d, 255, p);
  }

  lemma CellsApart(p: Place, n: nat, i: nat, k: nat, s: State)
    requires Fits(p, n) && i < n && k < n && i != k
    ensures Cell(p, n, i, s) != Cell(p, n, k, s)
  {
  }

  // ----- operands -----

  datatype Arg = Const(v: int) | InPlace(p: Place)

  predicate ArgFits(a: Arg, n: nat) { a.InPlace? ==> Fits(a.p, n) }

  function ArgDigit(a: Arg, n: nat, i: nat, s: State): Byte
    requires ArgFits(a, n) && i < n
  {
    match a case Const(v) => (v / Pow256(i)) % 256 case InPlace(p) => s.mem[Cell(p, n, i, s)]
  }

  function ArgLow(a: Arg, n: nat, j: nat, s: State): nat
    requires ArgFits(a, n) && j <= n
  {
    match a case Const(v) => v % Pow256(j) case InPlace(p) => Low(p, n, j, s)
  }

  function ArgOpnd(a: Arg, n: nat, i: nat): Opnd
    requires ArgFits(a, n) && i < n
  {
    match a case Const(v) => Imm((v / Pow256(i)) % 256) case InPlace(p) => M(At(p, n - 1 - i))
  }

  lemma ArgNext(a: Arg, n: nat, j: nat, s: State)
    requires ArgFits(a, n) && j < n
    ensures ArgLow(a, n, j + 1, s) == ArgLow(a, n, j, s) + Pow256(j) * ArgDigit(a, n, j, s)
    ensures ArgLow(a, n, j, s) < Pow256(j)
  {
    match a {
      case Const(v) => DigitOf(v, Pow256(j));
      case InPlace(p) => LowBound(p, n, j, s);
    }
  }

  lemma DigitOf(v: int, p: nat)
    requires p > 0
    ensures v % (256 * p) == v % p + p * ((v / p) % 256) && v % p < p
  {
    var q, r := v / p, v % p;
    assert v == p * q + r;
    var h, d := q / 256, q % 256;
    assert q == 256 * h + d;
    assert p * q == h * (256 * p) + p * d by { assert p * (256 * h + d) == h * (256 * p) + p * d; }
    TopDigit(r, p, d);
    DivModUnique(v, h, r + p * d, 256 * p);
  }

  /** What is still to be read of an operand is not among what has been written. */
  predicate Clear(a: Arg, dest: Place, n: nat, s: State)
    requires ArgFits(a, n) && Fits(dest, n)
  {
    match a
    case Const(_) => true
    case InPlace(p) => forall i, k :: 0 <= k < i < n ==> Cell(p, n, i, s) != Cell(dest, n, k, s)
  }

  lemma ClearOfItself(p: Place, n: nat, s: State)
    requires Fits(p, n)
    ensures Clear(InPlace(p), p, n, s)
  {
  }

  // ----- one digit -----

  datatype ChainOp = Plus | Minus | Digits(b: BitOp)

  function OpInstr(op: ChainOp, first: bool, r: Reg, o: Opnd): Instr {
    match op
    case Plus => Alu(if first then Add else Adc, r, o)
    case Minus => Alu(if first then Sub else Sbc, r, o)
    case Digits(b) => Logic(b, r, o)
  }

  /** The first digit goes through B, the others through A. */
  function DigitCode(op: ChainOp, l: Arg, r: Arg, dest: Place, n: nat, i: nat, first: bool): seq<Instr>
    requires ArgFits(l, n) && ArgFits(r, n) && Fits(dest, n) && i < n
  {
    var reg := if first then B else A;
    [Alu(Ld, reg, ArgOpnd(l, n, i)), OpInstr(op, first, reg, ArgOpnd(r, n, i)), St(reg, At(dest, n - 1 - i))]
  }

  /** The digit that results, and the carry or borrow. */
  function DigitValue(op: ChainOp, x: Byte, y: Byte, c: bool): Byte {
    match op
    case Plus => Wrap8(x + y + Carry(c))
    case Minus => Wrap8(x - y - Carry(c))
    case Digits(b) => Op8(b, x, y)
  }

  function DigitCarry(op: ChainOp, x: Byte, y: Byte, c: bool): bool {
    match op
    case Plus => x + y + Carry(c) >= 256
    case Minus => x - y - Carry(c) < 0
    case Digits(_) => c
  }

  lemma StepOp(op: ChainOp, first: bool, r: Reg, o: Opnd, s: State)
    ensures var t := Step(OpInstr(op, first, r, o), s);
      var c := !first && s.f.c;
      && t == Set(r, Get(r, t), s).(f := t.f)
      && Get(r, t) == DigitValue(op, Get(r, s), Rd(o, s), c)
      && (!op.Digits? ==> t.f.c == DigitCarry(op, Get(r, s), Rd(o, s), c))
      && (op.Digits? ==> t.f.c == s.f.c)
  {
    hide Rd, Sgn8, Op8;
  }

  lemma DigitStep(op: ChainOp, l: Arg, r: Arg, dest: Place, n: nat, i: nat, first: bool, s: State)
    requires ArgFits(l, n) && ArgFits(r, n) && Fits(dest, n) && i < n
    ensures StraightCode(DigitCode(op, l, r, dest, n, i, first))
    ensures var t := Exec(DigitCode(op, l, r, dest, n, i, first), s);
      var x, y, c := ArgDigit(l, n, i, s), ArgDigit(r, n, i, s), !first && s.f.c;
      && t.x == s.x && t.sp == s.sp
      && t.mem == s.mem[Cell(dest, n, i, s) := DigitValue(op, x, y, c)]
      && (!op.Digits? ==> t.f.c == DigitCarry(op, x, y, c))
  {
    hide Step, Exec, Rd, Op8, DigitValue, DigitCarry;
    var reg := if first then B else A;
    var i1, i2, i3 := Alu(Ld, reg, ArgOpnd(l, n, i)), OpInstr(op, first, reg, ArgOpnd(r, n, i)), St(reg, At(dest, n - 1 - i));
    Exec3(i1, i2, i3, s);
    var s1 := Step(i1, s);
    StepLoad(reg, ArgOpnd(l, n, i), s);
    ReadArg(l, n, i, s);
    StepOp(op, first, reg, ArgOpnd(r, n, i), s1);
    RdSame(ArgOpnd(r, n, i), s, s1);
    ReadArg(r, n, i, s);
    StepStore(reg, At(dest, n - 1 - i), Step(i2, s1));
  }

  lemma ReadArg(a: Arg, n: nat, i: nat, s: State)
    requires ArgFits(a, n) && i < n
    ensures Rd(ArgOpnd(a, n, i), s) == ArgDigit(a, n, i, s)
  {
  }

  // ----- the chain -----

  /** Only the low `j` digits of `dest` have changed. */
  predicate Untouched(dest: Place, n: nat, j: nat, s: State, t: State)
    requires Fits(dest, n) && j <= n
  {
    t.x == s.x && t.sp == s.sp && forall a: Word :: (forall i :: 0 <= i < j ==> a != Cell(dest, n, i, s)) ==> t.mem[a] == s.mem[a]
  }

  /** They hold those of the result, and the carry what has to go into the next; nothing emitted, no carry. */
  predicate Summed(op: ChainOp, l: Arg, r: Arg, dest: Place, n: nat, j: nat, emitted: bool, s: State, t: State)
    requires ArgFits(l, n) && ArgFits(r, n) && Fits(dest, n) && j <= n
  {
    var c := Carry(emitted && t.f.c);
    var x, y := ArgLow(l, n, j, s), ArgLow(r, n, j, s);
    match op
    case Plus => Low(dest, n, j, t) + Pow256(j) * c == x + y
    case Minus => Low(dest, n, j, t) - Pow256(j) * c == x - y
    case Digits(b) => Low(dest, n, j, t) == Bitwise(b, x, y, 8 * j)
  }

  ghost predicate Chained(op: ChainOp, l: Arg, r: Arg, dest: Place, n: nat, j: nat, emitted: bool, code: seq<Instr>)
    requires ArgFits(l, n) && ArgFits(r, n) && Fits(dest, n) && j <= n
  {
    StraightCode(code) && forall s :: Clear(l, dest, n, s) && Clear(r, dest, n, s) ==>
      Untouched(dest, n, j, s, Exec(code, s)) && Summed(op, l, r, dest, n, j, emitted, s, Exec(code, s))
  }

  lemma ChainedNone(op: ChainOp, l: Arg, r: Arg, dest: Place, n: nat)
    requires ArgFits(l, n) && ArgFits(r, n) && Fits(dest, n)
    ensures Chained(op, l, r, dest, n, 0, false, [])
  {
    forall s
      ensures Untouched(dest, n, 0, s, Exec([], s)) && Summed(op, l, r, dest, n, 0, false, s, Exec([], s))
    {
      assert Pow256(0) == 1;
    }
  }

  /** The low digits of `dest` do not see a write to another of its digits, nor one elsewhere. */
  lemma {:induction false} LowSame(dest: Place, n: nat, j: nat, s: State, t: State)
    requires Fits(dest, n) && j <= n && t.x == s.x
    requires forall i :: 0 <= i < j ==> t.mem[Cell(dest, n, i, s)] == s.mem[Cell(dest, n, i, s)]
    ensures Low(dest, n, j, t) == Low(dest, n, j, s)
  {
    if j > 0 {
      LowSame(dest, n, j - 1, s, t);
    }
  }

  lemma LowNext(dest: Place, n: nat, j: nat, t: State, u: State, d: Byte)
    requires Fits(dest, n) && j < n && u.x == t.x && u.mem == t.mem[Cell(dest, n, j, t) := d]
    ensures Low(dest, n, j + 1, u) == Low(dest, n, j, t) + Pow256(j) * d
  {
    forall i | 0 <= i < j
      ensures u.mem[Cell(dest, n, i, t)] == t.mem[Cell(dest, n, i, t)]
    {
      CellsApart(dest, n, i, j, t);
    }
    LowSame(dest, n, j, t, u);
  }

  lemma UntouchedNext(dest: Place, n: nat, j: nat, s: State, t: State, u: State, d: Byte)
    requires Fits(dest, n) && j < n && Untouched(dest, n, j, s, t)
    requires u.x == t.x && u.sp == t.sp && u.mem == t.mem[Cell(dest, n, j, t) := d]
    ensures Untouched(dest, n, j + 1, s, u)
  {
    forall a: Word | forall i :: 0 <= i < j + 1 ==> a != Cell(dest, n, i, s)
      ensures u.mem[a] == s.mem[a]
    {
      assert a != Cell(dest, n, j, s);
      assert forall i :: 0 <= i < j ==> a != Cell(dest, n, i, s);
    }
  }

  /** An operand's next digit is still what it was. */
  lemma StillThere(a: Arg, dest: Place, n: nat, j: nat, s: State, t: State)
    requires ArgFits(a, n) && Fits(dest, n) && j < n && Clear(a, dest, n, s) && Untouched(dest, n, j, s, t)
    ensures ArgDigit(a, n, j, t) == ArgDigit(a, n, j, s)
  {
  }

  lemma NextSum(op: ChainOp, lo: nat, c: bool, x: nat, y: nat, dx: Byte, dy: Byte, p: nat)
    requires op.Plus? || op.Minus?
    requires op.Plus? ==> lo + p * Carry(c) == x + y
    requires op.Minus? ==> lo - p * Carry(c) == x - y
    ensures var d, c' := DigitValue(op, dx, dy, c), DigitCarry(op, dx, dy, c);
      && (op.Plus? ==> lo + p * d + 256 * p * Carry(c') == x + p * dx + (y + p * dy))
      && (op.Minus? ==> lo + p * d - 256 * p * Carry(c') == x + p * dx - (y + p * dy))
  {
    var d, c' := DigitValue(op, dx, dy, c), DigitCarry(op, dx, dy, c);
    if op.Plus? {
      assert d + 256 * Carry(c') == dx + dy + Carry(c);
      assert p * (d + 256 * Carry(c')) == p * d + 256 * p * Carry(c');
      assert p * (dx + dy + Carry(c)) == p * dx + p * dy + p * Carry(c);
    } else {
      assert d - 256 * Carry(c') == dx - dy - Carry(c);
      assert p * (d - 256 * Carry(c')) == p * d - 256 * p * Carry(c');
      assert p * (dx - dy - Carry(c)) == p * dx - p * dy - p * Carry(c);
    }
  }

  lemma {:induction false} PowersAgree(k: nat)
    ensures Pow256(k) == Pow2(8 * k)
  {
    if k > 0 {
      PowersAgree(k - 1);
      Pow2Add(8, 8 * (k - 1));
      Pow2Values();
    }
  }

  lemma NextBits(b: BitOp, x: nat, y: nat, dx: Byte, dy: Byte, j: nat)
    requires x < Pow256(j) && y < Pow256(j)
    ensures Bitwise(b, x + Pow256(j) * dx, y + Pow256(j) * dy, 8 * (j + 1)) == Bitwise(b, x, y, 8 * j) + Pow256(j) * Op8(b, dx, dy)
  {
    hide Bitwise;
    var p := Pow256(j);
    PowersAgree(j);
    var x', y' := x + p * dx, y + p * dy;
    BitwiseSplit(b, x', y', 8 * j, 8);
    DivModUnique(x', dx, x, p);
    DivModUnique(y', dy, y, p);
    SameLowBits(b, x', x, y', y, 8 * j, dx, dy);
    assert 8 * j + 8 == 8 * (j + 1);
  }

  lemma {:induction false} SameLowBits(b: BitOp, x': int, x: int, y': int, y: int, k: nat, qx: int, qy: int)
    requires x' == x + Pow2(k) * qx && y' == y + Pow2(k) * qy
    ensures Bitwise(b, x', y', k) == Bitwise(b, x, y, k)
    decreases k
  {
    if k > 0 {
      HalfOf(x, Pow2(k - 1), qx);
      HalfOf(y, Pow2(k - 1), qy);
      SameLowBits(b, x' / 2, x / 2, y' / 2, y / 2, k - 1, qx, qy);
    }
  }

  lemma HalfOf(x: int, p: nat, q: int)
    ensures (x + 2 * p * q) / 2 == x / 2 + p * q && (x + 2 * p * q) % 2 == x % 2
  {
    var z := p * q;
    assert 2 * p * q == 2 * z;
  }

  /** One digit more. */
  lemma ChainNext(op: ChainOp, l: Arg, r: Arg, dest: Place, n: nat, j: nat, emitted: bool, code: seq<Instr>)
    requires ArgFits(l, n) && ArgFits(r, n) && Fits(dest, n) && j < n
    requires Chained(op, l, r, dest, n, j, emitted, code)
    ensures Chained(op, l, r, dest, n, j + 1, true, code + DigitCode(op, l, r, dest, n, j, !emitted))
  {
    hide Exec, Low, Untouched, ArgLow, ArgDigit, Cell, Clear, DigitCode, Pow256, Summed;
    var more := DigitCode(op, l, r, dest, n, j, !emitted);
    forall s | Clear(l, dest, n, s) && Clear(r, dest, n, s)
      ensures Untouched(dest, n, j + 1, s, Exec(code + more, s)) && Summed(op, l, r, dest, n, j + 1, true, s, Exec(code + more, s))
    {
      var t := Exec(code, s);
      ExecAppend(code, more, s);
      ChainOne(op, l, r, dest, n, j, emitted, s, t);
    }
    DigitStep(op, l, r, dest, n, j, !emitted, State(0, 0, 0, 0, Flags(false, false, false, false), seq(65536, i => 0)));
  }

  lemma ChainOne(op: ChainOp, l: Arg, r: Arg, dest: Place, n: nat, j: nat, emitted: bool, s: State, t: State)
    requires ArgFits(l, n) && ArgFits(r, n) && Fits(dest, n) && j < n
    requires Clear(l, dest, n, s) && Clear(r, dest, n, s)
    requires Untouched(dest, n, j, s, t) && Summed(op, l, r, dest, n, j, emitted, s, t)
    ensures var u := Exec(DigitCode(op, l, r, dest, n, j, !emitted), t);
      Untouched(dest, n, j + 1, s, u) && Summed(op, l, r, dest, n, j + 1, true, s, u)
  {
    hide Exec, Low, ArgLow, ArgDigit, Cell, Clear, DigitCode, DigitValue, DigitCarry, Bitwise, Op8;
    var u := Exec(DigitCode(op, l, r, dest, n, j, !emitted), t);
    DigitStep(op, l, r, dest, n, j, !emitted, t);
    StillThere(l, dest, n, j, s, t);
    StillThere(r, dest, n, j, s, t);
    var dx, dy, c := ArgDigit(l, n, j, s), ArgDigit(r, n, j, s), emitted && t.f.c;
    var d := DigitValue(op, dx, dy, c);
    UntouchedNext(dest, n, j, s, t, u, d);
    LowNext(dest, n, j, t, u, d);
    ArgNext(l, n, j, s);
    ArgNext(r, n, j, s);
    var x, y := ArgLow(l, n, j, s), ArgLow(r, n, j, s);
    if op.Digits? {
      NextBits(op.b, x, y, dx, dy, j);
      DigitIsOp8(op, dx, dy, c);
    } else {
      NextSum(op, Low(dest, n, j, t), c, x, y, dx, dy, Pow256(j));
    }
  }

  lemma DigitIsOp8(op: ChainOp, x: Byte, y: Byte, c: bool)
    requires op.Digits?
    ensures DigitValue(op, x, y, c) == Op8(op.b, x, y)
  {
  }

  // ----- what may be left out -----

  /** Below the first digit that is not 0 a constant changes nothing and carries nothing. */
  lemma SkipZero(op: ChainOp, dest: Place, v: int, n: nat, j: nat, code: seq<Instr>)
    requires Fits(dest, n) && j < n && !op.Digits? && (v / Pow256(j)) % 256 == 0
    requires Chained(op, InPlace(dest), Const(v), dest, n, j, false, code)
    ensures Chained(op, InPlace(dest), Const(v), dest, n, j + 1, false, code)
  {
    hide Exec, Low, Untouched, Cell, Clear, Pow256, Summed;
    forall s | Clear(InPlace(dest), dest, n, s)
      ensures Untouched(dest, n, j + 1, s, Exec(code, s)) && Summed(op, InPlace(dest), Const(v), dest, n, j + 1, false, s, Exec(code, s))
    {
      ClearConst(v, dest, n, s);
      Kept(op, Const(v), dest, n, j, s, Exec(code, s));
    }
  }

  /** A digit that the operation would not change may be left as it is. */
  lemma Kept(op: ChainOp, r: Arg, dest: Place, n: nat, j: nat, s: State, t: State)
    requires Fits(dest, n) && ArgFits(r, n) && j < n && Clear(InPlace(dest), dest, n, s)
    requires Untouched(dest, n, j, s, t) && Summed(op, InPlace(dest), r, dest, n, j, false, s, t)
    requires DigitValue(op, ArgDigit(InPlace(dest), n, j, s), ArgDigit(r, n, j, s), false) == ArgDigit(InPlace(dest), n, j, s)
    requires !op.Digits? ==> ArgDigit(r, n, j, s) == 0
    ensures Untouched(dest, n, j + 1, s, t) && Summed(op, InPlace(dest), r, dest, n, j + 1, false, s, t)
  {
    hide Low, ArgLow, Cell, Bitwise, Op8, Pow256;
    var dx, dy := ArgDigit(InPlace(dest), n, j, s), ArgDigit(r, n, j, s);
    StillThere(InPlace(dest), dest, n, j, s, t);
    SelfWrite(dest, n, j, t, dx);
    UntouchedNext(dest, n, j, s, t, t, dx);
    LowNext(dest, n, j, t, t, dx);
    ArgNext(InPlace(dest), n, j, s);
    ArgNext(r, n, j, s);
    var x, y := ArgLow(InPlace(dest), n, j, s), ArgLow(r, n, j, s);
    if op.Digits? {
      NextBits(op.b, x, y, dx, dy, j);
      DigitIsOp8(op, dx, dy, false);
    } else {
      assert Pow256(j) * 0 == 0;
    }
  }

  lemma ClearConst(v: int, dest: Place, n: nat, s: State)
    requires Fits(dest, n)
    ensures Clear(Const(v), dest, n, s)
  {
  }

  lemma SelfWrite(dest: Place, n: nat, j: nat, t: State, d: Byte)
    requires Fits(dest, n) && j < n && t.mem[Cell(dest, n, j, t)] == d
    ensures t.mem == t.mem[Cell(dest, n, j, t) := d]
  {
  }

  /** The byte that keeps everything, and the one that settles everything. */
  function Keep(b: BitOp): Byte { if b == BitAnd then 255 else 0 }
  function Whole(b: BitOp): Byte { if b == BitAnd then 0 else 255 }

  /** What is printed for the latter. */
  function WholeCode(b: BitOp, l: Loc): seq<Instr> {
    match b
    case BitAnd => [UnM(Clr, l)]
    case BitOr => [Alu(Ld, B, Imm(255)), St(B, l)]
    case BitXor => [UnM(Com, l)]
  }

  lemma Shortcuts(b: BitOp, x: Byte)
    ensures Op8(b, x, Keep(b)) == x
    ensures Op8(b, x, Whole(b)) == match b case BitAnd => 0 case BitOr => 255 case BitXor => 255 - x
  {
    hide Bitwise;
    Pow2Values();
    WithNeutral(b, x, 8);
    AndZero(x, 8);
    OrOnes(x, 8);
    XorOnes(x, 8);
  }

  lemma WholeStep(b: BitOp, l: Loc, s: State)
    ensures StraightCode(WholeCode(b, l))
    ensures var t := Exec(WholeCode(b, l), s);
      t.x == s.x && t.sp == s.sp && t.mem == s.mem[Addr(l, s) := Op8(b, s.mem[Addr(l, s)], Whole(b))]
  {
    hide Op8, Exec;
    Shortcuts(b, s.mem[Addr(l, s)]);
    match b {
      case BitAnd => Exec1(UnM(Clr, l), s);
      case BitOr => Exec2(Alu(Ld, B, Imm(255)), St(B, l), s);
      case BitXor => Exec1(UnM(Com, l), s);
    }
  }

  lemma ChainKeep(b: BitOp, dest: Place, v: int, n: nat, j: nat, code: seq<Instr>)
    requires Fits(dest, n) && j < n && (v / Pow256(j)) % 256 == Keep(b)
    requires Chained(Digits(b), InPlace(dest), Const(v), dest, n, j, false, code)
    ensures Chained(Digits(b), InPlace(dest), Const(v), dest, n, j + 1, false, code)
  {
    hide Exec, Low, Untouched, Cell, Clear, Pow256, Summed, Op8;
    forall s | Clear(InPlace(dest), dest, n, s)
      ensures Untouched(dest, n, j + 1, s, Exec(code, s)) && Summed(Digits(b), InPlace(dest), Const(v), dest, n, j + 1, false, s, Exec(code, s))
    {
      Shortcuts(b, ArgDigit(InPlace(dest), n, j, s));
      ClearConst(v, dest, n, s);
      Kept(Digits(b), Const(v), dest, n, j, s, Exec(code, s));
    }
  }

  lemma ChainWhole(b: BitOp, dest: Place, v: int, n: nat, j: nat, code: seq<Instr>)
    requires Fits(dest, n) && j < n && (v / Pow256(j)) % 256 == Whole(b)
    requires Chained(Digits(b), InPlace(dest), Const(v), dest, n, j, false, code)
    ensures Chained(Digits(b), InPlace(dest), Const(v), dest, n, j + 1, false, code + WholeCode(b, At(dest, n - 1 - j)))
  {
    hide Exec, Low, Untouched, ArgLow, Cell, Clear, Pow256, Summed, Op8, WholeCode;
    var more := WholeCode(b, At(dest, n - 1 - j));
    forall s | Clear(InPlace(dest), dest, n, s)
      ensures Untouched(dest, n, j + 1, s, Exec(code + more, s)) && Summed(Digits(b), InPlace(dest), Const(v), dest, n, j + 1, false, s, Exec(code + more, s))
    {
      var t := Exec(code, s);
      ExecAppend(code, more, s);
      ClearConst(v, dest, n, s);
      WholeOne(b, dest, v, n, j, s, t);
    }
    WholeStep(b, At(dest, n - 1 - j), State(0, 0, 0, 0, Flags(false, false, false, false), seq(65536, i => 0)));
  }

  lemma WholeOne(b: BitOp, dest: Place, v: int, n: nat, j: nat, s: State, t: State)
    requires Fits(dest, n) && j < n && (v / Pow256(j)) % 256 == Whole(b) && Clear(InPlace(dest), dest, n, s)
    requires Untouched(dest, n, j, s, t) && Summed(Digits(b), InPlace(dest), Const(v), dest, n, j, false, s, t)
    ensures var u := Exec(WholeCode(b, At(dest, n - 1 - j)), t);
      Untouched(dest, n, j + 1, s, u) && Summed(Digits(b), InPlace(dest), Const(v), dest, n, j + 1, false, s, u)
  {
    hide Exec, Low, ArgLow, Clear, Pow256, Bitwise, Op8, WholeCode;
    var u := Exec(WholeCode(b, At(dest, n - 1 - j)), t);
    WholeStep(b, At(dest, n - 1 - j), t);
    StillThere(InPlace(dest), dest, n, j, s, t);
    var dx := ArgDigit(InPlace(dest), n, j, s);
    var d := Op8(b, dx, Whole(b));
    UntouchedNext(dest, n, j, s, t, u, d);
    LowNext(dest, n, j, t, u, d);
    ArgNext(InPlace(dest), n, j, s);
    ArgNext(Const(v), n, j, s);
    NextBits(b, ArgLow(InPlace(dest), n, j, s), ArgLow(Const(v), n, j, s), dx, Whole(b), j);
  }

  // ----- the whole number -----

  function Total(op: ChainOp, x: int, y: int, n: nat): int {
    match op
    case Plus => (x + y) % Pow256(n)
    case Minus => (x - y) % Pow256(n)
    case Digits(b) => Bitwise(b, x, y, 8 * n)
  }

  /** The chain computes the operation modulo the width, on the operands as they were, and changes nothing else. */
  ghost predicate Computes(op: ChainOp, l: Arg, r: Arg, dest: Place, n: nat, code: seq<Instr>)
    requires ArgFits(l, n) && ArgFits(r, n) && Fits(dest, n)
  {
    StraightCode(code) && forall s :: Clear(l, dest, n, s) && Clear(r, dest, n, s) ==>
      Untouched(dest, n, n, s, Exec(code, s)) && Low(dest, n, n, Exec(code, s)) == Total(op, ArgLow(l, n, n, s), ArgLow(r, n, n, s), n)
  }

  lemma ChainTotal(op: ChainOp, l: Arg, r: Arg, dest: Place, n: nat, emitted: bool, code: seq<Instr>)
    requires ArgFits(l, n) && ArgFits(r, n) && Fits(dest, n) && Chained(op, l, r, dest, n, n, emitted, code)
    ensures Computes(op, l, r, dest, n, code)
  {
    hide Exec, Low, Untouched, ArgLow, Clear, Bitwise, Pow256;
    forall s | Clear(l, dest, n, s) && Clear(r, dest, n, s)
      ensures Untouched(dest, n, n, s, Exec(code, s)) && Low(dest, n, n, Exec(code, s)) == Total(op, ArgLow(l, n, n, s), ArgLow(r, n, n, s), n)
    {
      var t := Exec(code, s);
      LowBound(dest, n, n, t);
      var c: int := Carry(emitted && t.f.c);
      var x: int, y: int, z: int := ArgLow(l, n, n, s), ArgLow(r, n, n, s), Low(dest, n, n, t);
      if op.Plus? {
        assert c * Pow256(n) == Pow256(n) * c;
        DivModUnique(x + y, c, z, Pow256(n));
      } else if op.Minus? {
        assert -c * Pow256(n) == -(Pow256(n) * c);
        DivModUnique(x - y, -c, z, Pow256(n));
      }
    }
  }

  // ----- the code generators -----

  const LONG_PLACE: Place := Direct(LONG)

  /** gen_opeq32_addsub, and gen_direct_long_addsub_imm with `dest` @long: 32 bits, a constant. */
  method AddSubImm(op: ChainOp, dest: Place, val: int) returns (code: seq<Instr>)
    requires !op.Digits? && Fits(dest, 4)
    ensures Computes(op, InPlace(dest), Const(val), dest, 4, code)
  {
    hide Chained, Computes, DigitCode;
    code := [];
    var emitted := false;
    var nth := 3;
    ChainedNone(op, InPlace(dest), Const(val), dest, 4);
    while nth >= 0
      invariant -1 <= nth <= 3
      invariant Chained(op, InPlace(dest), Const(val), dest, 4, 3 - nth, emitted, code)
    {
      var imm := (val / Pow256(3 - nth)) % 256;
      if !emitted && imm == 0 {
        SkipZero(op, dest, val, 4, 3 - nth, code);
      } else {
        ChainNext(op, InPlace(dest), Const(val), dest, 4, 3 - nth, emitted, code);
        code := code + DigitCode(op, InPlace(dest), Const(val), dest, 4, 3 - nth, !emitted);
        emitted := true;
      }
      nth := nth - 1;
    }
    ChainTotal(op, InPlace(dest), Const(val), dest, 4, emitted, code);
  }

  /** gen_opeq32_bitop, and gen_direct_long_bitop_imm with `dest` @long. */
  method BitopImm(b: BitOp, dest: Place, val: int) returns (code: seq<Instr>)
    requires Fits(dest, 4)
    ensures Computes(Digits(b), InPlace(dest), Const(val), dest, 4, code)
  {
    hide Chained, Computes, DigitCode, WholeCode;
    code := [];
    var nth := 3;
    ChainedNone(Digits(b), InPlace(dest), Const(val), dest, 4);
    while nth >= 0
      invariant -1 <= nth <= 3
      invariant Chained(Digits(b), InPlace(dest), Const(val), dest, 4, 3 - nth, false, code)
    {
      var imm := (val / Pow256(3 - nth)) % 256;
      if imm == Keep(b) {
        ChainKeep(b, dest, val, 4, 3 - nth, code);
      } else if imm == Whole(b) {
        ChainWhole(b, dest, val, 4, 3 - nth, code);
        code := code + WholeCode(b, At(dest, nth));
      } else {
        ChainNext(Digits(b), InPlace(dest), Const(val), dest, 4, 3 - nth, false, code);
        code := code + DigitCode(Digits(b), InPlace(dest), Const(val), dest, 4, 3 - nth, true);
        NoCarry(b, InPlace(dest), Const(val), dest, 4, 4 - nth, code);
      }
      nth := nth - 1;
    }
    ChainTotal(Digits(b), InPlace(dest), Const(val), dest, 4, false, code);
  }

  /** Bit operations have no carry to lose. */
  lemma NoCarry(b: BitOp, l: Arg, r: Arg, dest: Place, n: nat, j: nat, code: seq<Instr>)
    requires ArgFits(l, n) && ArgFits(r, n) && Fits(dest, n) && j <= n
    requires Chained(Digits(b), l, r, dest, n, j, true, code)
    ensures Chained(Digits(b), l, r, dest, n, j, false, code)
  {
    hide Exec, Low, Untouched, ArgLow, Clear, Bitwise, Pow256;
    forall s | Clear(l, dest, n, s) && Clear(r, dest, n, s)
      ensures Untouched(dest, n, j, s, Exec(code, s)) && Summed(Digits(b), l, r, dest, n, j, false, s, Exec(code, s))
    {
      assert Summed(Digits(b), l, r, dest, n, j, true, s, Exec(code, s));
    }
  }

  /** gen_direct_long2; gen_direct_long is the case `l` in @long, gen_direct_long_rsub the difference with `r` in @long. */
  method Direct2(op: ChainOp, l: Arg, r: Arg) returns (code: seq<Instr>)
    requires ArgFits(l, 4) && ArgFits(r, 4)
    ensures Computes(op, l, r, LONG_PLACE, 4, code)
  {
    hide Chained, Computes, DigitCode;
    code := [];
    var i := 3;
    ChainedNone(op, l, r, LONG_PLACE, 4);
    while i >= 0
      invariant -1 <= i <= 3
      invariant Chained(op, l, r, LONG_PLACE, 4, 3 - i, i < 3, code)
    {
      ChainNext(op, l, r, LONG_PLACE, 4, 3 - i, i < 3, code);
      code := code + DigitCode(op, l, r, LONG_PLACE, 4, 3 - i, i == 3);
      i := i - 1;
    }
    ChainTotal(op, l, r, LONG_PLACE, 4, true, code);
  }

  /** Operands that do not overlap @long, or are @long itself, are read before they are overwritten. */
  lemma ClearOfLong(p: Place, s: State)
    requires Fits(p, 4)
    requires p == LONG_PLACE || forall i :: 0 <= i < 4 ==> !(LONG <= Cell(p, 4, i, s) < LONG + 4)
    ensures Clear(InPlace(p), LONG_PLACE, 4, s)
  {
    if p == LONG_PLACE {
      ClearOfItself(p, 4, s);
    }
  }
}
