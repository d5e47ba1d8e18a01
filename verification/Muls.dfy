/**
 Products with constants (gen_mul.c) and quotients by small powers of two (codegen.c): the sequences that
 are printed in place of a call to the run-time library.
 */
module Muls {
  import opened Arith
  import opened Bits
  import opened Machine
  import opened Shifts
  import opened GenShifts

  // ----- sums of a word with itself -----

  /** What the 16-bit sequences are made of; `W` is the multiplicand, found in memory. */
  datatype Move = Twice | PlusW | MinusW | PlusByte | MinusByte | Negate

  /** The two bytes of the multiplicand. */
  datatype Operand16 = Operand16(hi: Loc, lo: Loc)

  function MoveCode(m: Move, w: Operand16): seq<Instr> {
    match m
    case Twice => ASLD
    case PlusW => [Alu(Add, B, M(w.lo)), Alu(Adc, A, M(w.hi))]
    case MinusW => [Alu(Sub, B, M(w.lo)), Alu(Sbc, A, M(w.hi))]
    case PlusByte => [Alu(Add, B, M(w.lo)), Alu(Adc, A, Imm(0))]
    case MinusByte => [Alu(Sub, B, M(w.lo)), Alu(Sbc, A, Imm(0))]
    case Negate => [Un(Neg, A), Un(Neg, B), Alu(Sbc, A, Imm(0))]
  }

  function Code(ms: seq<Move>, w: Operand16): seq<Instr> {
    if ms == [] then [] else MoveCode(ms[0], w) + Code(ms[1..], w)
  }

  /** The factor the moves end with when they begin with `m`. */
  function Factor(ms: seq<Move>, m: int): int {
    if ms == [] then m
    else Factor(ms[1..], match ms[0]
      case Twice => 2 * m
      case PlusW => m + 1
      case PlusByte => m + 1
      case MinusW => m - 1
      case MinusByte => m - 1
      case Negate => -m)
  }

  /** Where a move looks for the multiplicand; the byte forms stand in where its high byte is 0. */
  predicate Found(m: Move, w: Operand16, v: Word, s: State) {
    match m
    case PlusByte => s.mem[Addr(w.lo, s)] == v
    case MinusByte => s.mem[Addr(w.lo, s)] == v
    case PlusW => Holds16(w, v, s)
    case MinusW => Holds16(w, v, s)
    case _ => true
  }

  predicate Holds16(w: Operand16, v: Word, s: State) {
    s.mem[Addr(w.lo, s)] == v % 256 && s.mem[Addr(w.hi, s)] == v / 256
  }

  predicate OnlyAB(s: State, t: State) { t == s.(a := t.a, b := t.b, f := t.f) }

  lemma AddPair(hi: Opnd, lo: Opnd, v: Word, s: State)
    requires Rd(lo, s) == v % 256 && Rd(hi, s) == v / 256
    ensures var t := Exec([Alu(Add, B, lo), Alu(Adc, A, hi)], s); OnlyAB(s, t) && D(t) == (D(s) + v) % 65536
  {
    hide Exec, Step, Rd, Sgn8;
    Exec2(Alu(Add, B, lo), Alu(Adc, A, hi), s);
    var u := Step(Alu(Add, B, lo), s);
    StepAlu(Add, B, lo, s);
    RdSame(hi, s, u);
    StepAlu(Adc, A, hi, u);
    AddedWord(s.a, s.b, v);
  }

  lemma AddedWord(a: Byte, b: Byte, v: Word)
    ensures Cat(Wrap8(a + v / 256 + Carry(b + v % 256 >= 256)), Wrap8(b + v % 256)) == (Cat(a, b) + v) % 65536
  {
    HalfWord(v);
    var x := Cat(a, b) + v;
    DivModUnique(x, if x >= 65536 then 1 else 0, if x >= 65536 then x - 65536 else x, 65536);
  }

  lemma SubPair(hi: Opnd, lo: Opnd, v: Word, s: State)
    requires Rd(lo, s) == v % 256 && Rd(hi, s) == v / 256
    ensures var t := Exec([Alu(Sub, B, lo), Alu(Sbc, A, hi)], s); OnlyAB(s, t) && D(t) == (D(s) - v) % 65536
  {
    hide Exec, Step, Rd, Sgn8;
    Exec2(Alu(Sub, B, lo), Alu(Sbc, A, hi), s);
    var u := Step(Alu(Sub, B, lo), s);
    StepAlu(Sub, B, lo, s);
    RdSame(hi, s, u);
    StepAlu(Sbc, A, hi, u);
    SubbedWord(s.a, s.b, v);
  }

  lemma SubbedWord(a: Byte, b: Byte, v: Word)
    ensures Cat(Wrap8(a - v / 256 - Carry(b - v % 256 < 0)), Wrap8(b - v % 256)) == (Cat(a, b) - v) % 65536
  {
    HalfWord(v);
    var x := Cat(a, b) - v;
    DivModUnique(x, if x < 0 then -1 else 0, if x < 0 then x + 65536 else x, 65536);
  }

  /** negd */
  lemma Negated(s: State)
    ensures var t := Exec([Un(Neg, A), Un(Neg, B), Alu(Sbc, A, Imm(0))], s); OnlyAB(s, t) && D(t) == (65536 - D(s)) % 65536
  {
    hide Exec, RegExec, Step, RegStep;
    var code := [Un(Neg, A), Un(Neg, B), Alu(Sbc, A, Imm(0))];
    RegExecRight(code, s);
    Reg3(code[0], code[1], code[2], Registers(s));
    NegatedRegs(Registers(s));
  }

  lemma NegatedRegs(s: Regs)
    ensures RD(RegStep(Alu(Sbc, A, Imm(0)), RegStep(Un(Neg, B), RegStep(Un(Neg, A), s)))) == (65536 - RD(s)) % 65536
  {
    hide Sgn8;
    var x := 65536 - RD(s);
    DivModUnique(x, if x == 65536 then 1 else 0, if x == 65536 then 0 else x, 65536);
  }

  lemma Doubled16(s: State)
    ensures var t := Exec(ASLD, s); OnlyAB(s, t) && D(t) == (2 * D(s)) % 65536
  {
    hide Exec, RegExec;
    RegExecRight(ASLD, s);
    AsldRight(Registers(s));
  }

  lemma ModScale(x: int)
    ensures (2 * (x % 65536)) % 65536 == (2 * x) % 65536 && (65536 - x % 65536) % 65536 == (-x) % 65536
  {
    var q := x / 65536;
    assert x == 65536 * q + x % 65536;
    ModShift(2 * (x % 65536), 2 * q, 65536);
    assert -x == 65536 - x % 65536 + 65536 * (-q - 1);
    ModShift(65536 - x % 65536, -q - 1, 65536);
  }

  predicate Reads(ms: seq<Move>) { PlusW in ms || MinusW in ms || PlusByte in ms || MinusByte in ms }

  predicate Wide(ms: seq<Move>) { PlusByte !in ms && MinusByte !in ms }
  predicate Narrow(ms: seq<Move>) { PlusW !in ms && MinusW !in ms }

  /** A factor of `v` modulo the width. */
  function Part(f: int, v: Word): Word { (f * v) % 65536 }

  lemma NextPart(f: int, v: Word, d: Word)
    requires d == Part(f, v)
    ensures (2 * d) % 65536 == Part(2 * f, v) && (65536 - d) % 65536 == Part(-f, v)
    ensures (d + v) % 65536 == Part(f + 1, v) && (d - v) % 65536 == Part(f - 1, v)
  {
    var p := f * v;
    ModScale(p);
    ModPlus(p, v, 65536);
    ModSub(p, v, 65536);
    assert 2 * f * v == 2 * p && (-f) * v == -p && (f + 1) * v == p + v && (f - 1) * v == p - v;
  }

  lemma OwnMove(m: Move, w: Operand16, f: int, v: Word, s: State)
    requires (m == Twice || m == Negate) && D(s) == Part(f, v)
    ensures var t := Exec(MoveCode(m, w), s); OnlyAB(s, t) && D(t) == Part(Factor([m], f), v)
  {
    hide Exec, Step, Part, D;
    NextPart(f, v, D(s));
    if m == Twice {
      Doubled16(s);
    } else {
      Negated(s);
    }
  }

  lemma PlusMove(m: Move, w: Operand16, f: int, v: Word, s: State)
    requires (m == PlusW || m == PlusByte) && D(s) == Part(f, v) && Found(m, w, v, s)
    ensures var t := Exec(MoveCode(m, w), s); OnlyAB(s, t) && D(t) == Part(Factor([m], f), v)
  {
    hide Exec, Step, Part, D;
    NextPart(f, v, D(s));
    AddPair(if m == PlusW then M(w.hi) else Imm(0), M(w.lo), v, s);
  }

  lemma MinusMove(m: Move, w: Operand16, f: int, v: Word, s: State)
    requires (m == MinusW || m == MinusByte) && D(s) == Part(f, v) && Found(m, w, v, s)
    ensures var t := Exec(MoveCode(m, w), s); OnlyAB(s, t) && D(t) == Part(Factor([m], f), v)
  {
    hide Exec, Step, Part, D;
    NextPart(f, v, D(s));
    SubPair(if m == MinusW then M(w.hi) else Imm(0), M(w.lo), v, s);
  }

  lemma MoveStraight(m: Move, w: Operand16)
    ensures StraightCode(MoveCode(m, w))
  {
  }

  /** A list of moves multiplies by its factor; the multiplicand need only be there if it is read again. */
  lemma {:induction false} MovesRight(ms: seq<Move>, w: Operand16, f: int, v: Word, s: State)
    requires forall m :: m in ms ==> Found(m, w, v, s)
    requires D(s) == Part(f, v)
    ensures StraightCode(Code(ms, w))
    ensures var t := Exec(Code(ms, w), s); OnlyAB(s, t) && D(t) == Part(Factor(ms, f), v)
    decreases |ms|
  {
    hide Step, MoveCode, Part;
    if ms != [] {
      assert ms[0] in ms;
      assert forall m :: m in ms[1..] ==> m in ms;
      MoveStraight(ms[0], w);
      if ms[0] == Twice || ms[0] == Negate {
        OwnMove(ms[0], w, f, v, s);
      } else if ms[0] == PlusW || ms[0] == PlusByte {
        PlusMove(ms[0], w, f, v, s);
      } else {
        MinusMove(ms[0], w, f, v, s);
      }
      var u := Exec(MoveCode(ms[0], w), s);
      MovesRight(ms[1..], w, Factor([ms[0]], f), v, u);
      ExecAppend(MoveCode(ms[0], w), Code(ms[1..], w), s);
    }
  }

  // ----- gen_mul16 -----

  datatype Plan = Moves(ms: seq<Move>) | Library

  /** The constants that are not left to the library, and their moves. */
  function Moves16(val: int): (p: Plan)
    ensures p.Moves? ==> Factor(p.ms, 1) == val && Wide(p.ms)
  {
    match val
    case -4 => Moves([Twice, Twice, Negate])
    case -2 => Moves([Twice, Negate])
    case -1 => Moves([Negate])
    case 1 => Moves([])
    case 2 => Moves([Twice])
    case 3 => Moves([Twice, PlusW])
    case 4 => Moves([Twice, Twice])
    case 5 => Moves([Twice, Twice, PlusW])
    case 6 => Moves([Twice, PlusW, Twice])
    case 7 => Moves([Twice, Twice, Twice, MinusW])
    case 8 => Moves([Twice, Twice, Twice])
    case 10 => Moves([Twice, Twice, PlusW, Twice])
    case 16 => Moves([Twice, Twice, Twice, Twice])
    case 32 => Moves([Twice, Twice, Twice, Twice, Twice])
    case 64 => Moves([Twice, Twice, Twice, Twice, Twice, Twice])
    case _ => Library
  }

  /** Where gen_mul16 finds the multiplicand: in memory, or computed into D. */
  datatype Source = InMemory(w: Operand16) | InD

  const TMP: Operand16 := Operand16(Ext(TMP1), Ext(TMP1 + 1))

  /** `val` times the multiplicand is left in D; X, SP and memory are kept but for the temporary. */
  predicate Multiplied(src: Source, val: int, s: State, t: State) {
    && t.x == s.x && t.sp == s.sp
    && (forall a :: 0 <= a < 65536 && a != TMP1 && a != TMP1 + 1 ==> t.mem[a] == s.mem[a])
    && match src
       case InMemory(w) => forall v: Word :: Holds16(w, v, s) ==> D(t) == (val * v) % 65536
       case InD => D(t) == (val * D(s)) % 65536
  }

  ghost predicate Multiplies(src: Source, val: int, code: seq<Instr>) {
    StraightCode(code) && forall s :: Multiplied(src, val, s, Exec(code, s))
  }

  const SAVE: seq<Instr> := [St(B, Ext(TMP1 + 1)), St(A, Ext(TMP1))]

  lemma Saved(s: State)
    ensures var t := Exec(SAVE, s);
      && t == s.(f := t.f, mem := t.mem) && Holds16(TMP, D(s), t)
      && forall a :: 0 <= a < 65536 && a != TMP1 && a != TMP1 + 1 ==> t.mem[a] == s.mem[a]
  {
    Exec2(St(B, Ext(TMP1 + 1)), St(A, Ext(TMP1)), s);
  }

  lemma LoadedWord(w: Operand16, v: Word, s: State)
    requires Holds16(w, v, s)
    ensures var t := Exec([Alu(Ld, B, M(w.lo)), Alu(Ld, A, M(w.hi))], s); OnlyAB(s, t) && D(t) == v && Holds16(w, v, t)
  {
    hide Exec, Step;
    Exec2(Alu(Ld, B, M(w.lo)), Alu(Ld, A, M(w.hi)), s);
    StepLoad(B, M(w.lo), s);
    StepLoad(A, M(w.hi), Step(Alu(Ld, B, M(w.lo)), s));
    HalfWord(v);
  }

  lemma MemoryTimes(w: Operand16, val: int, ms: seq<Move>)
    requires Moves16(val) == Moves(ms)
    ensures Multiplies(InMemory(w), val, [Alu(Ld, B, M(w.lo)), Alu(Ld, A, M(w.hi))] + Code(ms, w))
  {
    hide Exec, Step, Code, Moves16;
    var load := [Alu(Ld, B, M(w.lo)), Alu(Ld, A, M(w.hi))];
    forall s
      ensures StraightCode(load + Code(ms, w)) && Multiplied(InMemory(w), val, s, Exec(load + Code(ms, w), s))
    {
      var v := Word16(w, s);
      LoadedWord(w, v, s);
      var u := Exec(load, s);
      SmallMod(v);
      MovesRight(ms, w, 1, v, u);
      ExecAppend(load, Code(ms, w), s);
      OneWord(w, v, s);
    }
    var s0 := State(0, 0, 0, 0, OnlyC(false), seq(65536, i => 0));
    assert Multiplied(InMemory(w), val, s0, Exec(load + Code(ms, w), s0));
  }

  function Word16(w: Operand16, s: State): (v: Word)
    ensures Holds16(w, v, s)
  {
    var v := Cat(s.mem[Addr(w.hi, s)], s.mem[Addr(w.lo, s)]);
    DivModUnique(v, s.mem[Addr(w.hi, s)], s.mem[Addr(w.lo, s)], 256);
    v
  }

  lemma OneWord(w: Operand16, v: Word, s: State)
    requires Holds16(w, v, s)
    ensures forall v': Word :: Holds16(w, v', s) ==> v' == v
  {
    forall v': Word | Holds16(w, v', s)
      ensures v' == v
    {
      HalfWord(v);
      HalfWord(v');
    }
  }

  lemma DTimes(val: int, ms: seq<Move>)
    requires Moves16(val) == Moves(ms)
    ensures Multiplies(InD, val, (if Reads(ms) then SAVE else []) + Code(ms, TMP))
  {
    hide Exec, Step, Code, Moves16;
    var save := if Reads(ms) then SAVE else [];
    forall s
      ensures StraightCode(save + Code(ms, TMP)) && Multiplied(InD, val, s, Exec(save + Code(ms, TMP), s))
    {
      SmallMod(D(s));
      ExecAppend(save, Code(ms, TMP), s);
      if Reads(ms) {
        Saved(s);
        MovesRight(ms, TMP, 1, D(s), Exec(SAVE, s));
      } else {
        ExecNone(s);
        MovesRight(ms, TMP, 1, D(s), s);
      }
    }
    var s0 := State(0, 0, 0, 0, OnlyC(false), seq(65536, i => 0));
    assert Multiplied(InD, val, s0, Exec(save + Code(ms, TMP), s0));
  }

  const ZERO: seq<Instr> := [Un(Clr, B), Un(Clr, A)]

  lemma ZeroTimes(src: Source, load: seq<Instr>)
    requires src.InMemory? ==> load == [Alu(Ld, B, M(src.w.lo)), Alu(Ld, A, M(src.w.hi))]
    requires src.InD? ==> load == []
    ensures Multiplies(src, 0, load + ZERO)
  {
    hide Exec, Step, RegExec, RegStep;
    forall s
      ensures StraightCode(load + ZERO) && Multiplied(src, 0, s, Exec(load + ZERO, s))
    {
      ExecAppend(load, ZERO, s);
      if src.InMemory? {
        LoadedWord(src.w, Word16(src.w, s), s);
      } else {
        ExecNone(s);
      }
      RegExecRight(ZERO, Exec(load, s));
      Zeroed(Registers(Exec(load, s)));
      assert forall v: Word :: (0 * v) % 65536 == 0;
    }
    var s0 := State(0, 0, 0, 0, OnlyC(false), seq(65536, i => 0));
    assert Multiplied(src, 0, s0, Exec(load + ZERO, s0));
  }

  lemma Zeroed(s: Regs)
    ensures RegExec(ZERO, s) == Regs(0, 0, false)
  {
    Reg2(Un(Clr, B), Un(Clr, A), s);
  }

  /** The inline part of gen_mul16; under -Os four of the products of a value in D go to the library. */
  method GenMul16(src: Source, val: int, os: bool) returns (inlined: bool, code: seq<Instr>)
    ensures inlined ==> Multiplies(src, val, code)
    ensures inlined <==> (val == 0 || Moves16(val).Moves?) && !(os && src.InD? && val in {5, 6, 7, 10})
  {
    hide Multiplies;
    code := match src
      case InMemory(w) => [Alu(Ld, B, M(w.lo)), Alu(Ld, A, M(w.hi))]
      case InD => [];
    if val == 0 {
      ZeroTimes(src, code);
      return true, code + ZERO;
    }
    var p := Moves16(val);
    if p.Library? || (os && src.InD? && val in {5, 6, 7, 10}) { return false, code; }
    match src {
      case InMemory(w) =>
        MemoryTimes(w, val, p.ms);
        code := code + Code(p.ms, w);
      case InD =>
        DTimes(val, p.ms);
        code := (if Reads(p.ms) then SAVE else []) + Code(p.ms, TMP);
    }
    inlined := true;
  }

  // ----- gen_mul8u -----

  /** What is left in D, or in B where a byte is wanted; the temporary's low byte may be used. */
  predicate Multiplied8(byteResult: bool, val: int, s: State, t: State) {
    && t.x == s.x && t.sp == s.sp && t.mem == s.mem[TMP1 + 1 := t.mem[TMP1 + 1]]
    && if byteResult then t.b == (val * s.b) % 256 else D(t) == (val * s.b) % 65536
  }

  ghost predicate Multiplies8(byteResult: bool, val: int, code: seq<Instr>) {
    StraightCode(code) && forall s :: Multiplied8(byteResult, val, s, Exec(code, s))
  }

  /** asla doubles, aba adds the multiplicand. */
  function ByteCode(ms: seq<bool>): seq<Instr> {
    if ms == [] then [] else [ByteInstr(ms[0])] + ByteCode(ms[1..])
  }

  function ByteInstr(twice: bool): Instr { if twice then Un(Asl, A) else Inh(Aba) }

  function ByteFactor(ms: seq<bool>, f: int): int {
    if ms == [] then f else ByteFactor(ms[1..], if ms[0] then 2 * f else f + 1)
  }

  lemma NextByte(f: int, v: Byte, a: Byte)
    requires a == (f * v) % 256
    ensures (if a >= 128 then 2 * a - 256 else 2 * a) == (2 * f * v) % 256 && Wrap8(a + v) == ((f + 1) * v) % 256
  {
    var p := f * v;
    var q := p / 256;
    assert p == 256 * q + a;
    assert 2 * f * v == 2 * p && (f + 1) * v == p + v;
    DivModUnique(2 * p, if a >= 128 then 2 * q + 1 else 2 * q, if a >= 128 then 2 * a - 256 else 2 * a, 256);
    DivModUnique(p + v, if a + v >= 256 then q + 1 else q, Wrap8(a + v), 256);
  }

  lemma {:induction false} BytePlain(ms: seq<bool>)
    ensures PlainCode(ByteCode(ms))
  {
    if ms != [] {
      BytePlain(ms[1..]);
    }
  }

  function BytePart(f: int, v: Byte): Byte { (f * v) % 256 }

  lemma {:induction false} ByteMoves(ms: seq<bool>, f: int, s: Regs)
    requires s.a == BytePart(f, s.b)
    ensures PlainCode(ByteCode(ms))
    ensures var t := RegExec(ByteCode(ms), s); t.b == s.b && t.a == BytePart(ByteFactor(ms, f), s.b)
    decreases |ms|
  {
    hide RegExec, RegStep, BytePart;
    BytePlain(ms);
    if ms == [] {
      Nothing(s);
    } else {
      BytePlain(ms[1..]);
      var one := [ByteInstr(ms[0])];
      assert Plain(one[0]);
      Reg1(one[0], s);
      OneByteMove(ms[0], f, s);
      ByteMoves(ms[1..], if ms[0] then 2 * f else f + 1, RegExec(one, s));
      RegAppend(one, ByteCode(ms[1..]), s);
    }
  }

  lemma OneByteMove(twice: bool, f: int, s: Regs)
    requires s.a == BytePart(f, s.b)
    ensures var t := RegStep(ByteInstr(twice), s); t.b == s.b && t.a == BytePart(if twice then 2 * f else f + 1, s.b)
  {
    NextByte(f, s.b, s.a);
  }

  datatype BytePlan = Bytes(bs: seq<bool>) | Other

  function Moves8(val: int): (p: BytePlan)
    ensures p.Bytes? ==> ByteFactor(p.bs, 1) == val
  {
    match val
    case 3 => Bytes([false, false])
    case 5 => Bytes([true, true, false])
    case 6 => Bytes([true, false, true])
    case 7 => Bytes([true, false, true, false])
    case 9 =>
      assert ByteFactor([true, false], 4) == 9;
      assert ByteFactor([true, true, false], 2) == 9 by { assert [true, true, false][1..] == [true, false]; }
      assert [true, true, true, false][1..] == [true, true, false];
      Bytes([true, true, true, false])
    case 10 =>
      assert ByteFactor([false, true], 4) == 10;
      assert ByteFactor([true, false, true], 2) == 10 by { assert [true, false, true][1..] == [false, true]; }
      assert [true, true, false, true][1..] == [true, false, true];
      Bytes([true, true, false, true])
    case 12 =>
      assert ByteFactor([true, true], 3) == 12;
      assert ByteFactor([false, true, true], 2) == 12 by { assert [false, true, true][1..] == [true, true]; }
      assert [true, false, true, true][1..] == [false, true, true];
      Bytes([true, false, true, true])
    case _ => Other
  }

  ghost predicate PlainTimes(val: int, code: seq<Instr>) {
    PlainCode(code) && forall s: Regs :: ByteProduct(val, s, RegExec(code, s))
  }

  predicate ByteProduct(val: int, s: Regs, t: Regs) { t.b == (val * s.b) % 256 }

  lemma PlainMultiplies(val: int, code: seq<Instr>)
    requires PlainTimes(val, code)
    ensures Multiplies8(true, val, code)
  {
    hide RegExec, RegStep, Exec;
    forall s
      ensures StraightCode(code) && Multiplied8(true, val, s, Exec(code, s))
    {
      RegExecRight(code, s);
      assert ByteProduct(val, Registers(s), RegExec(code, Registers(s)));
      assert s.mem == s.mem[TMP1 + 1 := s.mem[TMP1 + 1]];
    }
    var s0 := State(0, 0, 0, 0, OnlyC(false), seq(65536, i => 0));
    assert Multiplied8(true, val, s0, Exec(code, s0));
  }

  lemma ByteTimes(val: int, ms: seq<bool>)
    requires Moves8(val) == Bytes(ms)
    ensures PlainTimes(val, [Inh(Tba)] + ByteCode(ms) + [Inh(Tab)])
  {
    hide RegExec, RegStep, Moves8;
    var c1, c2, c3 := [Inh(Tba)], ByteCode(ms), [Inh(Tab)];
    BytePlain(ms);
    forall s
      ensures PlainCode(c1 + c2 + c3) && ByteProduct(val, s, RegExec(c1 + c2 + c3, s))
    {
      Reg1(Inh(Tba), s);
      Tbaed(s);
      DivModUnique(s.b, 0, s.b, 256);
      ByteMoves(ms, 1, RegExec(c1, s));
      RegAppend(c1, c2, s);
      RegAppend(c1 + c2, c3, s);
      Reg1(Inh(Tab), RegExec(c1 + c2, s));
      Tbaed(RegExec(c1 + c2, s));
    }
  }

  /** The powers of two up to 32; 64 and 128 are done by rotation. */
  lemma PowerTimes(n: nat, val: int)
    requires val == Pow2(n)
    ensures PlainTimes(val, Times(n, [Un(Asl, B)]))
  {
    hide RegExec, RegStep, Pow2, Times;
    TimesPlain(n, [Un(Asl, B)]);
    forall s
      ensures ByteProduct(val, s, RegExec(Times(n, [Un(Asl, B)]), s))
    {
      Doubled(B, n, s);
    }
  }

  lemma RotateTimes()
    ensures PlainTimes(64, [RORB, RORB, RORB, AND192])
    ensures PlainTimes(128, [RORB, RORB, AND128])
  {
    hide RegExec, RegStep;
    forall s
      ensures ByteProduct(64, s, RegExec([RORB, RORB, RORB, AND192], s))
      ensures ByteProduct(128, s, RegExec([RORB, RORB, AND128], s))
    {
      ShlB6Right(s);
      ShlB7Right(s);
    }
  }

  lemma NoneOrOne()
    ensures PlainTimes(0, [Un(Clr, B)]) && PlainTimes(1, [])
  {
    hide RegStep;
    forall s
      ensures ByteProduct(0, s, RegExec([Un(Clr, B)], s)) && ByteProduct(1, s, RegExec([], s))
    {
      Reg1(Un(Clr, B), s);
      Clred(B, s);
      Nothing(s);
      DivModUnique(s.b, 0, s.b, 256);
      DivModUnique(0, 0, 0, 256);
    }
  }

  /** The moves of the 16-bit products of a byte in B, A cleared. */
  function MovesU(val: int): (p: Plan)
    ensures p.Moves? ==> Factor(p.ms, 1) == val && Narrow(p.ms) && Negate !in p.ms
  {
    match val
    case 1 => Moves([])
    case 2 => Moves([Twice])
    case 4 => Moves([Twice, Twice])
    case 8 => Moves([Twice, Twice, Twice])
    case 16 => Moves([Twice, Twice, Twice, Twice])
    case 32 => Moves([Twice, Twice, Twice, Twice, Twice])
    case 64 => Moves([Twice, Twice, Twice, Twice, Twice, Twice])
    case 3 => Moves([Twice, PlusByte])
    case 5 => Moves([Twice, Twice, PlusByte])
    case 7 => Moves([Twice, Twice, Twice, MinusByte])
    case 10 => Moves([Twice, Twice, PlusByte, Twice])
    case _ => Library
  }

  /** clra, and the byte saved where it is read again. */
  function Prefix(ms: seq<Move>): seq<Instr> { [Un(Clr, A)] + if Reads(ms) then [St(B, Ext(TMP1 + 1))] else [] }

  lemma Prefixed(ms: seq<Move>, s: State)
    requires Narrow(ms)
    ensures StraightCode(Prefix(ms))
    ensures var t := Exec(Prefix(ms), s);
      && D(t) == s.b && t.x == s.x && t.sp == s.sp && t.mem == s.mem[TMP1 + 1 := t.mem[TMP1 + 1]]
      && forall m :: m in ms ==> Found(m, TMP, s.b, t)
  {
    if Reads(ms) {
      Exec2(Un(Clr, A), St(B, Ext(TMP1 + 1)), s);
      assert Prefix(ms) == [Un(Clr, A), St(B, Ext(TMP1 + 1))];
    } else {
      Exec1(Un(Clr, A), s);
      assert Prefix(ms) == [Un(Clr, A)];
    }
    assert s.mem == s.mem[TMP1 + 1 := s.mem[TMP1 + 1]];
  }

  lemma UnsignedTimes(val: int, ms: seq<Move>)
    requires MovesU(val) == Moves(ms)
    ensures Multiplies8(false, val, Prefix(ms) + Code(ms, TMP))
    ensures Multiplies8(true, val, Prefix(ms) + Code(ms, TMP))
  {
    hide Exec, Step, Code, MovesU, Prefix, Found;
    var code := Prefix(ms) + Code(ms, TMP);
    forall s
      ensures StraightCode(code) && Multiplied8(false, val, s, Exec(code, s)) && Multiplied8(true, val, s, Exec(code, s))
    {
      Prefixed(ms, s);
      SmallMod(s.b);
      MovesRight(ms, TMP, 1, s.b, Exec(Prefix(ms), s));
      ExecAppend(Prefix(ms), Code(ms, TMP), s);
      WordSplit(val * s.b);
      LowOf(Exec(code, s));
    }
    var s0 := State(0, 0, 0, 0, OnlyC(false), seq(65536, i => 0));
    assert Multiplied8(false, val, s0, Exec(code, s0));
  }

  lemma LowOf(s: State)
    ensures D(s) % 256 == s.b
  {
    DivModUnique(D(s), s.a, s.b, 256);
  }

  lemma ZeroOf8()
    ensures Multiplies8(false, 0, ZERO)
  {
    hide Exec, RegExec, RegStep;
    forall s
      ensures StraightCode(ZERO) && Multiplied8(false, 0, s, Exec(ZERO, s))
    {
      RegExecRight(ZERO, s);
      Zeroed(Registers(s));
      assert s.mem == s.mem[TMP1 + 1 := s.mem[TMP1 + 1]];
    }
    var s0 := State(0, 0, 0, 0, OnlyC(false), seq(65536, i => 0));
    assert Multiplied8(false, 0, s0, Exec(ZERO, s0));
  }

  const TIMES128: seq<Instr> := [Inh(Tba), Un(Clr, B), Un(Lsr, A), RORB]

  lemma Times128()
    ensures Multiplies8(false, 128, TIMES128)
  {
    hide Exec, RegExec, RegStep;
    forall s
      ensures StraightCode(TIMES128) && Multiplied8(false, 128, s, Exec(TIMES128, s))
    {
      RegExecRight(TIMES128, s);
      Times128Regs(Registers(s));
      SmallMod(128 * s.b);
      assert s.mem == s.mem[TMP1 + 1 := s.mem[TMP1 + 1]];
    }
    var s0 := State(0, 0, 0, 0, OnlyC(false), seq(65536, i => 0));
    assert Multiplied8(false, 128, s0, Exec(TIMES128, s0));
  }

  lemma Times128Regs(s: Regs)
    ensures RD(RegExec(TIMES128, s)) == 128 * s.b
  {
    hide RegExec, RegStep;
    Reg4(Inh(Tba), Un(Clr, B), Un(Lsr, A), RORB, s);
    Tbaed(s);
    var s1 := RegStep(Inh(Tba), s);
    Clred(B, s1);
    var s2 := RegStep(Un(Clr, B), s1);
    Lsred(A, s2, s.b / 2, s.b % 2);
    Rored(B, RegStep(Un(Lsr, A), s2), 0, 0);
  }

  /** The inline part of gen_mul8u: the operand is in B and counts as unsigned unless only a byte is wanted. */
  method GenMul8u(byteResult: bool, val: int, os: bool) returns (inlined: bool, code: seq<Instr>)
    ensures inlined ==> Multiplies8(byteResult, val, code)
    ensures inlined <==>
      if byteResult then val in {0, 1, 2, 3, 4, 5, 6, 7, 8, 9, 10, 12, 16, 32, 64, 128}
      else val in {0, 1, 2, 3, 4, 8, 16, 32, 64, 128} || (!os && val in {5, 7, 10})
  {
    hide Multiplies8, PlainTimes;
    inlined, code := true, [];
    Powers();
    Pow2Small();
    if byteResult {
      if val == 0 || val == 1 {
        NoneOrOne();
        code := if val == 0 then [Un(Clr, B)] else [];
        PlainMultiplies(val, code);
        return;
      }
      if val in {2, 4, 8, 16, 32} {
        var n := if val == 2 then 1 else if val == 4 then 2 else if val == 8 then 3 else if val == 16 then 4 else 5;
        for i := 0 to n
          invariant code == Times(i, [Un(Asl, B)])
        {
          code := code + [Un(Asl, B)];
        }
        PowerTimes(n, val);
        PlainMultiplies(val, code);
        return;
      }
      if Moves8(val).Bytes? {
        ByteTimes(val, Moves8(val).bs);
        code := [Inh(Tba)] + ByteCode(Moves8(val).bs) + [Inh(Tab)];
        PlainMultiplies(val, code);
        return;
      }
      if val == 64 || val == 128 {
        RotateTimes();
        code := if val == 64 then [RORB, RORB, RORB, AND192] else [RORB, RORB, AND128];
        PlainMultiplies(val, code);
        return;
      }
      return false, [];
    }
    if val == 0 {
      ZeroOf8();
      return true, ZERO;
    }
    if val == 128 {
      Times128();
      return true, TIMES128;
    }
    var p := MovesU(val);
    if p.Library? || (os && val in {5, 7, 10}) { return false, []; }
    UnsignedTimes(val, p.ms);
    code := Prefix(p.ms) + Code(p.ms, TMP);
  }

  lemma Pow2Small()
    ensures Pow2(3) == 8 && Pow2(4) == 16 && Pow2(5) == 32
  {
  }

  // ----- gen_mul8s -----

  const EXTEND: seq<Instr> := [Un(Clr, A), Un(Asr, B), ROLB, Alu(Sbc, A, Imm(0))]

  /** sign_extend: B as a signed word in D. */
  lemma Extended(s: Regs)
    ensures var t := RegExec(EXTEND, s); Sgn16(RD(t)) == Sgn8(s.b) && RD(t) == Sgn8(s.b) % 65536
  {
    hide RegExec, RegStep, Sgn16, Sgn8;
    Reg4(Un(Clr, A), Un(Asr, B), ROLB, Alu(Sbc, A, Imm(0)), s);
    var b: int, half: int, sign: int := s.b, s.b / 2, if s.b >= 128 then 1 else 0;
    Clred(A, s);
    var s1 := RegStep(Un(Clr, A), s);
    Asred(s1);
    var s2 := RegStep(Un(Asr, B), s1);
    Roled(B, s2, sign, half);
    var s3 := RegStep(ROLB, s2);
    Filled(A, s3);
    ExtendedValue(s.b);
  }

  lemma ExtendedValue(b: Byte)
    ensures var d := Cat(if b >= 128 then 255 else 0, b); Sgn16(d) == Sgn8(b) && d == Sgn8(b) % 65536
  {
    DivModUnique(Sgn8(b), if b >= 128 then -1 else 0, if b >= 128 then b + 65280 else b, 65536);
  }

  lemma Asred(s: Regs)
    ensures RegStep(Un(Asr, B), s) == Regs(s.a, s.b / 2 + (if s.b >= 128 then 128 else 0), s.b % 2 == 1) && s.b / 2 < 128
  {
  }

  /** The moves of the 16-bit products of a signed byte, extended to D. */
  function MovesS(val: int): (p: Plan)
    ensures p.Moves? ==> Factor(p.ms, 1) == val && Wide(p.ms)
  {
    match val
    case 1 => Moves([])
    case 2 => Moves([Twice])
    case 4 => Moves([Twice, Twice])
    case 8 => Moves([Twice, Twice, Twice])
    case 16 => Moves([Twice, Twice, Twice, Twice])
    case 32 => Moves([Twice, Twice, Twice, Twice, Twice])
    case 64 => Moves([Twice, Twice, Twice, Twice, Twice, Twice])
    case 3 => Moves([Twice, PlusW])
    case 5 => Moves([Twice, Twice, PlusW])
    case 6 => Moves([Twice, PlusW, Twice])
    case _ => Library
  }

  predicate MultipliedS(val: int, s: State, t: State) {
    && t.x == s.x && t.sp == s.sp
    && (forall a :: 0 <= a < 65536 && a != TMP1 && a != TMP1 + 1 ==> t.mem[a] == s.mem[a])
    && D(t) == (val * Sgn8(s.b)) % 65536
  }

  ghost predicate MultipliesS(val: int, code: seq<Instr>) {
    StraightCode(code) && forall s :: MultipliedS(val, s, Exec(code, s))
  }

  lemma ExtendedD(s: State)
    ensures StraightCode(EXTEND)
    ensures var t := Exec(EXTEND, s); OnlyAB(s, t) && D(t) == Part(1, Sgn8(s.b) % 65536) && D(t) == Sgn8(s.b) % 65536
  {
    hide Exec, RegExec;
    RegExecRight(EXTEND, s);
    Extended(Registers(s));
    SmallMod(Sgn8(s.b) % 65536);
  }

  lemma PartOfSigned(f: int, x: int)
    ensures Part(f, x % 65536) == (f * x) % 65536
  {
    var q, r := x / 65536, x % 65536;
    assert f * x == f * r + 65536 * (f * q) by { assert x == 65536 * q + r; }
    ModShift(f * r, f * q, 65536);
  }

  lemma SignedTimes(val: int, ms: seq<Move>)
    requires MovesS(val) == Moves(ms)
    ensures MultipliesS(val, EXTEND + (if Reads(ms) then SAVE else []) + Code(ms, TMP))
  {
    hide Exec, Step, Code, MovesS, Part, Sgn8;
    var save, moves := if Reads(ms) then SAVE else [], Code(ms, TMP);
    forall s
      ensures StraightCode(EXTEND + save + moves) && MultipliedS(val, s, Exec(EXTEND + save + moves, s))
    {
      var v := Sgn8(s.b) % 65536;
      ExtendedD(s);
      var u := Exec(EXTEND, s);
      ExecAppend(EXTEND + save, moves, s);
      ExecAppend(EXTEND, save, s);
      PartOfSigned(val, Sgn8(s.b));
      if Reads(ms) {
        Saved(u);
        MovesRight(ms, TMP, 1, v, Exec(SAVE, u));
      } else {
        ExecNone(u);
        MovesRight(ms, TMP, 1, v, u);
      }
    }
    var s0 := State(0, 0, 0, 0, OnlyC(false), seq(65536, i => 0));
    assert MultipliedS(val, s0, Exec(EXTEND + save + moves, s0));
  }

  lemma ZeroOfS()
    ensures MultipliesS(0, ZERO)
  {
    hide Exec, RegExec, RegStep;
    forall s
      ensures StraightCode(ZERO) && MultipliedS(0, s, Exec(ZERO, s))
    {
      RegExecRight(ZERO, s);
      Zeroed(Registers(s));
    }
    var s0 := State(0, 0, 0, 0, OnlyC(false), seq(65536, i => 0));
    assert MultipliedS(0, s0, Exec(ZERO, s0));
  }

  /** The inline part of gen_mul8s, the operand a signed byte in B. */
  method GenMul8s(val: int, os: bool) returns (inlined: bool, code: seq<Instr>)
    ensures inlined ==> MultipliesS(val, code)
    ensures inlined <==> val in {0, 1, 2, 4, 8, 16, 32, 64} || (!os && val in {3, 5, 6})
  {
    hide MultipliesS;
    if val == 0 {
      ZeroOfS();
      return true, ZERO;
    }
    var p := MovesS(val);
    if p.Library? || (os && val in {3, 5, 6}) { return false, []; }
    SignedTimes(val, p.ms);
    inlined, code := true, EXTEND + (if Reads(p.ms) then SAVE else []) + Code(p.ms, TMP);
  }

  // ----- quotients -----

  function Truncated(x: int): int { if x >= 0 then x / 2 else -((-x) / 2) }

  const HALVE: seq<Instr> := [Un(Asr, A), ROLA, Alu(Adc, B, Imm(0)), Alu(Adc, A, Imm(0))] + ASRD

  /** asra; rola leaves A as it was and the sign in the carry, which is then added. */
  lemma SignAdded(s: Regs)
    ensures var t := RegExec([Un(Asr, A), ROLA, Alu(Adc, B, Imm(0)), Alu(Adc, A, Imm(0))], s);
      Sgn16(RD(t)) == Sgn16(RD(s)) + (if s.a >= 128 then 1 else 0)
  {
    hide RegExec, RegStep;
    Reg4(Un(Asr, A), ROLA, Alu(Adc, B, Imm(0)), Alu(Adc, A, Imm(0)), s);
    AsrA(s);
    var s1 := RegStep(Un(Asr, A), s);
    Roled(A, s1, if s.a >= 128 then 1 else 0, s.a / 2);
    Incremented(RegStep(ROLA, s1));
  }

  lemma AsrA(s: Regs)
    ensures RegStep(Un(Asr, A), s) == Regs(s.a / 2 + (if s.a >= 128 then 128 else 0), s.b, s.a % 2 == 1) && s.a / 2 < 128
  {
  }

  lemma Incremented(s: Regs)
    requires s.c == (s.a >= 128)
    ensures Sgn16(RD(RegStep(Alu(Adc, A, Imm(0)), RegStep(Alu(Adc, B, Imm(0)), s)))) == Sgn16(RD(s)) + Carry(s.c)
  {
  }

  /** Signed division by 2 rounds toward zero. */
  lemma HalveRight(s: State)
    ensures StraightCode(HALVE)
    ensures var t := Exec(HALVE, s); OnlyAB(s, t) && Sgn16(D(t)) == Truncated(Sgn16(D(s)))
  {
    hide Exec, RegExec, RegStep;
    var c := [Un(Asr, A), ROLA, Alu(Adc, B, Imm(0)), Alu(Adc, A, Imm(0))];
    RegExecRight(HALVE, s);
    RegAppend(c, ASRD, Registers(s));
    SignAdded(Registers(s));
    AsrdRight(RegExec(c, Registers(s)));
  }

  predicate Divided(unsigned: bool, val: int, s: State, t: State)
    requires val > 0
  {
    OnlyAB(s, t) &&
    if unsigned then D(t) == D(s) / val
    else Sgn16(D(t)) == if Sgn16(D(s)) >= 0 then Sgn16(D(s)) / val else -((-Sgn16(D(s))) / val)
  }

  /** The 16-bit quotients that are printed inline. */
  method GenDiv16(unsigned: bool, val: int) returns (inlined: bool, code: seq<Instr>)
    ensures inlined ==> val > 0 && StraightCode(code) && forall s :: Divided(unsigned, val, s, Exec(code, s))
    ensures inlined <==> if unsigned then val in {2, 4, 8, 16} else val == 2
  {
    hide Exec, RegExec, RegStep, Sgn16, Pow2;
    code := [];
    if unsigned {
      if val !in {2, 4, 8, 16} { return false, []; }
      var n := if val == 2 then 1 else if val == 4 then 2 else if val == 8 then 3 else 4;
      Powers();
      Pow2Small();
      for i := 0 to n
        invariant code == Times(i, LSRD)
      {
        code := code + [Un(Lsr, A), Un(Ror, B)];
      }
      TimesPlain(n, LSRD);
      forall s
        ensures StraightCode(code) && Divided(true, val, s, Exec(code, s))
      {
        RegExecRight(code, s);
        HalvedD(n, Registers(s));
      }
      inlined := true;
      var s0 := State(0, 0, 0, 0, OnlyC(false), seq(65536, i => 0));
      assert Divided(true, val, s0, Exec(code, s0));
    } else {
      if val != 2 { return false, []; }
      forall s
        ensures StraightCode(HALVE) && Divided(false, 2, s, Exec(HALVE, s))
      {
        HalveRight(s);
      }
      inlined, code := true, HALVE;
      var s0 := State(0, 0, 0, 0, OnlyC(false), seq(65536, i => 0));
      assert Divided(false, 2, s0, Exec(HALVE, s0));
    }
  }
}
