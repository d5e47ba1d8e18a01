/**
 The part of the MC6800 that the generated code uses: accumulators A and B, the index
 register X, the stack pointer, the flags N, Z, V and C, and 64K bytes of memory, with the
 instructions the compiler prints.  A piece of emitted code only ever jumps forward or out of
 itself, so its meaning is a function: it falls through its end or leaves to a label.
 */
module Machine {
  import opened Arith
  import opened Bits

  type Word = x: int | 0 <= x < 65536
  type Mem = m: seq<Byte> | |m| == 65536 witness seq(65536, i => 0)

  // The zero-page cells of crt0.s, in their order there.
  const BP: Word := 0
  const TMP1: Word := 2
  const TMP2: Word := 4
  const LONG: Word := 10

  datatype Reg = A | B
  datatype Loc = Ext(addr: Word) | Idx(off: Byte)
  datatype Opnd = Imm(k: Byte) | M(loc: Loc)
  datatype Opnd16 = Imm16(w: Word) | M16(loc16: Loc)

  datatype AluOp = Ld | Add | Adc | Sub | Sbc | Cmp
  datatype UnOp = Asl | Lsr | Asr | Rol | Ror | Neg | Com | Clr | Tst | Inc | Dec
  datatype Inherent = Tab | Tba | Aba | Sba | Cba | Ins | Des | Inx | Dex | Tsx | Txs
  datatype Cond = Eq | Ne | Cs | Cc | Mi | Pl | Hi | Ls | Lt | Ge | Gt | Le

  datatype Instr =
    | Alu(op: AluOp, r: Reg, opnd: Opnd)
    | Logic(bits: BitOp, r: Reg, opnd: Opnd)  // AND, ORA, EOR
    | BitTest(r: Reg, opnd: Opnd)                 // BIT
    | St(r: Reg, to: Loc)
    | Un(un: UnOp, r: Reg)
    | UnM(un: UnOp, at: Loc)
    | Inh(inh: Inherent)
    | Psh(r: Reg)
    | Pul(r: Reg)
    | Ldx(from: Opnd16)
    | Cpx(from: Opnd16)
    | Stx(to: Loc)
    | Lds(from: Opnd16)
    | Sts(to: Loc)
    | Operand(id: nat, wide: bool)     // code compiled outside this model for operand `id`
    | Label(lab: nat)
    | Jmp(lab: nat)
    | Br(cond: Cond, lab: nat)      // both the short `b` and the long `j` forms

  datatype Flags = Flags(n: bool, z: bool, v: bool, c: bool)
  datatype State = State(a: Byte, b: Byte, x: Word, sp: Word, f: Flags, mem: Mem)

  // ----- bytes and words -----

  function Wrap8(i: int): Byte
    requires -256 <= i < 512
  {
    if i < 0 then i + 256 else if i >= 256 then i - 256 else i
  }

  function Wrap(i: int): Word
    requires -65536 <= i < 131072
  {
    if i < 0 then i + 65536 else if i >= 65536 then i - 65536 else i
  }

  /** The assembler's `<n` and `>n`: low and high byte of any integer, two's complement. */
  function Low(n: int): Byte { n % 256 }
  function High(n: int): Byte { (n / 256) % 256 }

  function Cat(hi: Byte, lo: Byte): Word { 256 * hi + lo }

  function Sgn8(x: Byte): int { if x >= 128 then x - 256 else x }
  function Sgn16(x: Word): int { if x >= 32768 then x - 65536 else x }

  function D(s: State): Word { 256 * s.a + s.b }

  function Word16At(m: Mem, a: Word): Word { 256 * (m[a] as int) + m[Wrap(a + 1)] }

  function Put16(m: Mem, a: Word, w: Word): Mem { m[a := w / 256][Wrap(a + 1) := w % 256] }

  function Carry(c: bool): int { if c then 1 else 0 }

  /** The bitwise instructions work digit by digit. */
  function Op8(op: BitOp, x: Byte, y: Byte): Byte {
    assert Pow2(8) == 256 by { Pow2Values(); }
    Bitwise(op, x, y, 8)
  }

  // ----- one instruction -----

  function AddFlags(x: Byte, y: Byte, c: bool): Flags {
    var sum := x + y + Carry(c);
    var r := Wrap8(sum);
    Flags(r >= 128, r == 0, !(-128 <= Sgn8(x) + Sgn8(y) + Carry(c) < 128), sum >= 256)
  }

  function SubFlags(x: Byte, y: Byte, c: bool): Flags {
    var dif := x - y - Carry(c);
    var r := Wrap8(dif);
    Flags(r >= 128, r == 0, !(-128 <= Sgn8(x) - Sgn8(y) - Carry(c) < 128), dif < 0)
  }

  lemma SubCarry(x: Byte, y: Byte, c: bool)
    ensures SubFlags(x, y, c).c == (x - y - Carry(c) < 0)
  {
  }

  /** Loads, stores, the logical operations: N and Z from the value, V cleared, C kept. */
  function MoveFlags(r: Byte, f: Flags): Flags { Flags(r >= 128, r == 0, false, f.c) }

  function MoveFlags16(w: Word, f: Flags): Flags { Flags(w >= 32768, w == 0, false, f.c) }

  function AluValue(op: AluOp, x: Byte, y: Byte, f: Flags): Byte {
    match op
    case Ld => y
    case Add => Wrap8(x + y)
    case Adc => Wrap8(x + y + Carry(f.c))
    case Sub => Wrap8(x - y)
    case Sbc => Wrap8(x - y - Carry(f.c))
    case Cmp => x
  }

  function AluFlags(op: AluOp, x: Byte, y: Byte, f: Flags): Flags {
    match op
    case Ld => MoveFlags(y, f)
    case Add => AddFlags(x, y, false)
    case Adc => AddFlags(x, y, f.c)
    case Sub => SubFlags(x, y, false)
    case Sbc => SubFlags(x, y, f.c)
    case Cmp => SubFlags(x, y, false)
  }

  function ShiftFlags(r: Byte, c: bool): Flags {
    Flags(r >= 128, r == 0, (r >= 128) != c, c)
  }

  function Left(x: Byte, c: bool): Byte { (if x >= 128 then 2 * x - 256 else 2 * x) + Carry(c) }
  function Right(x: Byte, top: bool): Byte { x / 2 + (if top then 128 else 0) }

  function UnValue(op: UnOp, x: Byte, f: Flags): Byte {
    match op
    case Asl => Left(x, false)
    case Rol => Left(x, f.c)
    case Lsr => Right(x, false)
    case Asr => Right(x, x >= 128)
    case Ror => Right(x, f.c)
    case Neg => Wrap8(0 - x)
    case Com => 255 - x
    case Clr => 0
    case Tst => x
    case Inc => Wrap8(x + 1)
    case Dec => Wrap8(x - 1)
  }

  function UnFlags(op: UnOp, x: Byte, f: Flags): Flags {
    var r := UnValue(op, x, f);
    match op
    case Asl => ShiftFlags(r, x >= 128)
    case Rol => ShiftFlags(r, x >= 128)
    case Lsr => ShiftFlags(r, x % 2 == 1)
    case Asr => ShiftFlags(r, x % 2 == 1)
    case Ror => ShiftFlags(r, x % 2 == 1)
    case Neg => SubFlags(0, x, false)
    case Com => Flags(r >= 128, r == 0, false, true)
    case Clr => Flags(false, true, false, false)
    case Tst => Flags(r >= 128, r == 0, false, false)
    case Inc => Flags(r >= 128, r == 0, r == 128, f.c)
    case Dec => Flags(r >= 128, r == 0, r == 127, f.c)
  }

  function Get(r: Reg, s: State): Byte { if r.A? then s.a else s.b }
  function Set(r: Reg, v: Byte, s: State): State { if r.A? then s.(a := v) else s.(b := v) }

  function Addr(l: Loc, s: State): Word {
    match l case Ext(addr) => addr case Idx(off) => Wrap(s.x + off)
  }

  function Rd(o: Opnd, s: State): Byte {
    match o case Imm(k) => k case M(loc) => s.mem[Addr(loc, s)]
  }

  function Rd16(o: Opnd16, s: State): Word {
    match o case Imm16(w) => w case M16(loc) => Word16At(s.mem, Addr(loc, s))
  }

  function AluStep(op: AluOp, r: Reg, y: Byte, s: State): State {
    Set(r, AluValue(op, Get(r, s), y, s.f), s).(f := AluFlags(op, Get(r, s), y, s.f))
  }

  function LogicStep(op: BitOp, r: Reg, y: Byte, s: State): State {
    var v := Op8(op, Get(r, s), y);
    Set(r, v, s).(f := MoveFlags(v, s.f))
  }

  function UnStep(op: UnOp, r: Reg, s: State): State {
    Set(r, UnValue(op, Get(r, s), s.f), s).(f := UnFlags(op, Get(r, s), s.f))
  }

  /** CPX sets Z from the whole word, N and V from the high bytes alone, and keeps C. */
  function CpxFlags(x: Word, w: Word, f: Flags): Flags {
    var high := SubFlags(x / 256, w / 256, false);
    Flags(high.n, x == w, high.v, f.c)
  }

  function InhStep(i: Inherent, s: State): State {
    match i
    case Tab => s.(b := s.a, f := MoveFlags(s.a, s.f))
    case Tba => s.(a := s.b, f := MoveFlags(s.b, s.f))
    case Aba => AluStep(Add, A, s.b, s)
    case Sba => AluStep(Sub, A, s.b, s)
    case Cba => AluStep(Cmp, A, s.b, s)
    case Ins => s.(sp := Wrap(s.sp + 1))
    case Des => s.(sp := Wrap(s.sp - 1))
    case Inx => s.(x := Wrap(s.x + 1), f := s.f.(z := Wrap(s.x + 1) == 0))
    case Dex => s.(x := Wrap(s.x - 1), f := s.f.(z := Wrap(s.x - 1) == 0))
    case Tsx => s.(x := Wrap(s.sp + 1))
    case Txs => s.(sp := Wrap(s.x - 1))
  }

  /** Everything but control transfers and the code of operands compiled elsewhere. */
  function Step(i: Instr, s: State): State {
    match i
    case Alu(op, r, o) => AluStep(op, r, Rd(o, s), s)
    case Logic(op, r, o) => LogicStep(op, r, Rd(o, s), s)
    case BitTest(r, o) => s.(f := MoveFlags(Op8(BitAnd, Get(r, s), Rd(o, s)), s.f))
    case St(r, to) => s.(mem := s.mem[Addr(to, s) := Get(r, s)], f := MoveFlags(Get(r, s), s.f))
    case Un(op, r) => UnStep(op, r, s)
    case UnM(op, at) =>
      var y := s.mem[Addr(at, s)];
      s.(mem := s.mem[Addr(at, s) := UnValue(op, y, s.f)], f := UnFlags(op, y, s.f))
    case Inh(i) => InhStep(i, s)
    case Psh(r) => s.(mem := s.mem[s.sp := Get(r, s)], sp := Wrap(s.sp - 1))
    case Pul(r) => Set(r, s.mem[Wrap(s.sp + 1)], s).(sp := Wrap(s.sp + 1))
    case Ldx(from) => s.(x := Rd16(from, s), f := MoveFlags16(Rd16(from, s), s.f))
    case Cpx(from) => s.(f := CpxFlags(s.x, Rd16(from, s), s.f))
    case Stx(to) => s.(mem := Put16(s.mem, Addr(to, s), s.x), f := MoveFlags16(s.x, s.f))
    case Lds(from) => s.(sp := Rd16(from, s), f := MoveFlags16(Rd16(from, s), s.f))
    case Sts(to) => s.(mem := Put16(s.mem, Addr(to, s), s.sp), f := MoveFlags16(s.sp, s.f))
    case _ => s
  }

  // One instruction at a time, for proofs about several.

  lemma StepLoad(r: Reg, o: Opnd, s: State)
    ensures Step(Alu(Ld, r, o), s) == Set(r, Rd(o, s), s).(f := MoveFlags(Rd(o, s), s.f))
  {
  }

  lemma StepPush(r: Reg, s: State)
    ensures Step(Psh(r), s) == s.(mem := s.mem[s.sp := Get(r, s)], sp := Wrap(s.sp - 1))
  {
  }

  lemma StepMove(s: State)
    ensures Step(Inh(Tba), s) == s.(a := s.b, f := MoveFlags(s.b, s.f))
    ensures Step(Inh(Tab), s) == s.(b := s.a, f := MoveFlags(s.a, s.f))
  {
  }

  lemma StepPull(r: Reg, s: State)
    ensures Step(Pul(r), s) == Set(r, s.mem[Wrap(s.sp + 1)], s).(sp := Wrap(s.sp + 1))
  {
  }

  lemma StepLdx(o: Opnd16, s: State)
    ensures Step(Ldx(o), s) == s.(x := Rd16(o, s), f := MoveFlags16(Rd16(o, s), s.f))
  {
  }

  lemma StepCpx(o: Opnd16, s: State)
    ensures Step(Cpx(o), s) == s.(f := CpxFlags(s.x, Rd16(o, s), s.f))
  {
    hide CpxFlags;
  }

  lemma CpxSees(x: Word, w: Word, f: Flags)
    ensures CpxFlags(x, w, f).z == (x == w) && (w == 0 ==> CpxFlags(x, w, f).n == (x >= 32768))
  {
  }

  lemma StepTsx(s: State)
    ensures Step(Inh(Tsx), s) == s.(x := Wrap(s.sp + 1))
  {
  }

  lemma StepTxs(s: State)
    ensures Step(Inh(Txs), s) == s.(sp := Wrap(s.x - 1))
  {
  }

  lemma StepIns(s: State)
    ensures Step(Inh(Ins), s) == s.(sp := Wrap(s.sp + 1))
  {
  }

  lemma StepCompare(s: State)
    ensures Step(Inh(Cba), s) == s.(f := SubFlags(s.a, s.b, false))
  {
    hide SubFlags;
  }

  lemma StepAlu(op: AluOp, r: Reg, o: Opnd, s: State)
    ensures Step(Alu(op, r, o), s) == AluStep(op, r, Rd(o, s), s)
  {
  }

  lemma StepLogic(op: BitOp, r: Reg, o: Opnd, s: State)
    ensures Step(Logic(op, r, o), s) == LogicStep(op, r, Rd(o, s), s)
  {
    hide Op8;
  }

  lemma StepStore(r: Reg, l: Loc, s: State)
    ensures Step(St(r, l), s) == s.(mem := s.mem[Addr(l, s) := Get(r, s)], f := MoveFlags(Get(r, s), s.f))
  {
    hide MoveFlags;
  }

  lemma CatBytes(hi: Byte, lo: Byte)
    ensures Cat(hi, lo) / 256 == hi && Cat(hi, lo) % 256 == lo
  {
    DivModUnique(Cat(hi, lo), hi, lo, 256);
  }

  lemma WordOfBytes(s: State)
    ensures D(s) / 256 == s.a && D(s) % 256 == s.b
  {
    CatBytes(s.a, s.b);
  }

  lemma SameD(s: State, t: State)
    requires t.a == s.a && t.b == s.b
    ensures D(t) == D(s)
  {
  }

  lemma RdSame(o: Opnd, s: State, t: State)
    requires t.x == s.x && t.mem == s.mem
    ensures Rd(o, t) == Rd(o, s)
  {
  }

  function Holds(c: Cond, f: Flags): bool {
    match c
    case Eq => f.z
    case Ne => !f.z
    case Cs => f.c
    case Cc => !f.c
    case Mi => f.n
    case Pl => !f.n
    case Hi => !f.c && !f.z
    case Ls => f.c || f.z
    case Lt => f.n != f.v
    case Ge => f.n == f.v
    case Gt => !f.z && f.n == f.v
    case Le => f.z || f.n != f.v
  }

  // ----- forward code -----

  /** Where running a piece of code ends: past its last instruction, or at a label outside it. */
  datatype Outcome = Fall(s: State) | Goto(lab: nat, s: State)

  /** What the code of each operand does; the model holds for every choice of it. */
  type Oracle = (nat, bool, State) -> State

  function Ask(orc: Oracle, id: nat, wide: bool, s: State): State { orc(id, wide, s) }

  function Find(code: seq<Instr>, lab: nat): (k: nat)
    ensures k <= |code|
    ensures k < |code| <==> Label(lab) in code
    ensures k < |code| ==> code[k] == Label(lab)
  {
    if code == [] then 0 else if code[0] == Label(lab) then 0 else 1 + Find(code[1..], lab)
  }

  function Run(orc: Oracle, code: seq<Instr>, s: State): Outcome
    decreases |code|, 0
  {
    if code == [] then Fall(s)
    else match code[0]
      case Label(_) => Run(orc, code[1..], s)
      case Jmp(lab) => Take(orc, lab, code[1..], s)
      case Br(c, lab) =>
        if Holds(c, s.f) then Take(orc, lab, code[1..], s) else Run(orc, code[1..], s)
      case Operand(id, wide) => Run(orc, code[1..], Ask(orc, id, wide, s))
      case i => Run(orc, code[1..], Step(i, s))
  }

  /** A jump looks for its label in the code still ahead, and leaves if it is not there. */
  function Take(orc: Oracle, lab: nat, ahead: seq<Instr>, s: State): Outcome
    decreases |ahead|, 1
  {
    var k := Find(ahead, lab);
    if k < |ahead| then Run(orc, ahead[k + 1..], s) else Goto(lab, s)
  }

  /** Continue an outcome of some code with the code that follows it. */
  function Then(orc: Oracle, o: Outcome, next: seq<Instr>): Outcome {
    match o
    case Fall(s) => Run(orc, next, s)
    case Goto(lab, s) => Take(orc, lab, next, s)
  }

  lemma {:induction false} FindAppend(c1: seq<Instr>, c2: seq<Instr>, lab: nat)
    ensures Find(c1 + c2, lab) ==
            if Find(c1, lab) < |c1| then Find(c1, lab) else |c1| + Find(c2, lab)
  {
    if c1 == [] {
      assert c1 + c2 == c2;
    } else {
      assert (c1 + c2)[1..] == c1[1..] + c2;
      FindAppend(c1[1..], c2, lab);
    }
  }

  /** Running two pieces of code one after the other is running the first, then the second. */
  lemma {:induction false} RunAppend(orc: Oracle, c1: seq<Instr>, c2: seq<Instr>, s: State)
    ensures Run(orc, c1 + c2, s) == Then(orc, Run(orc, c1, s), c2)
    decreases |c1|, 0
  {
    if c1 == [] {
      assert c1 + c2 == c2;
    } else {
      var rest := c1[1..];
      assert (c1 + c2)[0] == c1[0] && (c1 + c2)[1..] == rest + c2;
      match c1[0] {
        case Label(_) => RunAppend(orc, rest, c2, s);
        case Jmp(lab) => TakeAppend(orc, lab, rest, c2, s);
        case Br(c, lab) => TakeAppend(orc, lab, rest, c2, s); RunAppend(orc, rest, c2, s);
        case Operand(id, wide) => RunAppend(orc, rest, c2, Ask(orc, id, wide, s));
        case i => RunAppend(orc, rest, c2, Step(i, s));
      }
    }
  }

  lemma {:induction false} TakeAppend(orc: Oracle, lab: nat, c1: seq<Instr>, c2: seq<Instr>, s: State)
    ensures Take(orc, lab, c1 + c2, s) == Then(orc, Take(orc, lab, c1, s), c2)
    decreases |c1|, 1
  {
    FindAppend(c1, c2, lab);
    var k := Find(c1, lab);
    if k < |c1| {
      assert (c1 + c2)[k + 1..] == c1[k + 1..] + c2;
      RunAppend(orc, c1[k + 1..], c2, s);
    } else {
      var j := Find(c2, lab);
      if j < |c2| {
        assert (c1 + c2)[|c1| + j + 1..] == c2[j + 1..];
      }
    }
  }

  // One instruction in front of some code.

  lemma RunBr(orc: Oracle, c: Cond, lab: nat, rest: seq<Instr>, s: State)
    ensures Run(orc, [Br(c, lab)] + rest, s) ==
            if Holds(c, s.f) then Take(orc, lab, rest, s) else Run(orc, rest, s)
  {
    assert ([Br(c, lab)] + rest)[1..] == rest;
  }

  lemma RunJmp(orc: Oracle, lab: nat, rest: seq<Instr>, s: State)
    ensures Run(orc, [Jmp(lab)] + rest, s) == Take(orc, lab, rest, s)
  {
    assert ([Jmp(lab)] + rest)[1..] == rest;
  }

  lemma RunStep(orc: Oracle, i: Instr, rest: seq<Instr>, s: State)
    requires Straight(i)
    ensures Run(orc, [i] + rest, s) == Run(orc, rest, Step(i, s))
  {
    assert ([i] + rest)[1..] == rest;
  }

  lemma RunLabel(orc: Oracle, lab: nat, rest: seq<Instr>, s: State)
    ensures Run(orc, [Label(lab)] + rest, s) == Run(orc, rest, s)
  {
    assert ([Label(lab)] + rest)[1..] == rest;
  }

  lemma TakeHere(orc: Oracle, lab: nat, rest: seq<Instr>, s: State)
    ensures Take(orc, lab, [Label(lab)] + rest, s) == Run(orc, rest, s)
  {
    assert ([Label(lab)] + rest)[1..] == rest;
    assert ([Label(lab)] + rest)[0] == Label(lab);
  }

  /** A jump passes over code that does not define its label. */
  lemma TakePast(orc: Oracle, lab: nat, code: seq<Instr>, rest: seq<Instr>, s: State)
    requires Label(lab) !in code
    ensures Take(orc, lab, code, s) == Goto(lab, s)
    ensures Take(orc, lab, code + rest, s) == Take(orc, lab, rest, s)
  {
    TakeAppend(orc, lab, code, rest, s);
  }

  /** All labels defined in `code` are numbered from `lo` up to `hi`. */
  predicate LabelsIn(code: seq<Instr>, lo: nat, hi: nat) {
    forall i :: 0 <= i < |code| && code[i].Label? ==> lo <= code[i].lab < hi
  }

  lemma LabelsAppend(c1: seq<Instr>, c2: seq<Instr>, lo: nat, mid: nat, mid': nat, hi: nat)
    requires LabelsIn(c1, lo, mid) && LabelsIn(c2, mid', hi) && lo <= mid && lo <= mid' <= hi && mid <= hi
    ensures LabelsIn(c1 + c2, lo, hi)
  {
  }

  lemma LabelAbsent(code: seq<Instr>, lo: nat, hi: nat, lab: nat)
    requires LabelsIn(code, lo, hi) && !(lo <= lab < hi)
    ensures Label(lab) !in code
  {
  }

  /** Straight-line code: no labels, no jumps, no operands compiled elsewhere. */
  predicate Straight(i: Instr) { !i.Label? && !i.Jmp? && !i.Br? && !i.Operand? }

  function Exec(code: seq<Instr>, s: State): State
    decreases |code|
  {
    if code == [] then s else Exec(code[1..], Step(code[0], s))
  }

  predicate StraightCode(code: seq<Instr>) { forall k :: 0 <= k < |code| ==> Straight(code[k]) }

  lemma {:induction false} RunStraight(orc: Oracle, code: seq<Instr>, s: State)
    requires StraightCode(code)
    ensures Run(orc, code, s) == Fall(Exec(code, s))
    decreases |code|
  {
    if code != [] {
      assert Straight(code[0]);
      RunStraight(orc, code[1..], Step(code[0], s));
    }
  }

  lemma {:induction false} ExecAppend(c1: seq<Instr>, c2: seq<Instr>, s: State)
    ensures Exec(c1 + c2, s) == Exec(c2, Exec(c1, s))
    decreases |c1|
  {
    if c1 == [] {
      assert c1 + c2 == c2;
    } else {
      assert (c1 + c2)[0] == c1[0] && (c1 + c2)[1..] == c1[1..] + c2;
      ExecAppend(c1[1..], c2, Step(c1[0], s));
    }
  }

  function Rep(n: nat, i: Instr): seq<Instr> { seq(n, _ => i) }

  lemma RepSnoc(n: nat, i: Instr)
    ensures Rep(n + 1, i) == Rep(n, i) + [i]
  {
  }

  // Short straight pieces, unfolded.

  lemma RunNone(orc: Oracle, s: State)
    ensures Run(orc, [], s) == Fall(s)
  {
  }

  lemma ExecNone(s: State)
    ensures Exec([], s) == s
  {
  }

  lemma {:induction false} InsMany(n: nat, s: State)
    ensures Exec(Rep(n, Inh(Ins)), s) == s.(sp := (s.sp + n) % 65536)
  {
    if n > 0 {
      assert Rep(n, Inh(Ins))[1..] == Rep(n - 1, Inh(Ins));
      InsMany(n - 1, Step(Inh(Ins), s));
      WrapShift(s.sp + 1, n - 1);
    } else {
      SmallMod(s.sp);
    }
  }

  lemma Exec1(i: Instr, s: State)
    ensures Exec([i], s) == Step(i, s)
  {
  }

  lemma Exec2(i1: Instr, i2: Instr, s: State)
    ensures Exec([i1, i2], s) == Step(i2, Step(i1, s))
  {
    assert [i1, i2][1..] == [i2];
    assert Exec([i2], Step(i1, s)) == Step(i2, Step(i1, s));
  }

  lemma Exec3(i1: Instr, i2: Instr, i3: Instr, s: State)
    ensures Exec([i1, i2, i3], s) == Step(i3, Step(i2, Step(i1, s)))
  {
    assert [i1, i2, i3][1..] == [i2, i3];
    Exec2(i2, i3, Step(i1, s));
  }

  lemma Exec4(i1: Instr, i2: Instr, i3: Instr, i4: Instr, s: State)
    ensures Exec([i1, i2, i3, i4], s) == Step(i4, Step(i3, Step(i2, Step(i1, s))))
  {
    assert [i1, i2, i3, i4][1..] == [i2, i3, i4];
    Exec3(i2, i3, i4, Step(i1, s));
  }

  lemma Exec5(i1: Instr, i2: Instr, i3: Instr, i4: Instr, i5: Instr, s: State)
    ensures Exec([i1, i2, i3, i4, i5], s) == Step(i5, Step(i4, Step(i3, Step(i2, Step(i1, s)))))
  {
    assert [i1, i2, i3, i4, i5][1..] == [i2, i3, i4, i5];
    Exec4(i2, i3, i4, i5, Step(i1, s));
  }
}
