/** Shifts by constants: the inline sequences of gen_shl and gen_shr (codegen.c), for counts however large. */
module Shifts {
  import opened Arith
  import opened Bits
  import opened Machine

  // ----- code that only works on the accumulators and the carry -----

  datatype Regs = Regs(a: Byte, b: Byte, c: bool)

  predicate Plain(i: Instr) {
    || i.Un?
    || (i.Alu? && i.opnd.Imm?)
    || (i.Logic? && i.opnd.Imm?)
    || (i.Inh? && (i.inh == Tab || i.inh == Tba || i.inh == Aba || i.inh == Sba))
  }

  predicate PlainCode(code: seq<Instr>) { forall k :: 0 <= k < |code| ==> Plain(code[k]) }

  function OnlyC(c: bool): Flags { Flags(false, false, false, c) }

  function RegOf(r: Reg, s: Regs): Byte { if r == A then s.a else s.b }
  function With(r: Reg, v: Byte, c: bool, s: Regs): Regs { if r == A then Regs(v, s.b, c) else Regs(s.a, v, c) }

  /** What an instruction does to them, and nothing else. */
  function RegStep(i: Instr, s: Regs): Regs
    requires Plain(i)
  {
    var f := OnlyC(s.c);
    match i
    case Un(op, r) => With(r, UnValue(op, RegOf(r, s), f), UnFlags(op, RegOf(r, s), f).c, s)
    case Alu(op, r, o) => With(r, AluValue(op, RegOf(r, s), o.k, f), AluFlags(op, RegOf(r, s), o.k, f).c, s)
    case Logic(op, r, o) => With(r, Op8(op, RegOf(r, s), o.k), s.c, s)
    case Inh(Tab) => Regs(s.a, s.a, s.c)
    case Inh(Tba) => Regs(s.b, s.b, s.c)
    case Inh(Aba) => Regs(Wrap8(s.a + s.b), s.b, s.a + s.b >= 256)
    case Inh(Sba) => Regs(Wrap8(s.a - s.b), s.b, s.a < s.b)
  }

  function RegExec(code: seq<Instr>, s: Regs): Regs
    requires PlainCode(code)
  {
    if code == [] then s else
      assert Plain(code[0]);
      RegExec(code[1..], RegStep(code[0], s))
  }

  function Registers(s: State): Regs { Regs(s.a, s.b, s.f.c) }

  lemma RegStepRight(i: Instr, s: State)
    requires Plain(i)
    ensures var t := Step(i, s);
      t == s.(a := t.a, b := t.b, f := t.f) && Registers(t) == RegStep(i, Registers(s))
  {
    hide Op8, UnValue, UnFlags, AluValue, AluFlags, Sgn8;
    match i {
      case Un(op, r) => UnCarry(op, Get(r, s), s.f);
      case Alu(op, r, o) => AluCarry(op, Get(r, s), o.k, s.f);
      case Logic(op, r, o) =>
      case Inh(j) => AddedSubtracted(s);
    }
  }

  /** Of the flags only the carry goes into a value or a carry. */
  lemma UnCarry(op: UnOp, x: Byte, f: Flags)
    ensures UnValue(op, x, f) == UnValue(op, x, OnlyC(f.c)) && UnFlags(op, x, f).c == UnFlags(op, x, OnlyC(f.c)).c
  {
    hide Sgn8;
  }

  lemma AluCarry(op: AluOp, x: Byte, y: Byte, f: Flags)
    ensures AluValue(op, x, y, f) == AluValue(op, x, y, OnlyC(f.c)) && AluFlags(op, x, y, f).c == AluFlags(op, x, y, OnlyC(f.c)).c
  {
    hide Sgn8;
  }

  lemma AddedSubtracted(s: State)
    ensures Step(Inh(Aba), s) == s.(a := Wrap8(s.a + s.b), f := AddFlags(s.a, s.b, false)) && AddFlags(s.a, s.b, false).c == (s.a + s.b >= 256)
    ensures Step(Inh(Sba), s) == s.(a := Wrap8(s.a - s.b), f := SubFlags(s.a, s.b, false)) && SubFlags(s.a, s.b, false).c == (s.a < s.b)
  {
    hide Sgn8;
  }

  /** Such code touches nothing but the accumulators and the flags. */
  lemma {:induction false} RegExecRight(code: seq<Instr>, s: State)
    requires PlainCode(code)
    ensures var t := Exec(code, s);
      t == s.(a := t.a, b := t.b, f := t.f) && Registers(t) == RegExec(code, Registers(s))
    ensures StraightCode(code)
    decreases |code|
  {
    hide Step, RegStep;
    if code != [] {
      assert Plain(code[0]);
      RegStepRight(code[0], s);
      RegExecRight(code[1..], Step(code[0], s));
      assert forall k :: 0 < k < |code| ==> code[k] == code[1..][k - 1];
    }
  }

  lemma {:induction false} RegAppend(c1: seq<Instr>, c2: seq<Instr>, s: Regs)
    requires PlainCode(c1) && PlainCode(c2)
    ensures PlainCode(c1 + c2) && RegExec(c1 + c2, s) == RegExec(c2, RegExec(c1, s))
    decreases |c1|
  {
    hide RegStep;
    if c1 == [] {
      assert c1 + c2 == c2;
    } else {
      assert Plain(c1[0]);
      assert (c1 + c2)[0] == c1[0] && (c1 + c2)[1..] == c1[1..] + c2;
      RegAppend(c1[1..], c2, RegStep(c1[0], s));
    }
  }

  lemma Reg1(i1: Instr, s: Regs)
    requires Plain(i1)
    ensures RegExec([i1], s) == RegStep(i1, s)
  {
    hide RegStep;
  }

  lemma Reg2(i1: Instr, i2: Instr, s: Regs)
    requires Plain(i1) && Plain(i2)
    ensures RegExec([i1, i2], s) == RegStep(i2, RegStep(i1, s))
  {
    hide RegStep;
    assert [i1, i2][1..] == [i2];
    Reg1(i2, RegStep(i1, s));
  }

  lemma Reg3(i1: Instr, i2: Instr, i3: Instr, s: Regs)
    requires Plain(i1) && Plain(i2) && Plain(i3)
    ensures RegExec([i1, i2, i3], s) == RegStep(i3, RegStep(i2, RegStep(i1, s)))
  {
    hide RegStep;
    assert [i1, i2, i3][1..] == [i2, i3];
    Reg2(i2, i3, RegStep(i1, s));
  }

  // ----- what single shifts do -----

  function RD(s: Regs): Word { 256 * s.a + s.b }

  function Times(n: nat, code: seq<Instr>): seq<Instr> { if n == 0 then [] else Times(n - 1, code) + code }

  lemma {:induction false} TimesPlain(n: nat, code: seq<Instr>)
    requires PlainCode(code)
    ensures PlainCode(Times(n, code))
  {
    if n > 0 {
      TimesPlain(n - 1, code);
    }
  }

  const ASLD: seq<Instr> := [Un(Asl, B), Un(Rol, A)]
  const LSRD: seq<Instr> := [Un(Lsr, A), Un(Ror, B)]
  const ASRD: seq<Instr> := [Un(Asr, A), Un(Ror, B)]

  lemma AsldRight(s: Regs)
    ensures RD(RegExec(ASLD, s)) == (2 * RD(s)) % 65536
  {
    hide RegExec;
    Reg2(Un(Asl, B), Un(Rol, A), s);
    var d := 2 * RD(s);
    DivModUnique(d, if s.a >= 128 then 1 else 0, if s.a >= 128 then d - 65536 else d, 65536);
  }

  lemma LsrdRight(s: Regs)
    ensures RD(RegExec(LSRD, s)) == RD(s) / 2
  {
    hide RegExec;
    Reg2(Un(Lsr, A), Un(Ror, B), s);
  }

  lemma AsrdRight(s: Regs)
    ensures Sgn16(RD(RegExec(ASRD, s))) == Sgn16(RD(s)) / 2
  {
    hide RegExec;
    Reg2(Un(Asr, A), Un(Ror, B), s);
  }

  lemma DoubleAgain(x: int, n: nat, m: nat)
    requires m > 0
    ensures (2 * ((x * Pow2(n)) % m)) % m == (x * Pow2(n + 1)) % m
  {
    var v := x * Pow2(n);
    var q := v / m;
    assert v == m * q + v % m;
    assert x * Pow2(n + 1) == 2 * v;
    assert 2 * v == 2 * (v % m) + m * (2 * q);
    ModShift(2 * (v % m), 2 * q, m);
  }

  lemma HalveAgain(x: int, n: nat)
    ensures (x / Pow2(n)) / 2 == x / Pow2(n + 1)
  {
    var p := Pow2(n);
    var q, r := x / p, x % p;
    assert x == q * p + r;
    assert q == 2 * (q / 2) + q % 2;
    assert (q / 2) * (2 * p) + (q % 2) * p + r == q * p + r;
    assert 0 <= (q % 2) * p + r < 2 * p;
    DivModUnique(x, q / 2, (q % 2) * p + r, 2 * p);
  }

  /** Repeated doubling of D; of B alone; halving of both kinds. */
  lemma {:induction false} DoubledD(n: nat, s: Regs)
    ensures PlainCode(Times(n, ASLD)) && RD(RegExec(Times(n, ASLD), s)) == (RD(s) * Pow2(n)) % 65536
  {
    hide RegStep, RegExec;
    TimesPlain(n, ASLD);
    if n == 0 {
      Nothing(s);
      SmallMod(RD(s));
    } else {
      TimesPlain(n - 1, ASLD);
      DoubledD(n - 1, s);
      RegAppend(Times(n - 1, ASLD), ASLD, s);
      AsldRight(RegExec(Times(n - 1, ASLD), s));
      DoubleAgain(RD(s), n - 1, 65536);
    }
  }

  lemma Nothing(s: Regs)
    ensures RegExec([], s) == s
  {
  }

  lemma {:induction false} HalvedD(n: nat, s: Regs)
    ensures PlainCode(Times(n, LSRD)) && RD(RegExec(Times(n, LSRD), s)) == RD(s) / Pow2(n)
  {
    hide RegStep, RegExec;
    TimesPlain(n, LSRD);
    if n == 0 {
      Nothing(s);
    } else {
      TimesPlain(n - 1, LSRD);
      HalvedD(n - 1, s);
      RegAppend(Times(n - 1, LSRD), LSRD, s);
      LsrdRight(RegExec(Times(n - 1, LSRD), s));
      HalveAgain(RD(s), n - 1);
    }
  }

  lemma {:induction false} SignedHalvedD(n: nat, s: Regs)
    ensures PlainCode(Times(n, ASRD)) && Sgn16(RD(RegExec(Times(n, ASRD), s))) == Sgn16(RD(s)) / Pow2(n)
  {
    hide RegStep, RegExec, Sgn16;
    TimesPlain(n, ASRD);
    if n == 0 {
      Nothing(s);
    } else {
      TimesPlain(n - 1, ASRD);
      SignedHalvedD(n - 1, s);
      RegAppend(Times(n - 1, ASRD), ASRD, s);
      AsrdRight(RegExec(Times(n - 1, ASRD), s));
      HalveAgain(Sgn16(RD(s)), n - 1);
    }
  }

  /** One accumulator, the other kept. */
  lemma {:induction false} Doubled(r: Reg, n: nat, s: Regs)
    ensures PlainCode(Times(n, [Un(Asl, r)]))
    ensures var t := RegExec(Times(n, [Un(Asl, r)]), s);
      RegOf(r, t) == (RegOf(r, s) * Pow2(n)) % 256 && t == With(r, RegOf(r, t), t.c, s)
  {
    hide RegStep, RegExec, Pow2;
    var one := [Un(Asl, r)];
    TimesPlain(n, one);
    if n == 0 {
      Nothing(s);
      OneTime(RegOf(r, s));
    } else {
      TimesPlain(n - 1, one);
      Doubled(r, n - 1, s);
      RegAppend(Times(n - 1, one), one, s);
      var u := RegExec(Times(n - 1, one), s);
      Reg1(one[0], u);
      AslOnce(r, u);
      DoubleAgain(RegOf(r, s), n - 1, 256);
    }
  }

  lemma OneTime(b: Byte)
    ensures (b * Pow2(0)) % 256 == b
  {
    DivModUnique(b, 0, b, 256);
  }

  lemma AslOnce(r: Reg, s: Regs)
    ensures var t := RegStep(Un(Asl, r), s); RegOf(r, t) == (2 * RegOf(r, s)) % 256 && t == With(r, RegOf(r, t), t.c, s)
  {
    var d := 2 * RegOf(r, s);
    DivModUnique(d, if d >= 256 then 1 else 0, if d >= 256 then d - 256 else d, 256);
  }

  lemma {:induction false} Halved(n: nat, s: Regs)
    ensures PlainCode(Times(n, [Un(Lsr, B)]))
    ensures var t := RegExec(Times(n, [Un(Lsr, B)]), s); t.b == s.b / Pow2(n) && t.a == s.a
  {
    var one := [Un(Lsr, B)];
    TimesPlain(n, one);
    if n > 0 {
      TimesPlain(n - 1, one);
      Halved(n - 1, s);
      RegAppend(Times(n - 1, one), one, s);
      Reg1(one[0], RegExec(Times(n - 1, one), s));
      HalveAgain(s.b, n - 1);
    }
  }

  lemma {:induction false} SignedHalved(n: nat, s: Regs)
    ensures PlainCode(Times(n, [Un(Asr, B)]))
    ensures var t := RegExec(Times(n, [Un(Asr, B)]), s); Sgn8(t.b) == Sgn8(s.b) / Pow2(n) && t.a == s.a
  {
    var one := [Un(Asr, B)];
    TimesPlain(n, one);
    if n > 0 {
      TimesPlain(n - 1, one);
      SignedHalved(n - 1, s);
      RegAppend(Times(n - 1, one), one, s);
      Reg1(one[0], RegExec(Times(n - 1, one), s));
      HalveAgain(Sgn8(s.b), n - 1);
    }
  }

  // ----- the special sequences -----

  lemma TopBits(x: Byte)
    ensures Op8(BitAnd, x, 192) == x - x % 64 && Op8(BitAnd, x, 128) == x - x % 128
    ensures Op8(BitAnd, x, 3) == x % 4 && Op8(BitAnd, x, 1) == x % 2
  {
    hide Bitwise;
    Pow2Values();
    Powers();
    AndUpper(x, 8, 6);
    AndUpper(x, 8, 7);
    AndMask(x, 8, 2);
    AndMask(x, 8, 1);
  }

  lemma Powers()
    ensures Pow2(1) == 2 && Pow2(2) == 4 && Pow2(6) == 64 && Pow2(7) == 128 && Pow2(9) == 512 && Pow2(14) == 16384 && Pow2(15) == 32768
  {
    assert Pow2(3) == 8;
    Pow2Add(3, 3);
    assert Pow2(7) == 2 * Pow2(6);
    Pow2Add(7, 2);
    Pow2Add(7, 7);
  }

  // Rotations to the right, of a byte given as its half and its last digit.

  lemma Rored(r: Reg, s: Regs, half: int, last: int)
    requires RegOf(r, s) == 2 * half + last && 0 <= last <= 1
    ensures 0 <= half < 128 && RegStep(Un(Ror, r), s) == With(r, half + 128 * Carry(s.c), last == 1, s)
  {
  }

  lemma Lsred(r: Reg, s: Regs, half: int, last: int)
    requires RegOf(r, s) == 2 * half + last && 0 <= last <= 1
    ensures 0 <= half < 128 && RegStep(Un(Lsr, r), s) == With(r, half, last == 1, s)
  {
  }

  lemma Clred(r: Reg, s: Regs)
    ensures RegStep(Un(Clr, r), s) == With(r, 0, false, s)
  {
  }

  /** Rotations to the left, of a byte given as its first digit and the rest. */
  lemma Roled(r: Reg, s: Regs, first: int, rest: int)
    requires RegOf(r, s) == 128 * first + rest && 0 <= first <= 1 && 0 <= rest < 128
    ensures RegStep(Un(Rol, r), s) == With(r, 2 * rest + Carry(s.c), first == 1, s)
  {
  }

  lemma Asled(r: Reg, s: Regs, first: int, rest: int)
    requires RegOf(r, s) == 128 * first + rest && 0 <= first <= 1 && 0 <= rest < 128
    ensures RegStep(Un(Asl, r), s) == With(r, 2 * rest, first == 1, s)
  {
  }

  lemma Masked(s: Regs, x: int, rest: int)
    requires s.b == 64 * x + rest && 0 <= rest < 64
    ensures 0 <= 64 * x < 256 && RegStep(Logic(BitAnd, B, Imm(192)), s) == Regs(s.a, 64 * x, s.c)
  {
    hide Op8;
    TopBits(s.b);
    DivModUnique(s.b, x, rest, 64);
  }

  lemma Masked128(s: Regs, x: int, rest: int)
    requires s.b == 128 * x + rest && 0 <= rest < 128
    ensures 0 <= 128 * x < 256 && RegStep(Logic(BitAnd, B, Imm(128)), s) == Regs(s.a, 128 * x, s.c)
  {
    hide Op8;
    TopBits(s.b);
    DivModUnique(s.b, x, rest, 128);
  }

  lemma Reg4(i1: Instr, i2: Instr, i3: Instr, i4: Instr, s: Regs)
    requires Plain(i1) && Plain(i2) && Plain(i3) && Plain(i4)
    ensures RegExec([i1, i2, i3, i4], s) == RegStep(i4, RegStep(i3, RegStep(i2, RegStep(i1, s))))
  {
    hide RegStep;
    assert [i1, i2, i3, i4][1..] == [i2, i3, i4];
    Reg3(i2, i3, i4, RegStep(i1, s));
  }

  lemma Reg5(i1: Instr, i2: Instr, i3: Instr, i4: Instr, i5: Instr, s: Regs)
    requires Plain(i1) && Plain(i2) && Plain(i3) && Plain(i4) && Plain(i5)
    ensures RegExec([i1, i2, i3, i4, i5], s) == RegStep(i5, RegStep(i4, RegStep(i3, RegStep(i2, RegStep(i1, s)))))
  {
    hide RegStep;
    assert [i1, i2, i3, i4, i5][1..] == [i2, i3, i4, i5];
    Reg4(i2, i3, i4, i5, RegStep(i1, s));
  }

  lemma Reg6(i1: Instr, i2: Instr, i3: Instr, i4: Instr, i5: Instr, i6: Instr, s: Regs)
    requires Plain(i1) && Plain(i2) && Plain(i3) && Plain(i4) && Plain(i5) && Plain(i6)
    ensures RegExec([i1, i2, i3, i4, i5, i6], s) == RegStep(i6, RegStep(i5, RegStep(i4, RegStep(i3, RegStep(i2, RegStep(i1, s))))))
  {
    hide RegStep;
    assert [i1, i2, i3, i4, i5, i6][1..] == [i2, i3, i4, i5, i6];
    Reg5(i2, i3, i4, i5, i6, RegStep(i1, s));
  }

  const RORB: Instr := Un(Ror, B)
  const RORA: Instr := Un(Ror, A)
  const AND192: Instr := Logic(BitAnd, B, Imm(192))
  const AND128: Instr := Logic(BitAnd, B, Imm(128))

  lemma ShlB6Right(s: Regs)
    ensures var t := RegExec([RORB, RORB, RORB, AND192], s); t.b == (64 * s.b) % 256 && t.a == s.a
  {
    hide RegExec, RegStep;
    var c := Carry(s.c);
    var q1, b0 := s.b / 2, s.b % 2;
    var q2, b1 := q1 / 2, q1 % 2;
    var q3, b2 := q2 / 2, q2 % 2;
    Rored(B, s, q1, b0);
    var s1 := RegStep(RORB, s);
    Rored(B, s1, q2 + 64 * c, b1);
    var s2 := RegStep(RORB, s1);
    Rored(B, s2, q3 + 32 * c + 64 * b0, b2);
    var s3 := RegStep(RORB, s2);
    Masked(s3, b0 + 2 * b1, q3 + 32 * c);
    Reg4(RORB, RORB, RORB, AND192, s);
    DivModUnique(64 * s.b, q2, 64 * (b0 + 2 * b1), 256);
  }

  lemma ShlB7Right(s: Regs)
    ensures var t := RegExec([RORB, RORB, AND128], s); t.b == (128 * s.b) % 256 && t.a == s.a
  {
    hide RegExec, RegStep;
    var c := Carry(s.c);
    var q1, b0 := s.b / 2, s.b % 2;
    var q2, b1 := q1 / 2, q1 % 2;
    Rored(B, s, q1, b0);
    var s1 := RegStep(RORB, s);
    Rored(B, s1, q2 + 64 * c, b1);
    var s2 := RegStep(RORB, s1);
    Masked128(s2, b0, q2 + 64 * c);
    Reg3(RORB, RORB, AND128, s);
    DivModUnique(128 * s.b, q1, 128 * b0, 256);
  }

  /** After A and B have been exchanged: A holds the low byte, B the high byte. */
  lemma ShlD6Right(s: Regs)
    ensures RD(RegExec([Un(Lsr, B), RORA, RORB, RORA, RORB, AND192], s)) == (64 * Cat(s.b, s.a)) % 65536
  {
    hide RegExec, RegStep;
    var p1, q1 := s.b / 2, s.a / 2;
    var p2 := p1 / 2;
    ShlD6Digits(s, p1, s.b % 2, p2, p1 % 2, p2 / 2, p2 % 2, q1, s.a % 2, q1 / 2, q1 % 2);
    Product64(s.b, p2, s.b % 2 + 2 * (p1 % 2), s.a, q1 / 2, s.a % 2 + 2 * (q1 % 2));
  }

  lemma ShlD6Digits(s: Regs, p1: int, a0: int, p2: int, a1: int, p3: int, a2: int, q1: int, b0: int, q2: int, b1: int)
    requires 0 <= a0 <= 1 && 0 <= a1 <= 1 && 0 <= a2 <= 1 && 0 <= b0 <= 1 && 0 <= b1 <= 1
    requires s.b == 2 * p1 + a0 && p1 == 2 * p2 + a1 && p2 == 2 * p3 + a2 && s.a == 2 * q1 + b0 && q1 == 2 * q2 + b1
    ensures var t := RegExec([Un(Lsr, B), RORA, RORB, RORA, RORB, AND192], s);
      t.a == q2 + 64 * (a0 + 2 * a1) && t.b == 64 * (b0 + 2 * b1)
  {
    hide RegExec, RegStep;
    Lsred(B, s, p1, a0);
    var s1 := RegStep(Un(Lsr, B), s);
    Rored(A, s1, q1, b0);
    var s2 := RegStep(RORA, s1);
    Rored(B, s2, p2, a1);
    var s3 := RegStep(RORB, s2);
    Rored(A, s3, q2 + 64 * a0, b1);
    var s4 := RegStep(RORA, s3);
    Rored(B, s4, p3 + 64 * b0, a2);
    var s5 := RegStep(RORB, s4);
    Masked(s5, b0 + 2 * b1, p3);
    Reg6(Un(Lsr, B), RORA, RORB, RORA, RORB, AND192, s);
  }

  lemma Product64(a: Byte, p: int, ar: int, b: Byte, q: int, br: int)
    requires a == 4 * p + ar && 0 <= ar < 4 && b == 4 * q + br && 0 <= br < 4
    ensures 256 * (q + 64 * ar) + 64 * br == (64 * Cat(a, b)) % 65536
  {
    DivModUnique(64 * (256 * a + b), p, 16384 * ar + 64 * b, 65536);
  }

  lemma Product128(a: Byte, p: int, ar: int, b: Byte, q: int, br: int)
    requires a == 2 * p + ar && 0 <= ar < 2 && b == 2 * q + br && 0 <= br < 2
    ensures 256 * (q + 128 * ar) + 128 * br == (128 * Cat(a, b)) % 65536
  {
    DivModUnique(128 * (256 * a + b), p, 32768 * ar + 128 * b, 65536);
  }

  lemma ShlD7Right(s: Regs)
    ensures RD(RegExec([Un(Lsr, A), Inh(Tba), RORA, RORB, AND128], s)) == (128 * RD(s)) % 65536
  {
    hide RegExec, RegStep;
    var p1, a0 := s.a / 2, s.a % 2;
    var q1, b0 := s.b / 2, s.b % 2;
    Lsred(A, s, p1, a0);
    var s1 := RegStep(Un(Lsr, A), s);
    Tbaed(s1);
    var s2 := RegStep(Inh(Tba), s1);
    Rored(A, s2, q1, b0);
    var s3 := RegStep(RORA, s2);
    Rored(B, s3, q1, b0);
    var s4 := RegStep(RORB, s3);
    Masked128(s4, b0, q1);
    Reg5(Un(Lsr, A), Inh(Tba), RORA, RORB, AND128, s);
    Product128(s.a, p1, a0, s.b, q1, b0);
  }

  /** clra; lsrb; rora ...; clrb */
  lemma ShlD15Right(s: Regs)
    ensures RD(RegExec([Un(Clr, A), Un(Lsr, B), RORA, Un(Clr, B)], s)) == (32768 * RD(s)) % 65536
  {
    hide RegExec;
    var q1, b0 := s.b / 2, s.b % 2;
    var s1 := RegStep(Un(Clr, A), s);
    Lsred(B, s1, q1, b0);
    var s2 := RegStep(Un(Lsr, B), s1);
    Rored(A, s2, 0, 0);
    Reg4(Un(Clr, A), Un(Lsr, B), RORA, Un(Clr, B), s);
    DivModUnique(32768 * (256 * s.a + s.b), 128 * s.a + q1, 32768 * b0, 65536);
  }

  lemma ShlD14Right(s: Regs)
    ensures RD(RegExec([Un(Clr, A), Un(Lsr, B), RORA, Un(Lsr, B), RORA, Un(Clr, B)], s)) == (16384 * RD(s)) % 65536
  {
    hide RegExec, RegStep;
    var q1, b0 := s.b / 2, s.b % 2;
    var q2, b1 := q1 / 2, q1 % 2;
    Clred(A, s);
    var s1 := RegStep(Un(Clr, A), s);
    Lsred(B, s1, q1, b0);
    var s2 := RegStep(Un(Lsr, B), s1);
    Rored(A, s2, 0, 0);
    var s3 := RegStep(RORA, s2);
    Lsred(B, s3, q2, b1);
    var s4 := RegStep(Un(Lsr, B), s3);
    Rored(A, s4, 64 * b0, 0);
    Clred(B, RegStep(RORA, s4));
    Reg6(Un(Clr, A), Un(Lsr, B), RORA, Un(Lsr, B), RORA, Un(Clr, B), s);
    DivModUnique(16384 * (256 * s.a + s.b), 64 * s.a + q2, 16384 * (b0 + 2 * b1), 65536);
  }

  // ----- to the right -----

  const ROLA: Instr := Un(Rol, A)
  const ROLB: Instr := Un(Rol, B)

  /** aslb; rola; rolb; rola; rolb leaves the result's bytes exchanged: its high byte in the low digits of B. */
  lemma ShrD6Right(s: Regs)
    ensures var t := RegExec([Un(Asl, B), ROLA, ROLB, ROLA, ROLB], s);
      256 * (t.b % 4) + t.a == RD(s) / 64
  {
    hide RegExec, RegStep;
    var ra, rb := s.a % 128, s.b % 128;
    var rra, rrb := ra % 64, rb % 64;
    var a7, a6, b7, b6 := s.a / 128, ra / 64, s.b / 128, rb / 64;
    ShrD6Digits(s, a7, a6, rra, b7, b6, rrb / 32, rrb % 32);
    Quotient64(s.a, 2 * a7 + a6, rra, s.b, 2 * b7 + b6, rrb, rrb % 32);
  }

  lemma ShrD6Digits(s: Regs, a7: int, a6: int, rra: int, b7: int, b6: int, b5: int, r: int)
    requires 0 <= a7 <= 1 && 0 <= a6 <= 1 && 0 <= b7 <= 1 && 0 <= b6 <= 1 && 0 <= b5 <= 1 && 0 <= rra < 64 && 0 <= r < 32
    requires s.a == 128 * a7 + 64 * a6 + rra && s.b == 128 * b7 + 64 * b6 + 32 * b5 + r
    ensures var t := RegExec([Un(Asl, B), ROLA, ROLB, ROLA, ROLB], s);
      t.b == 8 * r + (2 * a7 + a6) && t.a == 4 * rra + (2 * b7 + b6)
  {
    hide RegExec, RegStep;
    Asled(B, s, b7, 64 * b6 + 32 * b5 + r);
    var s1 := RegStep(Un(Asl, B), s);
    Roled(A, s1, a7, 64 * a6 + rra);
    var s2 := RegStep(ROLA, s1);
    Roled(B, s2, b6, 64 * b5 + 2 * r);
    var s3 := RegStep(ROLB, s2);
    Roled(A, s3, a6, 2 * rra + b7);
    var s4 := RegStep(ROLA, s3);
    Roled(B, s4, b5, 4 * r + a7);
    Reg5(Un(Asl, B), ROLA, ROLB, ROLA, ROLB, s);
  }

  lemma Quotient64(a: Byte, ah: int, al: int, b: Byte, bh: int, bl: int, junk: int)
    requires a == 64 * ah + al && 0 <= al < 64 && b == 64 * bh + bl && 0 <= bl < 64 && 0 <= ah < 4 && 0 <= bh < 4
    ensures 256 * ((8 * junk + ah) % 4) + (4 * al + bh) == Cat(a, b) / 64
  {
    DivModUnique(8 * junk + ah, 2 * junk, ah, 4);
    DivModUnique(256 * a + b, 256 * ah + 4 * al + bh, bl, 64);
  }

  lemma ShrD7Right(s: Regs)
    ensures RD(RegExec([Un(Asl, B), ROLA, Inh(Tab), ROLA, Logic(BitAnd, A, Imm(1))], s)) == RD(s) / 128
  {
    hide RegExec, Op8;
    var a7, ra := s.a / 128, s.a % 128;
    var b7, rb := s.b / 128, s.b % 128;
    Asled(B, s, b7, rb);
    var s1 := RegStep(Un(Asl, B), s);
    Roled(A, s1, a7, ra);
    var s2 := RegStep(ROLA, s1);
    var s3 := RegStep(Inh(Tab), s2);
    var c7, rc := s3.a / 128, s3.a % 128;
    Roled(A, s3, c7, rc);
    var s4 := RegStep(ROLA, s3);
    TopBits(s4.a);
    DivModUnique(s4.a, rc, a7, 2);
    Reg5(Un(Asl, B), ROLA, Inh(Tab), ROLA, Logic(BitAnd, A, Imm(1)), s);
    DivModUnique(RD(s), 256 * a7 + 2 * ra + b7, rb, 128);
  }

  lemma ShrD15Right(s: Regs)
    ensures RD(RegExec([Un(Clr, B), Un(Asl, A), ROLB, Un(Clr, A)], s)) == RD(s) / 32768
  {
    hide RegExec;
    var a7, ra := s.a / 128, s.a % 128;
    var s1 := RegStep(Un(Clr, B), s);
    Asled(A, s1, a7, ra);
    var s2 := RegStep(Un(Asl, A), s1);
    Roled(B, s2, 0, 0);
    Reg4(Un(Clr, B), Un(Asl, A), ROLB, Un(Clr, A), s);
    DivModUnique(RD(s), a7, 256 * ra + s.b, 32768);
  }

  lemma ShrD14Right(s: Regs)
    ensures RD(RegExec([Un(Clr, B), Un(Asl, A), ROLB, Un(Asl, A), ROLB, Un(Clr, A)], s)) == RD(s) / 16384
  {
    hide RegExec;
    var a7, ra := s.a / 128, s.a % 128;
    var a6, rra := ra / 64, ra % 64;
    var s1 := RegStep(Un(Clr, B), s);
    Asled(A, s1, a7, ra);
    var s2 := RegStep(Un(Asl, A), s1);
    Roled(B, s2, 0, 0);
    var s3 := RegStep(ROLB, s2);
    Asled(A, s3, a6, 2 * rra);
    var s4 := RegStep(Un(Asl, A), s3);
    Roled(B, s4, 0, a7);
    Reg6(Un(Clr, B), Un(Asl, A), ROLB, Un(Asl, A), ROLB, Un(Clr, A), s);
    DivModUnique(RD(s), 2 * a7 + a6, 256 * rra + s.b, 16384);
  }

  /** A or B filled with the sign that a left shift has put into the carry. */
  lemma Filled(r: Reg, s: Regs)
    requires RegOf(r, s) == 0
    ensures RegStep(Alu(Sbc, r, Imm(0)), s) == With(r, if s.c then 255 else 0, s.c, s)
  {
  }

  lemma SarBRight(s: Regs)
    ensures var t := RegExec([Un(Asl, B), Alu(Ld, B, Imm(0)), Alu(Sbc, B, Imm(0))], s);
      Sgn8(t.b) == (if s.b >= 128 then -1 else 0) && t.a == s.a
  {
    hide RegExec;
    Reg3(Un(Asl, B), Alu(Ld, B, Imm(0)), Alu(Sbc, B, Imm(0)), s);
    Filled(B, RegStep(Alu(Ld, B, Imm(0)), RegStep(Un(Asl, B), s)));
  }

  lemma SarD15Right(s: Regs)
    ensures Sgn16(RD(RegExec([Un(Clr, B), Un(Asl, A), Alu(Sbc, B, Imm(0)), Inh(Tba)], s))) == (if s.a >= 128 then -1 else 0)
  {
    hide RegExec;
    Reg4(Un(Clr, B), Un(Asl, A), Alu(Sbc, B, Imm(0)), Inh(Tba), s);
    Filled(B, RegStep(Un(Asl, A), RegStep(Un(Clr, B), s)));
  }

  const SAR14: seq<Instr> := [Un(Clr, B), Un(Asl, A), Alu(Sbc, B, Imm(0)), Un(Asl, A), Inh(Tba), ROLB]

  lemma SarD14Regs(s: Regs, a7: int, a6: int, rest: int)
    requires s.a == 128 * a7 + 64 * a6 + rest && 0 <= a7 <= 1 && 0 <= a6 <= 1 && 0 <= rest < 64
    ensures RegExec(SAR14, s).a == 255 * a7 && RegExec(SAR14, s).b == 254 * a7 + a6
  {
    hide RegExec, RegStep;
    Clred(B, s);
    var s1 := RegStep(Un(Clr, B), s);
    Asled(A, s1, a7, 64 * a6 + rest);
    var s2 := RegStep(Un(Asl, A), s1);
    Filled(B, s2);
    var s3 := RegStep(Alu(Sbc, B, Imm(0)), s2);
    Asled(A, s3, a6, 2 * rest);
    var s4 := RegStep(Un(Asl, A), s3);
    Tbaed(s4);
    var s5 := RegStep(Inh(Tba), s4);
    Roled(B, s5, a7, 127 * a7);
    Reg6(Un(Clr, B), Un(Asl, A), Alu(Sbc, B, Imm(0)), Un(Asl, A), Inh(Tba), ROLB, s);
  }

  lemma SarD14Right(s: Regs)
    ensures Sgn16(RD(RegExec(SAR14, s))) == Sgn16(RD(s)) / 16384
  {
    hide RegExec, Sgn16;
    var a7, a6, rest := s.a / 128, s.a % 128 / 64, s.a % 64;
    SarD14Regs(s, a7, a6, rest);
    TopDigits(s.a, s.b, a7, a6, rest);
  }

  /** A word's two top digits are its quotient by 16384, signed. */
  lemma TopDigits(a: Byte, b: Byte, a7: int, a6: int, rest: int)
    requires a == 128 * a7 + 64 * a6 + rest && 0 <= a7 <= 1 && 0 <= a6 <= 1 && 0 <= rest < 64
    ensures Sgn16(256 * a + b) / 16384 == a6 - 2 * a7 == Sgn16(256 * (255 * a7) + (254 * a7 + a6))
  {
    DivModUnique(Sgn16(256 * a + b), a6 - 2 * a7, 256 * rest + b, 16384);
  }

  lemma Tbaed(s: Regs)
    ensures RegStep(Inh(Tba), s) == Regs(s.b, s.b, s.c) && RegStep(Inh(Tab), s) == Regs(s.a, s.a, s.c)
  {
  }

  /** aslb; rola; tab; sbca #0; sba */
  lemma SarD7Right(s: Regs)
    ensures Sgn16(RD(RegExec([Un(Asl, B), ROLA, Inh(Tab), Alu(Sbc, A, Imm(0)), Inh(Sba)], s))) == Sgn16(RD(s)) / 128
  {
    hide RegExec, RegStep;
    var a7, ra := s.a / 128, s.a % 128;
    var b7, rb := s.b / 128, s.b % 128;
    Asled(B, s, b7, rb);
    var s1 := RegStep(Un(Asl, B), s);
    Roled(A, s1, a7, ra);
    var s2 := RegStep(ROLA, s1);
    Tbaed(s2);
    var s3 := RegStep(Inh(Tab), s2);
    SbcSba(s3);
    Reg5(Un(Asl, B), ROLA, Inh(Tab), Alu(Sbc, A, Imm(0)), Inh(Sba), s);
    DivModUnique(Sgn16(RD(s)), 2 * ra + b7 - 256 * a7, rb, 128);
  }

  lemma SbcSba(s: Regs)
    requires s.a == s.b
    ensures var t := RegStep(Inh(Sba), RegStep(Alu(Sbc, A, Imm(0)), s)); t.b == s.b && t.a == if s.c then 255 else 0
  {
  }
}
