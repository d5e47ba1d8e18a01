/** gen_shl and gen_shr (codegen.c): for every count the printed code shifts D or B by it. */
module GenShifts {
  import opened Arith
  import opened Bits
  import opened CTypes
  import opened Machine
  import opened Shifts

  /** X and the stack pointer are kept, and of memory all but the free byte on top of the stack. */
  predicate Keeps(s: State, t: State) {
    t.x == s.x && t.sp == s.sp && t.mem == s.mem[s.sp := t.mem[s.sp]]
  }

  predicate ShiftedLeft(size: nat, n: nat, s: State, t: State) {
    Keeps(s, t) &&
    if size == 1 then t.b == (s.b * Pow2(n)) % 256 && t.a == s.a else D(t) == (D(s) * Pow2(n)) % 65536
  }

  /** Division by a power of two rounds down, which is what the evaluator's `>>` does. */
  predicate ShiftedRight(ty: Type, n: nat, s: State, t: State) {
    Keeps(s, t) &&
    if ty.Size() == 1 then
      t.a == s.a && if ty.unsigned then t.b == s.b / Pow2(n) else Sgn8(t.b) == Sgn8(s.b) / Pow2(n)
    else if ty.unsigned then D(t) == D(s) / Pow2(n) else Sgn16(D(t)) == Sgn16(D(s)) / Pow2(n)
  }

  ghost predicate ShiftsLeft(size: nat, n: nat, code: seq<Instr>) {
    forall orc, s :: Run(orc, code, s).Fall? && ShiftedLeft(size, n, s, Run(orc, code, s).s)
  }

  ghost predicate ShiftsRight(ty: Type, n: nat, code: seq<Instr>) {
    forall orc, s :: Run(orc, code, s).Fall? && ShiftedRight(ty, n, s, Run(orc, code, s).s)
  }

  // ----- plain code -----

  predicate LeftRegs(size: nat, n: nat, s: Regs, t: Regs) {
    if size == 1 then t.b == (s.b * Pow2(n)) % 256 && t.a == s.a else RD(t) == (RD(s) * Pow2(n)) % 65536
  }

  predicate RightRegs(ty: Type, n: nat, s: Regs, t: Regs) {
    if ty.Size() == 1 then
      t.a == s.a && if ty.unsigned then t.b == s.b / Pow2(n) else Sgn8(t.b) == Sgn8(s.b) / Pow2(n)
    else if ty.unsigned then RD(t) == RD(s) / Pow2(n) else Sgn16(RD(t)) == Sgn16(RD(s)) / Pow2(n)
  }

  lemma PlainLeft(size: nat, n: nat, code: seq<Instr>)
    requires PlainCode(code) && forall s :: LeftRegs(size, n, s, RegExec(code, s))
    ensures ShiftsLeft(size, n, code)
  {
    hide Exec, RegExec, Pow2, Run;
    forall orc, s
      ensures Run(orc, code, s).Fall? && ShiftedLeft(size, n, s, Run(orc, code, s).s)
    {
      RegExecRight(code, s);
      RunStraight(orc, code, s);
      assert LeftRegs(size, n, Registers(s), RegExec(code, Registers(s)));
      assert s.mem == s.mem[s.sp := s.mem[s.sp]];
    }
  }

  lemma PlainRight(ty: Type, n: nat, code: seq<Instr>)
    requires PlainCode(code) && forall s :: RightRegs(ty, n, s, RegExec(code, s))
    ensures ShiftsRight(ty, n, code)
  {
    hide Exec, RegExec, Pow2, Run, Sgn8, Sgn16;
    forall orc, s
      ensures Run(orc, code, s).Fall? && ShiftedRight(ty, n, s, Run(orc, code, s).s)
    {
      RegExecRight(code, s);
      RunStraight(orc, code, s);
      assert RightRegs(ty, n, Registers(s), RegExec(code, Registers(s)));
      assert s.mem == s.mem[s.sp := s.mem[s.sp]];
    }
  }

  // ----- arithmetic of wide counts -----

  lemma AllOut(n: nat, w: nat, x: int)
    requires n >= w
    ensures (x * Pow2(n)) % Pow2(w) == 0 && Pow2(n) >= Pow2(w)
  {
    Pow2Add(w, n - w);
    var p, q := Pow2(w), Pow2(n - w);
    TakeOut(x, p, q);
    ModShift(0, x * q, p);
    DivModUnique(0, 0, 0, p);
    MulMonotonic(1, q, p);
  }

  lemma TakeOut(x: int, p: int, q: int)
    ensures x * (p * q) == p * (x * q)
  {
  }

  lemma NothingLeft(x: int, p: nat)
    requires 0 <= x + p < 2 * p
    ensures x / p == if x < 0 then -1 else 0
  {
    if x < 0 {
      DivModUnique(x, -1, x + p, p);
    } else {
      DivModUnique(x, 0, x, p);
    }
  }

  lemma HighProduct(a: Byte, b: Byte, p: nat)
    ensures 256 * ((b * p) % 256) == ((256 * a + b) * (256 * p)) % 65536
  {
    var v := b * p;
    var q, r := v / 256, v % 256;
    assert (256 * a + b) * (256 * p) == 65536 * (a * p) + 256 * v;
    assert (a * p + q) * 65536 == 65536 * (a * p) + 65536 * q;
    DivModUnique((256 * a + b) * (256 * p), a * p + q, 256 * r, 65536);
  }

  /** Shifting a word by 8 and more is shifting its low byte into the place of the high one. */
  lemma LowToHigh(a: Byte, b: Byte, n: nat)
    requires n >= 8
    ensures 256 * ((b * Pow2(n - 8)) % 256) == (Cat(a, b) * Pow2(n)) % 65536
  {
    Pow2Add(8, n - 8);
    Pow2Values();
    HighProduct(a, b, Pow2(n - 8));
  }

  lemma HighToLow(h: int, b: Byte, n: nat)
    requires n >= 8
    ensures (256 * h + b) / Pow2(n) == h / Pow2(n - 8)
  {
    var p := Pow2(n - 8);
    Pow2Add(8, n - 8);
    Pow2Values();
    var q, r := h / p, h % p;
    assert h == q * p + r;
    assert (256 * p) * q == 256 * (q * p);
    MulMonotonic(r, p - 1, 256);
    DivModUnique(256 * h + b, q, 256 * r + b, 256 * p);
  }

  // ----- gen_shl -----

  lemma ShlOutByte(n: nat)
    requires n >= 8
    ensures ShiftsLeft(1, n, [Un(Clr, B)])
  {
    forall s
      ensures LeftRegs(1, n, s, RegExec([Un(Clr, B)], s))
    {
      Reg1(Un(Clr, B), s);
      Pow2Values();
      AllOut(n, 8, s.b);
    }
    PlainLeft(1, n, [Un(Clr, B)]);
  }

  lemma ShlOutWord(n: nat)
    requires n >= 16
    ensures ShiftsLeft(2, n, [Un(Clr, B), Un(Clr, A)])
  {
    forall s
      ensures LeftRegs(2, n, s, RegExec([Un(Clr, B), Un(Clr, A)], s))
    {
      Reg2(Un(Clr, B), Un(Clr, A), s);
      Pow2Values();
      AllOut(n, 16, RD(s));
    }
    PlainLeft(2, n, [Un(Clr, B), Un(Clr, A)]);
  }

  lemma ShlByte(n: nat)
    ensures ShiftsLeft(1, n, Times(n, [Un(Asl, B)]))
  {
    hide RegExec, RegStep, Pow2;
    forall s
      ensures PlainCode(Times(n, [Un(Asl, B)])) && LeftRegs(1, n, s, RegExec(Times(n, [Un(Asl, B)]), s))
    {
      Doubled(B, n, s);
    }
    TimesPlain(n, [Un(Asl, B)]);
    PlainLeft(1, n, Times(n, [Un(Asl, B)]));
  }

  lemma ShlByte6()
    ensures ShiftsLeft(1, 6, [RORB, RORB, RORB, AND192])
  {
    hide RegExec, RegStep, Pow2;
    Powers();
    forall s
      ensures LeftRegs(1, 6, s, RegExec([RORB, RORB, RORB, AND192], s))
    {
      ShlB6Right(s);
    }
    PlainLeft(1, 6, [RORB, RORB, RORB, AND192]);
  }

  lemma ShlByte7()
    ensures ShiftsLeft(1, 7, [RORB, RORB, AND128])
  {
    hide RegExec, RegStep, Pow2;
    Powers();
    forall s
      ensures LeftRegs(1, 7, s, RegExec([RORB, RORB, AND128], s))
    {
      ShlB7Right(s);
    }
    PlainLeft(1, 7, [RORB, RORB, AND128]);
  }

  const EXCHANGE: seq<Instr> := [Psh(A), Inh(Tba), Pul(B)]

  lemma WrapBack(sp: Word)
    ensures Wrap(Wrap(sp - 1) + 1) == sp
  {
  }

  lemma Exchanged(s: State)
    ensures var t := Exec(EXCHANGE, s); t == s.(a := s.b, b := s.a, f := t.f, mem := s.mem[s.sp := s.a])
  {
    hide Exec, Step, MoveFlags;
    Exec3(Psh(A), Inh(Tba), Pul(B), s);
    StepPush(A, s);
    StepMove(Step(Psh(A), s));
    StepPull(B, Step(Inh(Tba), Step(Psh(A), s)));
    WrapBack(s.sp);
  }

  lemma ShlWord6()
    ensures ShiftsLeft(2, 6, EXCHANGE + [Un(Lsr, B), RORA, RORB, RORA, RORB, AND192])
  {
    hide Exec, RegExec, RegStep, Run, Pow2;
    var rest := [Un(Lsr, B), RORA, RORB, RORA, RORB, AND192];
    var code := EXCHANGE + rest;
    Powers();
    forall orc, s
      ensures Run(orc, code, s).Fall? && ShiftedLeft(2, 6, s, Run(orc, code, s).s)
    {
      Exchanged(s);
      var u := Exec(EXCHANGE, s);
      ExecAppend(EXCHANGE, rest, s);
      RegExecRight(rest, u);
      ShlD6Right(Registers(u));
      assert StraightCode(code);
      RunStraight(orc, code, s);
    }
  }

  lemma ShlWord7()
    ensures ShiftsLeft(2, 7, [Un(Lsr, A), Inh(Tba), RORA, RORB, AND128])
  {
    hide RegExec, RegStep, Pow2;
    Powers();
    forall s
      ensures LeftRegs(2, 7, s, RegExec([Un(Lsr, A), Inh(Tba), RORA, RORB, AND128], s))
    {
      ShlD7Right(s);
    }
    PlainLeft(2, 7, [Un(Lsr, A), Inh(Tba), RORA, RORB, AND128]);
  }

  lemma ShlWord14()
    ensures ShiftsLeft(2, 14, [Un(Clr, A), Un(Lsr, B), RORA, Un(Lsr, B), RORA, Un(Clr, B)])
  {
    hide RegExec, RegStep, Pow2;
    Powers();
    var code := [Un(Clr, A), Un(Lsr, B), RORA, Un(Lsr, B), RORA, Un(Clr, B)];
    forall s
      ensures LeftRegs(2, 14, s, RegExec(code, s))
    {
      ShlD14Right(s);
    }
    PlainLeft(2, 14, code);
  }

  lemma ShlWord15()
    ensures ShiftsLeft(2, 15, [Un(Clr, A), Un(Lsr, B), RORA, Un(Clr, B)])
  {
    hide RegExec, RegStep, Pow2;
    Powers();
    var code := [Un(Clr, A), Un(Lsr, B), RORA, Un(Clr, B)];
    forall s
      ensures LeftRegs(2, 15, s, RegExec(code, s))
    {
      ShlD15Right(s);
    }
    PlainLeft(2, 15, code);
  }

  lemma ShlWordHigh(n: nat)
    requires n >= 8
    ensures ShiftsLeft(2, n, [Inh(Tba), Un(Clr, B)] + Times(n - 8, [Un(Asl, A)]))
  {
    hide RegExec, RegStep, Pow2;
    var c1, c2 := [Inh(Tba), Un(Clr, B)], Times(n - 8, [Un(Asl, A)]);
    TimesPlain(n - 8, [Un(Asl, A)]);
    forall s
      ensures PlainCode(c1 + c2) && LeftRegs(2, n, s, RegExec(c1 + c2, s))
    {
      RegAppend(c1, c2, s);
      Reg2(Inh(Tba), Un(Clr, B), s);
      Tbaed(s);
      Clred(B, RegStep(Inh(Tba), s));
      Doubled(A, n - 8, RegExec(c1, s));
      LowToHigh(s.a, s.b, n);
    }
    PlainLeft(2, n, c1 + c2);
  }

  lemma ShlWord(n: nat)
    ensures ShiftsLeft(2, n, Times(n, ASLD))
  {
    hide RegExec, RegStep, Pow2;
    TimesPlain(n, ASLD);
    forall s
      ensures LeftRegs(2, n, s, RegExec(Times(n, ASLD), s))
    {
      DoubledD(n, s);
    }
    PlainLeft(2, n, Times(n, ASLD));
  }

  method GenShl(ty: Type, val: nat) returns (code: seq<Instr>)
    requires ty.Size() == 1 || ty.Size() == 2
    ensures ShiftsLeft(ty.Size(), val, code)
  {
    hide ShiftsLeft;
    code := [];
    if val == 0 {
      if ty.Size() == 1 { ShlByte(0); } else { ShlWord(0); }
      return;
    }
    if val >= ty.Size() * 8 {
      if ty.Size() == 1 {
        ShlOutByte(val);
        return [Un(Clr, B)];
      }
      ShlOutWord(val);
      return [Un(Clr, B), Un(Clr, A)];
    }
    if ty.Size() == 1 {
      if val == 6 {
        ShlByte6();
        return [RORB, RORB, RORB, AND192];
      }
      if val == 7 {
        ShlByte7();
        return [RORB, RORB, AND128];
      }
      for i := 0 to val
        invariant code == Times(i, [Un(Asl, B)])
      {
        code := code + [Un(Asl, B)];
      }
      ShlByte(val);
      return;
    }
    if val == 6 {
      ShlWord6();
      return EXCHANGE + [Un(Lsr, B), RORA, RORB, RORA, RORB, AND192];
    }
    if val == 7 {
      ShlWord7();
      return [Un(Lsr, A), Inh(Tba), RORA, RORB, AND128];
    }
    if val == 14 || val == 15 {
      code := [Un(Clr, A)];
      for i := 0 to 16 - val
        invariant code == [Un(Clr, A)] + (if i == 0 then [] else if i == 1 then [Un(Lsr, B), RORA] else [Un(Lsr, B), RORA, Un(Lsr, B), RORA])
      {
        code := code + [Un(Lsr, B), RORA];
      }
      code := code + [Un(Clr, B)];
      ShlWord14();
      ShlWord15();
      assert code == if val == 14 then [Un(Clr, A), Un(Lsr, B), RORA, Un(Lsr, B), RORA, Un(Clr, B)] else [Un(Clr, A), Un(Lsr, B), RORA, Un(Clr, B)];
      return;
    }
    if val >= 8 {
      code := [Inh(Tba), Un(Clr, B)];
      for i := 0 to val - 8
        invariant code == [Inh(Tba), Un(Clr, B)] + Times(i, [Un(Asl, A)])
      {
        code := code + [Un(Asl, A)];
      }
      ShlWordHigh(val);
      return;
    }
    for i := 0 to val
      invariant code == Times(i, ASLD)
    {
      code := code + [Un(Asl, B), Un(Rol, A)];
    }
    ShlWord(val);
  }

  // ----- gen_shr -----

  lemma ShrOut(ty: Type, n: nat)
    requires n >= 8 * ty.Size()
    ensures ty.Size() == 1 && ty.unsigned ==> ShiftsRight(ty, n, [Un(Clr, B)])
    ensures ty.Size() == 2 && ty.unsigned ==> ShiftsRight(ty, n, [Un(Clr, B), Un(Clr, A)])
    ensures ty.Size() == 1 && !ty.unsigned ==> ShiftsRight(ty, n, [Un(Asl, B), Alu(Ld, B, Imm(0)), Alu(Sbc, B, Imm(0))])
    ensures ty.Size() == 2 && !ty.unsigned ==> ShiftsRight(ty, n, [Un(Clr, B), Un(Asl, A), Alu(Sbc, B, Imm(0)), Inh(Tba)])
  {
    var code :=
      if ty.unsigned then (if ty.Size() == 1 then [Un(Clr, B)] else [Un(Clr, B), Un(Clr, A)])
      else if ty.Size() == 1 then [Un(Asl, B), Alu(Ld, B, Imm(0)), Alu(Sbc, B, Imm(0))]
      else [Un(Clr, B), Un(Asl, A), Alu(Sbc, B, Imm(0)), Inh(Tba)];
    if ty.Size() <= 2 {
      forall s
        ensures RightRegs(ty, n, s, RegExec(code, s))
      {
        ShrOutRegs(ty, n, code, s);
      }
      PlainRight(ty, n, code);
    }
  }

  lemma ShrOutRegs(ty: Type, n: nat, code: seq<Instr>, s: Regs)
    requires n >= 8 * ty.Size() && ty.Size() <= 2
    requires code ==
      if ty.unsigned then (if ty.Size() == 1 then [Un(Clr, B)] else [Un(Clr, B), Un(Clr, A)])
      else if ty.Size() == 1 then [Un(Asl, B), Alu(Ld, B, Imm(0)), Alu(Sbc, B, Imm(0))]
      else [Un(Clr, B), Un(Asl, A), Alu(Sbc, B, Imm(0)), Inh(Tba)]
    ensures PlainCode(code) && RightRegs(ty, n, s, RegExec(code, s))
  {
    hide RegExec, Pow2, RegStep;
    Pow2Values();
    AllOut(n, 8 * ty.Size(), 0);
    var x := if ty.Size() == 1 then (if ty.unsigned then s.b else Sgn8(s.b)) else if ty.unsigned then RD(s) else Sgn16(RD(s));
    NothingLeft(x, Pow2(n));
    if ty.unsigned {
      Clred(B, s);
      Reg1(Un(Clr, B), s);
      Reg2(Un(Clr, B), Un(Clr, A), s);
      Clred(A, RegStep(Un(Clr, B), s));
    } else if ty.Size() == 1 {
      SarBRight(s);
    } else {
      SarD15Right(s);
    }
  }

  lemma ShrByte(ty: Type, n: nat)
    requires ty.Size() == 1
    ensures ShiftsRight(ty, n, Times(n, [if ty.unsigned then Un(Lsr, B) else Un(Asr, B)]))
  {
    hide RegExec, RegStep, Pow2, Sgn8;
    var one := if ty.unsigned then Un(Lsr, B) else Un(Asr, B);
    TimesPlain(n, [one]);
    forall s
      ensures RightRegs(ty, n, s, RegExec(Times(n, [one]), s))
    {
      if ty.unsigned {
        Halved(n, s);
      } else {
        SignedHalved(n, s);
      }
    }
    PlainRight(ty, n, Times(n, [one]));
  }

  lemma ShrWord(ty: Type, n: nat)
    requires ty.Size() == 2
    ensures ShiftsRight(ty, n, Times(n, if ty.unsigned then LSRD else ASRD))
  {
    hide RegExec, RegStep, Pow2, Sgn16;
    var one := if ty.unsigned then LSRD else ASRD;
    TimesPlain(n, one);
    forall s
      ensures RightRegs(ty, n, s, RegExec(Times(n, one), s))
    {
      if ty.unsigned {
        HalvedD(n, s);
      } else {
        SignedHalvedD(n, s);
      }
    }
    PlainRight(ty, n, Times(n, one));
  }

  const SHR6: seq<Instr> := [Un(Asl, B), ROLA, ROLB, ROLA, ROLB]
  const SHR6_TAIL: seq<Instr> := [Psh(B), Inh(Tab), Pul(A), Logic(BitAnd, A, Imm(3))]

  lemma AndThree(s: State)
    ensures var t := Step(Logic(BitAnd, A, Imm(3)), s); t == s.(a := s.a % 4, f := t.f)
  {
    hide Op8;
    TopBits(s.a);
  }

  lemma ShrTail(s: State)
    ensures var t := Exec(SHR6_TAIL, s); t == s.(a := s.b % 4, b := s.a, f := t.f, mem := s.mem[s.sp := s.b])
  {
    hide Op8, Exec, Step, MoveFlags;
    Exec4(Psh(B), Inh(Tab), Pul(A), Logic(BitAnd, A, Imm(3)), s);
    var s1 := Step(Psh(B), s);
    var s2 := Step(Inh(Tab), s1);
    var s3 := Step(Pul(A), s2);
    StepPush(B, s);
    StepMove(s1);
    StepPull(A, s2);
    WrapBack(s.sp);
    AndThree(s3);
  }

  lemma ShrWord6(ty: Type)
    requires ty.Size() == 2 && ty.unsigned
    ensures ShiftsRight(ty, 6, SHR6 + SHR6_TAIL)
  {
    hide Exec, RegExec, RegStep, Run, Pow2;
    var code := SHR6 + SHR6_TAIL;
    Powers();
    forall orc, s
      ensures Run(orc, code, s).Fall? && ShiftedRight(ty, 6, s, Run(orc, code, s).s)
    {
      RegExecRight(SHR6, s);
      ShrD6Right(Registers(s));
      var u := Exec(SHR6, s);
      ExecAppend(SHR6, SHR6_TAIL, s);
      ShrTail(u);
      RunStraight(orc, code, s);
    }
  }

  lemma ShrWordSpecial(ty: Type)
    requires ty.Size() == 2 && ty.unsigned
    ensures ShiftsRight(ty, 7, [Un(Asl, B), ROLA, Inh(Tab), ROLA, Logic(BitAnd, A, Imm(1))])
    ensures ShiftsRight(ty, 14, [Un(Clr, B), Un(Asl, A), ROLB, Un(Asl, A), ROLB, Un(Clr, A)])
    ensures ShiftsRight(ty, 15, [Un(Clr, B), Un(Asl, A), ROLB, Un(Clr, A)])
  {
    hide RegExec, RegStep, Pow2;
    Powers();
    var c7 := [Un(Asl, B), ROLA, Inh(Tab), ROLA, Logic(BitAnd, A, Imm(1))];
    var c14, c15 := [Un(Clr, B), Un(Asl, A), ROLB, Un(Asl, A), ROLB, Un(Clr, A)], [Un(Clr, B), Un(Asl, A), ROLB, Un(Clr, A)];
    forall s
      ensures RightRegs(ty, 7, s, RegExec(c7, s)) && RightRegs(ty, 14, s, RegExec(c14, s)) && RightRegs(ty, 15, s, RegExec(c15, s))
    {
      ShrD7Right(s);
      ShrD14Right(s);
      ShrD15Right(s);
    }
    PlainRight(ty, 7, c7);
    PlainRight(ty, 14, c14);
    PlainRight(ty, 15, c15);
  }

  lemma SarWordSpecial(ty: Type)
    requires ty.Size() == 2 && !ty.unsigned
    ensures ShiftsRight(ty, 7, [Un(Asl, B), ROLA, Inh(Tab), Alu(Sbc, A, Imm(0)), Inh(Sba)])
    ensures ShiftsRight(ty, 14, [Un(Clr, B), Un(Asl, A), Alu(Sbc, B, Imm(0)), Un(Asl, A), Inh(Tba), ROLB])
    ensures ShiftsRight(ty, 15, [Un(Clr, B), Un(Asl, A), Alu(Sbc, B, Imm(0)), Inh(Tba)])
  {
    hide RegExec, RegStep, Pow2;
    Powers();
    var c7 := [Un(Asl, B), ROLA, Inh(Tab), Alu(Sbc, A, Imm(0)), Inh(Sba)];
    var c14 := [Un(Clr, B), Un(Asl, A), Alu(Sbc, B, Imm(0)), Un(Asl, A), Inh(Tba), ROLB];
    var c15 := [Un(Clr, B), Un(Asl, A), Alu(Sbc, B, Imm(0)), Inh(Tba)];
    forall s
      ensures RightRegs(ty, 7, s, RegExec(c7, s)) && RightRegs(ty, 14, s, RegExec(c14, s)) && RightRegs(ty, 15, s, RegExec(c15, s))
    {
      SarD7Right(s);
      SarD14Right(s);
      SarD15Right(s);
      NothingLeft(Sgn16(RD(s)), 32768);
    }
    PlainRight(ty, 7, c7);
    PlainRight(ty, 14, c14);
    PlainRight(ty, 15, c15);
  }

  lemma ShrWordHigh(ty: Type, n: nat)
    requires ty.Size() == 2 && ty.unsigned && n >= 8
    ensures ShiftsRight(ty, n, [Inh(Tab)] + Times(n - 8, [Un(Lsr, B)]) + [Un(Clr, A)])
  {
    hide RegExec, RegStep, Pow2;
    var c1, c2, c3 := [Inh(Tab)], Times(n - 8, [Un(Lsr, B)]), [Un(Clr, A)];
    TimesPlain(n - 8, [Un(Lsr, B)]);
    forall s
      ensures PlainCode(c1 + c2 + c3) && RightRegs(ty, n, s, RegExec(c1 + c2 + c3, s))
    {
      RegAppend(c1, c2, s);
      RegAppend(c1 + c2, c3, s);
      Reg1(Inh(Tab), s);
      Tbaed(s);
      Halved(n - 8, RegExec(c1, s));
      Reg1(Un(Clr, A), RegExec(c1 + c2, s));
      Clred(A, RegExec(c1 + c2, s));
      HighToLow(s.a, s.b, n);
    }
    PlainRight(ty, n, c1 + c2 + c3);
  }

  /** tab; bpl past the deca; deca; sba */
  function SignFill(lab: nat): seq<Instr> { [Inh(Tab)] + ([Br(Pl, lab)] + ([Instr.Un(Dec, A)] + ([Label(lab)] + [Inh(Sba)]))) }

  lemma SignFilled(orc: Oracle, lab: nat, s: State)
    ensures var o := Run(orc, SignFill(lab), s);
      o.Fall? && o.s == s.(a := if s.a >= 128 then 255 else 0, b := s.a, f := o.s.f)
  {
    hide Run, Take, SubFlags;
    var last := [Inh(Sba)];
    var tail := [Label(lab)] + last;
    RunStep(orc, Inh(Tab), [Br(Pl, lab)] + ([Un(Dec, A)] + tail), s);
    var s1 := Step(Inh(Tab), s);
    RunBr(orc, Pl, lab, [Un(Dec, A)] + tail, s1);
    if Machine.Holds(Pl, s1.f) {
      TakePast(orc, lab, [Un(Dec, A)], tail, s1);
      TakeHere(orc, lab, last, s1);
      SbaRuns(orc, s1);
    } else {
      RunStep(orc, Un(Dec, A), tail, s1);
      var s2 := Step(Un(Dec, A), s1);
      RunLabel(orc, lab, last, s2);
      SbaRuns(orc, s2);
    }
  }

  lemma SbaRuns(orc: Oracle, s: State)
    ensures Run(orc, [Inh(Sba)], s) == Fall(s.(a := Wrap8(s.a - s.b), f := SubFlags(s.a, s.b, false)))
  {
    hide SubFlags, Exec, Step, Run, AddFlags;
    RunStraight(orc, [Inh(Sba)], s);
    Exec1(Inh(Sba), s);
    AddedSubtracted(s);
  }

  lemma SarWordHigh(ty: Type, n: nat, lab: nat)
    requires ty.Size() == 2 && !ty.unsigned && n >= 8
    ensures ShiftsRight(ty, n, SignFill(lab) + Times(n - 8, [Un(Asr, B)]))
  {
    hide Exec, RegExec, RegStep, Run, Pow2, SignFill;
    var c1, c2 := SignFill(lab), Times(n - 8, [Un(Asr, B)]);
    TimesPlain(n - 8, [Un(Asr, B)]);
    forall orc, s
      ensures Run(orc, c1 + c2, s).Fall? && ShiftedRight(ty, n, s, Run(orc, c1 + c2, s).s)
    {
      SignFilled(orc, lab, s);
      var u := Run(orc, c1, s).s;
      RunAppend(orc, c1, c2, s);
      RegExecRight(c2, u);
      RunStraight(orc, c2, u);
      SignedHalved(n - 8, Registers(u));
      assert s.mem == s.mem[s.sp := s.mem[s.sp]];
      SarHighValue(s.a, s.b, Exec(c2, u).b, n);
    }
  }

  lemma SarHighValue(a: Byte, b: Byte, r: Byte, n: nat)
    requires n >= 8 && Sgn8(r) == Sgn8(a) / Pow2(n - 8)
    ensures Sgn16(Cat(if a >= 128 then 255 else 0, r)) == Sgn16(Cat(a, b)) / Pow2(n)
  {
    HighToLow(Sgn8(a), b, n);
    SignKept(Sgn8(a), Pow2(n - 8));
  }

  lemma SignKept(x: int, p: nat)
    requires p > 0
    ensures x / p < 0 <==> x < 0
  {
    var q := x / p;
    assert x == q * p + x % p;
    if q < 0 {
      MulMonotonic(q, -1, p);
    } else {
      MulMonotonic(0, q, p);
    }
  }

  method GenShr(ty: Type, val: nat, lab: nat) returns (code: seq<Instr>)
    requires ty.Size() == 1 || ty.Size() == 2
    ensures ShiftsRight(ty, val, code)
  {
    hide ShiftsRight;
    code := [];
    if val == 0 {
      if ty.Size() == 1 { ShrByte(ty, 0); } else { ShrWord(ty, 0); }
      return;
    }
    if val >= ty.Size() * 8 {
      ShrOut(ty, val);
      if ty.unsigned {
        if ty.Size() == 1 { return [Un(Clr, B)]; }
        return [Un(Clr, B), Un(Clr, A)];
      } else {
        if ty.Size() == 1 { return [Un(Asl, B), Alu(Ld, B, Imm(0)), Alu(Sbc, B, Imm(0))]; }
        return [Un(Clr, B), Un(Asl, A), Alu(Sbc, B, Imm(0)), Inh(Tba)];
      }
    }
    if ty.Size() == 1 {
      for i := 0 to val
        invariant code == Times(i, [if ty.unsigned then Un(Lsr, B) else Un(Asr, B)])
      {
        code := code + [if ty.unsigned then Un(Lsr, B) else Un(Asr, B)];
      }
      ShrByte(ty, val);
      return;
    }
    if ty.unsigned {
      if val <= 5 {
        for i := 0 to val
          invariant code == Times(i, LSRD)
        {
          code := code + [Un(Lsr, A), Un(Ror, B)];
        }
        ShrWord(ty, val);
      } else if val == 6 {
        ShrWord6(ty);
        code := SHR6 + SHR6_TAIL;
      } else if val == 7 {
        ShrWordSpecial(ty);
        code := [Un(Asl, B), ROLA, Inh(Tab), ROLA, Logic(BitAnd, A, Imm(1))];
      } else if val <= 13 {
        code := [Inh(Tab)];
        for i := 8 to val
          invariant code == [Inh(Tab)] + Times(i - 8, [Un(Lsr, B)])
        {
          code := code + [Un(Lsr, B)];
        }
        code := code + [Un(Clr, A)];
        ShrWordHigh(ty, val);
      } else {
        code := [Un(Clr, B)];
        for i := val to 16
          invariant code == [Un(Clr, B)] + (if i == val then [] else if i == val + 1 then [Un(Asl, A), ROLB] else [Un(Asl, A), ROLB, Un(Asl, A), ROLB])
        {
          code := code + [Un(Asl, A), ROLB];
        }
        code := code + [Un(Clr, A)];
        ShrWordSpecial(ty);
        assert code == if val == 14 then [Un(Clr, B), Un(Asl, A), ROLB, Un(Asl, A), ROLB, Un(Clr, A)] else [Un(Clr, B), Un(Asl, A), ROLB, Un(Clr, A)];
      }
    } else {
      if val <= 6 {
        for i := 0 to val
          invariant code == Times(i, ASRD)
        {
          code := code + [Un(Asr, A), Un(Ror, B)];
        }
        ShrWord(ty, val);
      } else if val == 7 {
        SarWordSpecial(ty);
        code := [Un(Asl, B), ROLA, Inh(Tab), Alu(Sbc, A, Imm(0)), Inh(Sba)];
      } else if val <= 13 {
        code := SignFill(lab);
        for i := 8 to val
          invariant code == SignFill(lab) + Times(i - 8, [Un(Asr, B)])
        {
          code := code + [Un(Asr, B)];
        }
        SarWordHigh(ty, val, lab);
      } else {
        SarWordSpecial(ty);
        code := if val == 14 then [Un(Clr, B), Un(Asl, A), Alu(Sbc, B, Imm(0)), Un(Asl, A), Inh(Tba), ROLB]
                else [Un(Clr, B), Un(Asl, A), Alu(Sbc, B, Imm(0)), Inh(Tba)];
      }
    }
  }
}
