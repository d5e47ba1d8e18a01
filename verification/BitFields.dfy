/** Loading from and assigning to bit-fields: the code of gen_bitfield.c. */
module BitFields {
  import opened Arith
  import opened Bits
  import opened CTypes
  import opened Machine
  import opened Fields
  import opened Shifts
  import opened GenShifts
  import opened LongChains
  import opened Muls

  /** A bit-field within its unit, as struct_decl leaves it. */
  datatype Spec = Spec(off: nat, w: nat, signed: bool)

  predicate InUnit(m: Spec) { 0 < m.w && m.off + m.w <= 16 }

  const UINT: Type := TypeRec(KInt, true)

  // ----- words and their bytes -----

  lemma WordOp(op: BitOp, a: Byte, b: Byte, c: Byte, d: Byte)
    ensures Bitwise(op, Cat(a, b), Cat(c, d), 16) == Cat(Op8(op, a, c), Op8(op, b, d))
  {
    hide Bitwise;
    assert Pow256(1) == 256 * Pow256(0) && Pow256(0) == 1;
    NextBits(op, b, d, a, c, 1);
  }

  predicate Masks(n: Word, s: Regs, t: Regs) { RD(t) == Bitwise(BitAnd, RD(s), n, 16) }

  /** and_i: bytes of the constant that are 0 or 255 are not looked at. */
  method AndI(n: Word) returns (code: seq<Instr>)
    ensures PlainCode(code) && forall s :: Masks(n, s, RegExec(code, s))
  {
    hide Bitwise, RegExec, RegStep;
    var hi, lo := n / 256, n % 256;
    code := if lo == 0 then [Un(Clr, B)] else if lo != 255 then [Logic(BitAnd, B, Imm(lo))] else [];
    var more := if hi == 0 then [Un(Clr, A)] else if hi != 255 then [Logic(BitAnd, A, Imm(hi))] else [];
    forall s
      ensures PlainCode(code + more) && Masks(n, s, RegExec(code + more, s))
    {
      RegAppend(code, more, s);
      AndByte(B, lo, code, s);
      AndByte(A, hi, more, RegExec(code, s));
      WordOp(BitAnd, s.a, s.b, hi, lo);
    }
    code := code + more;
  }

  lemma AndByte(r: Reg, n: Byte, code: seq<Instr>, s: Regs)
    requires code == if n == 0 then [Un(Clr, r)] else if n != 255 then [Logic(BitAnd, r, Imm(n))] else []
    ensures PlainCode(code) && var t := RegExec(code, s); t == With(r, Op8(BitAnd, RegOf(r, s), n), t.c, s)
  {
    hide Bitwise, RegExec, Op8;
    Shortcuts(BitAnd, RegOf(r, s));
    if n == 0 {
      Reg1(Un(Clr, r), s);
    } else if n != 255 {
      Reg1(Logic(BitAnd, r, Imm(n)), s);
    } else {
      Nothing(s);
    }
  }

  // ----- sign extension -----

  lemma {:induction false} OrUpper(x: int, n: nat, w: nat)
    requires 0 <= x < Pow2(w) && w <= n
    ensures Bitwise(BitOr, x, Pow2(n) - Pow2(w), n) == x + Pow2(n) - Pow2(w)
    decreases n
  {
    hide Bitwise;
    if w == 0 {
      OrOnes(x, n);
    } else {
      Unfold(BitOr, x, Pow2(n) - Pow2(w), n);
      OrUpper(x / 2, n - 1, w - 1);
      DivModUnique(Pow2(n) - Pow2(w), Pow2(n - 1) - Pow2(w - 1), 0, 2);
    }
  }

  lemma {:induction false} TopBit(x: int, n: nat, w: nat)
    requires 0 < w <= n && 0 <= x < Pow2(w)
    ensures Bitwise(BitAnd, x, Pow2(w - 1), n) == if x >= Pow2(w - 1) then Pow2(w - 1) else 0
    decreases n
  {
    hide Bitwise;
    Unfold(BitAnd, x, Pow2(w - 1), n);
    if w == 1 {
      AndZero(x / 2, n - 1);
    } else {
      TopBit(x / 2, n - 1, w - 1);
      DivModUnique(Pow2(w - 1), Pow2(w - 2), 0, 2);
    }
  }

  lemma ByteMasks(b: Byte, w: nat)
    requires 0 < w <= 8 && b < Pow2(w)
    ensures Pow2(w - 1) < 256 && 0 <= 256 - Pow2(w) < 256
    ensures Op8(BitAnd, b, Pow2(w - 1)) == 0 <==> b < Pow2(w - 1)
    ensures Op8(BitOr, b, 256 - Pow2(w)) == b + 256 - Pow2(w)
  {
    hide Bitwise, Pow2;
    Pow2Values();
    Pow2Monotonic(w, 8);
    HalfPower(w);
    TopBit(b, 8, w);
    OrUpper(b, 8, w);
  }

  lemma HalfPower(w: nat)
    requires w > 0
    ensures Pow2(w) == 2 * Pow2(w - 1)
  {
  }

  /** The instruction that tests the sign, and those that fill in ones above it. */
  function SignTest(w: nat): Instr
    requires 0 < w < 16
  {
    Pow2Small8(w);
    if w <= 8 then BitTest(B, Imm(Pow2(w - 1))) else BitTest(A, Imm(Pow2(w - 9)))
  }

  function SignOnes(w: nat): seq<Instr>
    requires 0 < w < 16
  {
    Pow2Small8(w);
    if w < 8 then [Logic(BitOr, B, Imm(256 - Pow2(w))), Logic(BitOr, A, Imm(255))]
    else if w == 8 then [Logic(BitOr, A, Imm(255))]
    else [Logic(BitOr, A, Imm(256 - Pow2(w - 8)))]
  }

  lemma Pow2Small8(w: nat)
    requires 0 < w < 16
    ensures w <= 8 ==> Pow2(w - 1) < 256 && Pow2(w) <= 256
    ensures w > 8 ==> Pow2(w - 9) < 256 && Pow2(w - 8) <= 256
  {
    Pow2Values();
    if w <= 8 {
      Pow2Monotonic(w, 8);
    } else {
      Pow2Monotonic(w - 8, 8);
    }
  }

  function SignCode(w: nat, skip: nat): seq<Instr>
    requires 0 < w < 16
  {
    [SignTest(w), Br(Eq, skip)] + (SignOnes(w) + [Label(skip)])
  }

  /** D extended from its low `w` digits. */
  function Widened(d: Word, w: nat): Word
    requires 0 < w <= 16 && d < Pow2(w)
  {
    Pow2Values();
    Pow2Monotonic(w, 16);
    if d >= Pow2(w - 1) then d + 65536 - Pow2(w) else d
  }

  lemma OnesRegs(w: nat, s: Regs)
    requires 0 < w < 16 && RD(s) < Pow2(w) && RD(s) >= Pow2(w - 1)
    ensures PlainCode(SignOnes(w)) && RD(RegExec(SignOnes(w), s)) == Widened(RD(s), w)
  {
    hide RegExec, Op8, Pow2;
    Pow2Values();
    Pow2Small8(w);
    Shortcuts(BitOr, s.a);
    HighByte(w);
    if w < 8 {
      Reg2(Logic(BitOr, B, Imm(256 - Pow2(w))), Logic(BitOr, A, Imm(255)), s);
      ByteMasks(s.b, w);
    } else if w == 8 {
      Reg1(Logic(BitOr, A, Imm(255)), s);
    } else {
      Reg1(Logic(BitOr, A, Imm(256 - Pow2(w - 8))), s);
      ByteMasks(s.a, w - 8);
    }
  }

  lemma HighByte(w: nat)
    ensures w >= 8 ==> Pow2(w) == 256 * Pow2(w - 8)
    ensures w >= 9 ==> Pow2(w - 1) == 256 * Pow2(w - 9)
    ensures w <= 8 ==> Pow2(w) <= 256
  {
    Pow2Values();
    if w >= 8 {
      Pow2Add(8, w - 8);
    }
    if w >= 9 {
      Pow2Add(8, w - 9);
    }
    if w <= 8 {
      Pow2Monotonic(w, 8);
    }
  }

  lemma StepBitTest(r: Reg, k: Byte, s: State)
    ensures Step(BitTest(r, Imm(k)), s) == s.(f := MoveFlags(Op8(BitAnd, Get(r, s), k), s.f))
  {
    hide Op8;
  }

  /** The test finds the sign digit. */
  lemma SignSeen(w: nat, s: State)
    requires 0 < w < 16 && D(s) < Pow2(w)
    ensures var t := Step(SignTest(w), s); t == s.(f := t.f) && (t.f.z <==> D(s) < Pow2(w - 1))
  {
    hide Op8, Step, Pow2;
    Pow2Small8(w);
    HighByte(w);
    if w <= 8 {
      StepBitTest(B, Pow2(w - 1), s);
      ByteMasks(s.b, w);
    } else {
      StepBitTest(A, Pow2(w - 9), s);
      ByteMasks(s.a, w - 8);
    }
  }

  lemma SignShapes(w: nat, skip: nat)
    requires 0 < w < 16
    ensures Straight(SignTest(w)) && Label(skip) !in SignOnes(w)
  {
  }

  lemma SignRuns(orc: Oracle, w: nat, skip: nat, s: State)
    requires 0 < w < 16 && D(s) < Pow2(w)
    ensures var o := Run(orc, SignCode(w, skip), s); o.Fall? && OnlyAB(s, o.s) && D(o.s) == Widened(D(s), w)
  {
    hide Run, Take, Step, Exec, RegExec, Pow2, SignOnes, SignTest;
    var i, ones, last := SignTest(w), SignOnes(w), [Label(skip)] + [];
    SignSeen(w, s);
    var t := Step(i, s);
    SignShapes(w, skip);
    assert SignCode(w, skip) == [i] + ([Br(Eq, skip)] + (ones + last));
    RunStep(orc, i, [Br(Eq, skip)] + (ones + last), s);
    RunBr(orc, Eq, skip, ones + last, t);
    if Machine.Holds(Eq, t.f) {
      TakePast(orc, skip, ones, last, t);
      TakeHere(orc, skip, [], t);
      RunNone(orc, t);
    } else {
      OnesRegs(w, Registers(t));
      RegExecRight(ones, t);
      RunStraight(orc, ones, t);
      var u := Exec(ones, t);
      RunAppend(orc, ones, last, t);
      RunLabel(orc, skip, [], u);
      RunNone(orc, u);
    }
  }

  // ----- extract_bitfield -----

  /** D turned from the unit into the value of the field; of memory only the top of the stack may have changed. */
  predicate Extracted(m: Spec, s: State, t: State) {
    Keeps(s, t) && D(t) == Loaded(D(s), m.off, m.w, m.signed) % 65536
  }

  ghost predicate Extracts(m: Spec, code: seq<Instr>) {
    forall orc, s :: Run(orc, code, s).Fall? && Extracted(m, s, Run(orc, code, s).s)
  }

  lemma MaskWord(off: nat, w: nat)
    requires off + w <= 16
    ensures Mask(off, w) < 65536 && Mask(off, w) == (Pow2(w) - 1) * Pow2(off)
  {
    MaskIs(off, w);
    Pow2Add(w, off);
    Pow2Monotonic(w + off, 16);
    Pow2Values();
    assert (Pow2(w) - 1) * Pow2(off) == Pow2(w) * Pow2(off) - Pow2(off);
  }

  /** The value of the field, before its sign. */
  lemma ShiftedAndMasked(d: Word, off: nat, w: nat)
    requires off + w <= 16
    ensures Bitwise(BitAnd, d / Pow2(off), Mask(0, w), 16) == Field(d, off, w)
  {
    hide Bitwise, Pow2;
    AndField(d / Pow2(off), w, 16);
    LowField(d / Pow2(off), w);
    FieldIs(d, off, w);
  }

  lemma WidenedIsLoaded(d: Word, m: Spec)
    requires InUnit(m) && Field(d, m.off, m.w) < Pow2(m.w)
    ensures Field(d, m.off, m.w) < 65536
    ensures m.signed && m.w < 16 ==> Widened(Field(d, m.off, m.w), m.w) == Loaded(d, m.off, m.w, true) % 65536
    ensures !m.signed ==> Field(d, m.off, m.w) == Loaded(d, m.off, m.w, false) % 65536
    ensures m.w == 16 ==> Field(d, m.off, m.w) == Loaded(d, m.off, m.w, m.signed) % 65536
  {
    hide Field;
    Pow2Values();
    Pow2Monotonic(m.w, 16);
    var f := Field(d, m.off, m.w);
    SmallMod(f);
    if m.signed && f >= Pow2(m.w - 1) {
      DivModUnique(f - Pow2(m.w), -1, f - Pow2(m.w) + 65536, 65536);
    }
  }

  method ExtractBitfield(m: Spec, shiftLab: nat, signLab: nat) returns (code: seq<Instr>)
    requires InUnit(m)
    ensures Extracts(m, code)
  {
    hide Run, ShiftsRight, Bitwise, Pow2, RegExec, Exec, Field, Loaded, Mask, SignCode, Widened;
    var shift := GenShr(UINT, m.off, shiftLab);
    MaskWord(0, m.w);
    var mask := AndI(Mask(0, m.w));
    var sign := if m.signed && m.w != 16 then SignCode(m.w, signLab) else [];
    code := shift + (mask + sign);
    forall orc, s
      ensures Run(orc, code, s).Fall? && Extracted(m, s, Run(orc, code, s).s)
    {
      ShrRuns(m.off, shift, orc, s);
      var t := Run(orc, shift, s).s;
      RunAppend(orc, shift, mask + sign, s);
      RegExecRight(mask, t);
      RunStraight(orc, mask, t);
      var u := Exec(mask, t);
      RunAppend(orc, mask, sign, t);
      ShiftedAndMasked(D(s), m.off, m.w);
      assert Masks(Mask(0, m.w), Registers(t), RegExec(mask, Registers(t)));
      WidenedIsLoaded(D(s), m);
      if m.signed && m.w != 16 {
        SignRuns(orc, m.w, signLab, u);
      } else {
        RunNone(orc, u);
      }
    }
  }

  lemma ShrRuns(n: nat, code: seq<Instr>, orc: Oracle, s: State)
    requires ShiftsRight(UINT, n, code)
    ensures Run(orc, code, s).Fall? && Keeps(s, Run(orc, code, s).s) && D(Run(orc, code, s).s) == D(s) / Pow2(n)
  {
    assert ShiftedRight(UINT, n, s, Run(orc, code, s).s);
  }

  lemma ShlRuns(n: nat, code: seq<Instr>, orc: Oracle, s: State)
    requires ShiftsLeft(2, n, code)
    ensures Run(orc, code, s).Fall? && Keeps(s, Run(orc, code, s).s) && D(Run(orc, code, s).s) == (D(s) * Pow2(n)) % 65536
  {
    assert ShiftedLeft(2, n, s, Run(orc, code, s).s);
  }

  // ----- assign_to_bitfield -----

  /** The unit X points to. */
  function UnitAt(s: State): Word { Word16At(s.mem, s.x) }

  const EOR: seq<Instr> := [Logic(BitXor, B, M(Idx(1))), Logic(BitXor, A, M(Idx(0)))]
  const STORE: seq<Instr> := [St(B, Idx(1)), St(A, Idx(0))]

  lemma EorRuns(s: State)
    ensures StraightCode(EOR)
    ensures var t := Exec(EOR, s); OnlyAB(s, t) && D(t) == Bitwise(BitXor, D(s), UnitAt(s), 16)
  {
    hide Step, Exec, Op8, Bitwise;
    Exec2(EOR[0], EOR[1], s);
    StepLogic(BitXor, B, M(Idx(1)), s);
    StepLogic(BitXor, A, M(Idx(0)), Step(EOR[0], s));
    WordOp(BitXor, s.a, s.b, s.mem[s.x], s.mem[Wrap(s.x + 1)]);
  }

  lemma StoreRuns(s: State)
    ensures StraightCode(STORE)
    ensures var t := Exec(STORE, s);
      t == s.(f := t.f, mem := t.mem) && t.mem == s.mem[Wrap(s.x + 1) := s.b][s.x := s.a] && UnitAt(t) == D(s)
  {
    hide Step, Exec;
    Exec2(STORE[0], STORE[1], s);
    StepStore(B, Idx(1), s);
    StepStore(A, Idx(0), Step(STORE[0], s));
  }

  lemma {:induction false} PutCut(y: int, off: nat, w: nat, v: int)
    ensures Put(y, off, w, Field(v, 0, w)) == Put(y, off, w, v)
    decreases off + w
  {
    if off > 0 {
      PutCut(y / 2, off - 1, w, v);
    } else if w > 0 {
      FieldDigit(v, w);
      PutCut(y / 2, 0, w - 1, v / 2);
    }
  }

  /** The steps on D: cut, shifted, and merged into the unit `y`. */
  lemma MergedUnit(d: Word, y: Word, m: Spec)
    requires InUnit(m)
    ensures var v := Bitwise(BitAnd, d, Mask(0, m.w), 16);
      Merge((v * Pow2(m.off)) % 65536, y, Mask(m.off, m.w), 16) == Put(y, m.off, m.w, d)
  {
    hide Bitwise, Merge, Field, Put, Mask;
    Pow2Values();
    AndField(d, m.w, 16);
    var v := Field(d, 0, m.w);
    FitsShifted(v, m.off, m.w);
    MergePuts(y, m.off, m.w, v, v * Pow2(m.off), 16);
    PutCut(y, m.off, m.w, d);
  }

  lemma FitsShifted(v: nat, off: nat, w: nat)
    requires v < Pow2(w) && off + w <= 16
    ensures v * Pow2(off) < 65536 && (v * Pow2(off)) % 65536 == v * Pow2(off)
  {
    hide Pow2;
    Pow2Add(w, off);
    Pow2Monotonic(w + off, 16);
    Pow2Values();
    BelowProduct(v, Pow2(w), Pow2(off));
    SmallMod(v * Pow2(off));
  }

  lemma BelowProduct(v: nat, p: nat, q: nat)
    requires v < p && q > 0
    ensures v * q < p * q
  {
  }

  /** Only the unit and the top of the stack have changed; the unit holds the value in the field, and D, where it is wanted, what reading it gives. */
  predicate AssignedTo(m: Spec, used: bool, s: State, t: State) {
    && t.x == s.x && t.sp == s.sp
    && (forall a: Word :: a != s.x && a != Wrap(s.x + 1) && a != s.sp ==> t.mem[a] == s.mem[a])
    && UnitAt(t) == Put(UnitAt(s), m.off, m.w, D(s))
    && (used ==> D(t) == Cut(D(s), m.w, m.signed) % 65536)
  }

  /** The free top of the stack is not the unit's. */
  predicate Apart(s: State) { s.sp != s.x && s.sp != Wrap(s.x + 1) }

  /** The unit seen after writes to the top of the stack. */
  lemma UnitKept(s: State, t: State)
    requires Keeps(s, t) && Apart(s)
    ensures UnitAt(t) == UnitAt(s) && Apart(t)
  {
  }

  lemma AndRuns(n: Word, code: seq<Instr>, orc: Oracle, s: State)
    requires PlainCode(code) && forall r :: Masks(n, r, RegExec(code, r))
    ensures Run(orc, code, s).Fall?
    ensures var t := Run(orc, code, s).s; OnlyAB(s, t) && D(t) == Bitwise(BitAnd, D(s), n, 16)
  {
    hide Run, Exec, RegExec, Bitwise;
    RegExecRight(code, s);
    RunStraight(orc, code, s);
    assert Masks(n, Registers(s), RegExec(code, Registers(s)));
  }

  /** From the cut and shifted value to the stored unit. */
  lemma MergeRuns(orc: Oracle, mask: Word, code: seq<Instr>, s: State)
    requires PlainCode(code) && forall r :: Masks(mask, r, RegExec(code, r))
    ensures Run(orc, EOR + (code + (EOR + STORE)), s).Fall?
    ensures var t := Run(orc, EOR + (code + (EOR + STORE)), s).s;
      && t.x == s.x && t.sp == s.sp && t.mem == s.mem[Wrap(s.x + 1) := D(t) % 256][s.x := D(t) / 256]
      && D(t) == UnitAt(t) == Merge(D(s), UnitAt(s), mask, 16)
  {
    hide Run, Exec, RegExec, Bitwise;
    EorRuns(s);
    RunStraight(orc, EOR, s);
    var s1 := Exec(EOR, s);
    AndRuns(mask, code, orc, s1);
    var s2 := Run(orc, code, s1).s;
    EorRuns(s2);
    RunStraight(orc, EOR, s2);
    var s3 := Exec(EOR, s2);
    StoreRuns(s3);
    RunStraight(orc, STORE, s3);
    RunAppend(orc, EOR, code + (EOR + STORE), s);
    RunAppend(orc, code, EOR + STORE, s1);
    RunAppend(orc, EOR, STORE, s2);
    WordOfBytes(s3);
  }

  ghost predicate Assigns(m: Spec, used: bool, code: seq<Instr>) {
    forall orc, s :: Apart(s) ==> Run(orc, code, s).Fall? && AssignedTo(m, used, s, Run(orc, code, s).s)
  }

  /** The code from where X points to the unit and D holds the value. */
  method AssignToBitfield(m: Spec, used: bool, shiftLab: nat, signLab: nat) returns (code: seq<Instr>)
    requires InUnit(m)
    ensures Assigns(m, used, code)
  {
    hide Run, ShiftsLeft, Bitwise, Pow2, RegExec, Exec, Field, Put, Mask, Merge, Extracts, UnitAt, Cut, Loaded;
    MaskWord(0, m.w);
    MaskWord(m.off, m.w);
    var cut := AndI(Mask(0, m.w));
    var shift := GenShl(UINT, m.off);
    var mask := AndI(Mask(m.off, m.w));
    var read := [];
    if used {
      read := ExtractBitfield(m, shiftLab, signLab);
    }
    var merge := EOR + (mask + (EOR + STORE));
    code := cut + (shift + (merge + read));
    forall orc, s | Apart(s)
      ensures Run(orc, code, s).Fall? && AssignedTo(m, used, s, Run(orc, code, s).s)
    {
      AndRuns(Mask(0, m.w), cut, orc, s);
      var s1 := Run(orc, cut, s).s;
      ShlRuns(m.off, shift, orc, s1);
      var s2 := Run(orc, shift, s1).s;
      MergeRuns(orc, Mask(m.off, m.w), mask, s2);
      var s3 := Run(orc, merge, s2).s;
      RunAppend(orc, cut, shift + (merge + read), s);
      RunAppend(orc, shift, merge + read, s1);
      RunAppend(orc, merge, read, s2);
      UnitSame(s, s1);
      UnitKept(s1, s2);
      MergedUnit(D(s), UnitAt(s), m);
      StoredThenLoaded(UnitAt(s), m.off, m.w, D(s), m.signed);
      if used {
        ReadRuns(m, read, orc, s3);
        UnitKept(s3, Run(orc, read, s3).s);
      } else {
        RunNone(orc, s3);
      }
      AssignedAround(m, s, s1, s2, s3);
    }
  }

  lemma UnitSame(s: State, t: State)
    requires OnlyAB(s, t)
    ensures UnitAt(t) == UnitAt(s)
  {
  }

  lemma ReadRuns(m: Spec, code: seq<Instr>, orc: Oracle, s: State)
    requires Extracts(m, code)
    ensures Run(orc, code, s).Fall? && Extracted(m, s, Run(orc, code, s).s)
  {
  }

  lemma AssignedAround(m: Spec, s: State, s1: State, s2: State, s3: State)
    requires OnlyAB(s, s1) && Keeps(s1, s2) && Apart(s)
    requires s3.x == s2.x && s3.sp == s2.sp && s3.mem == s2.mem[Wrap(s2.x + 1) := D(s3) % 256][s2.x := D(s3) / 256]
    ensures Apart(s3)
    ensures forall a: Word :: a != s.x && a != Wrap(s.x + 1) && a != s.sp ==> s3.mem[a] == s.mem[a]
  {
  }
}
