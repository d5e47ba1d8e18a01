/**
 The branches at the end of a compiled comparison: given what the code before them has left in
 the registers and flags, which conditional jumps decide it.
 */
module Branches {
  import opened Arith
  import opened Machine
  import opened Emitters
  import opened Conditions

  /** How the code in front has prepared a comparison of `x` with `y`. */
  datatype Way =
    | Difference   // subtracted as words: D is the difference, the flags those of SBCA
    | Tested       // subtracted as bytes: the flags are those of CMPB or CBA
    | ZeroInX      // X holds x and has been compared with #0
    | SameInX      // X holds x and has been compared with y; only == and != are asked
    | WordInD      // D holds x, y is 0
    | ByteInB      // B holds x, y is 0

  predicate WideWay(way: Way) { way != Tested && way != ByteInB }

  /** The machine state each way of preparing a comparison leaves. */
  predicate Prepared(way: Way, op: RelOp, x: int, y: int, s: State) {
    match way
    case Difference =>
      if op == REq || op == RNe then (D(s) == 0) == (x % 65536 == y % 65536)
      else Subtracted(x % 65536, y % 65536, s)
    case Tested => s.f == SubFlags(x % 256, y % 256, false)
    case ZeroInX => y == 0 && s.f.z == (x % 65536 == 0) && s.f.n == (x % 65536 >= 32768)
    case SameInX => (op == REq || op == RNe) && s.f.z == (x % 65536 == y % 65536)
    case WordInD => y == 0 && D(s) == x % 65536
    case ByteInB => y == 0 && s.b == x % 256
  }

  /** SUBB then SBCA of the word `y` from the word `x`. */
  predicate Subtracted(x: Word, y: Word, s: State) {
    var borrow := x % 256 < y % 256;
    && s.b == Wrap8(x % 256 - y % 256)
    && s.a == Wrap8(x / 256 - y / 256 - Carry(borrow))
    && s.f == SubFlags(x / 256, y / 256, borrow)
  }

  predicate Same(s: State, t: State) { t.x == s.x && t.sp == s.sp && t.mem == s.mem }

  /** The code falls through if `stay`, else leaves to `lab`; X, SP and memory are kept. */
  predicate Leaves(orc: Oracle, code: seq<Instr>, s: State, stay: bool, lab: nat) {
    match Run(orc, code, s)
    case Fall(t) => stay && Same(s, t)
    case Goto(l, t) => !stay && l == lab && Same(s, t)
  }

  /** After either preparation, the code jumps to `lab` exactly when the comparison is `sense`. */
  ghost predicate Decides(way: Way, op: RelOp, ty: Ty, sense: bool, lab: nat, code: seq<Instr>) {
    forall orc, x, y, s :: InRange(ty, x) && InRange(ty, y) && Prepared(way, op, x, y, s) ==>
      LeavesOn(orc, code, s, op, x, y, sense, lab)
  }

  predicate LeavesOn(orc: Oracle, code: seq<Instr>, s: State, op: RelOp, x: int, y: int, sense: bool, lab: nat) {
    Leaves(orc, code, s, RelHolds(op, x, y) != sense, lab)
  }

  // ----- the flags after a subtraction, in terms of the numbers -----

  lemma SubtractedFlags(x: Word, y: Word, s: State)
    requires Subtracted(x, y, s)
    ensures s.f.c == (x < y)
    ensures (s.f.n != s.f.v) == (Sgn16(x) < Sgn16(y))
    ensures (s.f.z && s.b == 0) == (x == y)
    ensures s.f.z == (s.a == 0)
  {
  }

  lemma TestedFlags(x: Byte, y: Byte)
    ensures var f := SubFlags(x, y, false);
      f.c == (x < y) && f.z == (x == y) && (f.n != f.v) == (Sgn8(x) < Sgn8(y))
  {
  }

  // ----- the shapes of branch code -----

  lemma Plain(orc: Oracle, c: Cond, lab: nat, s: State)
    ensures Leaves(orc, [Br(c, lab)], s, !Holds(c, s.f), lab)
  {
    RunBr(orc, c, lab, [], s);
    assert [Br(c, lab)] + [] == [Br(c, lab)];
  }

  lemma Always(orc: Oracle, lab: nat, s: State)
    ensures Leaves(orc, [Jmp(lab)], s, false, lab)
  {
    RunJmp(orc, lab, [], s);
    assert [Jmp(lab)] + [] == [Jmp(lab)];
  }

  lemma Either(orc: Oracle, c1: Cond, c2: Cond, lab: nat, s: State)
    ensures Leaves(orc, [Br(c1, lab), Br(c2, lab)], s, !Holds(c1, s.f) && !Holds(c2, s.f), lab)
  {
    assert [Br(c1, lab), Br(c2, lab)] == [Br(c1, lab)] + [Br(c2, lab)];
    RunBr(orc, c1, lab, [Br(c2, lab)], s);
    TakePast(orc, lab, [Br(c2, lab)], [], s);
    Plain(orc, c2, lab, s);
  }

  /** Jump over the branch if `skip` holds. */
  lemma Skipping(orc: Oracle, skip: Cond, c: Cond, lab: nat, thru: nat, s: State)
    requires lab != thru
    ensures Leaves(orc, [Br(skip, thru), Br(c, lab), Label(thru)], s, Holds(skip, s.f) || !Holds(c, s.f), lab)
  {
    var end := [Label(thru)];
    assert [Br(skip, thru), Br(c, lab), Label(thru)] == [Br(skip, thru)] + ([Br(c, lab)] + end);
    RunBr(orc, skip, thru, [Br(c, lab)] + end, s);
    TakePast(orc, thru, [Br(c, lab)], end, s);
    AtEnd(orc, lab, thru, s);
    RunBr(orc, c, lab, end, s);
  }

  lemma AtEnd(orc: Oracle, lab: nat, thru: nat, s: State)
    requires lab != thru
    ensures Run(orc, [Label(thru)], s) == Fall(s) && Take(orc, thru, [Label(thru)], s) == Fall(s)
    ensures Take(orc, lab, [Label(thru)], s) == Goto(lab, s)
  {
    assert [Label(thru)] + [] == [Label(thru)];
    RunLabel(orc, thru, [], s);
    TakeHere(orc, thru, [], s);
    TakePast(orc, lab, [Label(thru)], [], s);
  }

  /** An instruction that only touches the accumulators and flags, in front of a branch. */
  lemma After(orc: Oracle, i: Instr, c: Cond, lab: nat, s: State)
    requires Straight(i) && Same(s, Step(i, s))
    ensures Leaves(orc, [i, Br(c, lab)], s, !Holds(c, Step(i, s).f), lab)
  {
    assert [i, Br(c, lab)] == [i] + [Br(c, lab)];
    RunStep(orc, i, [Br(c, lab)], s);
    Plain(orc, c, lab, Step(i, s));
  }

  lemma After2(orc: Oracle, i: Instr, j: Instr, c: Cond, lab: nat, s: State)
    requires Straight(i) && Same(s, Step(i, s)) && Straight(j) && Same(s, Step(j, Step(i, s)))
    ensures Leaves(orc, [i, j, Br(c, lab)], s, !Holds(c, Step(j, Step(i, s)).f), lab)
  {
    assert [i, j, Br(c, lab)] == [i] + [j, Br(c, lab)];
    RunStep(orc, i, [j, Br(c, lab)], s);
    After(orc, j, c, lab, Step(i, s));
  }

  /** Decide by the high byte if one of two conditions holds, else by the low byte being zero. */
  lemma HighThenLow(orc: Oracle, out: Cond, through: Cond, low: Cond, lab: nat, thru: nat, s: State)
    requires lab != thru
    ensures var t := Step(Un(Tst, B), s);
      Leaves(orc, [Br(out, lab), Br(through, thru), Un(Tst, B), Br(low, lab), Label(thru)], s,
             !Holds(out, s.f) && (Holds(through, s.f) || !Holds(low, t.f)), lab)
  {
    hide Run, Find, Holds;
    var t := Step(Un(Tst, B), s);
    var end := [Label(thru)];
    var c3 := [Br(low, lab)] + end;
    var c2 := [Un(Tst, B)] + c3;
    var c1 := [Br(through, thru)] + c2;
    assert [Br(out, lab), Br(through, thru), Un(Tst, B), Br(low, lab), Label(thru)] == [Br(out, lab)] + c1;
    RunBr(orc, out, lab, c1, s);
    TakePast(orc, lab, c1, [], s);
    RunBr(orc, through, thru, c2, s);
    assert c2 == [Un(Tst, B), Br(low, lab)] + end;
    TakePast(orc, thru, [Un(Tst, B), Br(low, lab)], end, s);
    RunStep(orc, Un(Tst, B), c3, s);
    RunBr(orc, low, lab, end, t);
    AtEnd(orc, lab, thru, s);
    AtEnd(orc, lab, thru, t);
  }

  // ----- each way of preparing, decided by a shape -----

  /** ABA and ADCA #0 leave zero exactly if both bytes of D are zero. */
  lemma SumIsZero(s: State)
    ensures var t := Step(Alu(Adc, A, Imm(0)), Step(Inh(Aba), s)); t.f.z == (D(s) == 0) && Same(s, t)
  {
  }

  lemma FitRange(ty: Ty, v: int)
    requires InRange(ty, v)
    ensures if ty.IsWide() then v == (if ty.IsUnsigned() then v % 65536 else Sgn16(v % 65536))
            else v == (if ty.IsUnsigned() then v % 256 else Sgn8(v % 256))
  {
  }

  lemma EqualByDifference(op: RelOp, ty: Ty, sense: bool, lab: nat, c: Cond)
    requires ty.IsWide() && (op == REq || op == RNe)
    requires c == if (op == REq) == sense then Eq else Ne
    ensures Decides(Difference, op, ty, sense, lab, [Inh(Aba), Alu(Adc, A, Imm(0)), Br(c, lab)])
  {
    var code := [Inh(Aba), Alu(Adc, A, Imm(0)), Br(c, lab)];
    forall orc, x, y, s | InRange(ty, x) && InRange(ty, y) && Prepared(Difference, op, x, y, s)
      ensures LeavesOn(orc, code, s, op, x, y, sense, lab)
    {
      FitRange(ty, x);
      FitRange(ty, y);
      SumIsZero(s);
      After2(orc, Inh(Aba), Alu(Adc, A, Imm(0)), c, lab, s);
    }
  }

  lemma LessByDifference(op: RelOp, ty: Ty, sense: bool, lab: nat, c: Cond)
    requires ty.IsWide() && (op == RLt || op == RGe)
    requires c == if (op == RLt) == sense then (if ty.IsUnsigned() then Cs else Lt)
                  else if ty.IsUnsigned() then Cc else Ge
    ensures Decides(Difference, op, ty, sense, lab, [Br(c, lab)])
  {
    forall orc, x, y, s | InRange(ty, x) && InRange(ty, y) && Prepared(Difference, op, x, y, s)
      ensures LeavesOn(orc, [Br(c, lab)], s, op, x, y, sense, lab)
    {
      FitRange(ty, x);
      FitRange(ty, y);
      SubtractedFlags(x % 65536, y % 65536, s);
      Plain(orc, c, lab, s);
    }
  }

  lemma GreaterByDifference(op: RelOp, ty: Ty, sense: bool, lab: nat, thru: nat, out: Cond, through: Cond, low: Cond)
    requires ty.IsWide() && (op == RGt || op == RLe) && lab != thru
    requires (out, through, low) ==
      if (op == RGt) == sense then (if ty.IsUnsigned() then (Hi, Cs, Ne) else (Gt, Lt, Ne))
      else if ty.IsUnsigned() then (Cs, Hi, Eq) else (Lt, Gt, Eq)
    ensures Decides(Difference, op, ty, sense, lab,
                    [Br(out, lab), Br(through, thru), Un(Tst, B), Br(low, lab), Label(thru)])
  {
    hide Run, SubFlags, Subtracted;
    var code := [Br(out, lab), Br(through, thru), Un(Tst, B), Br(low, lab), Label(thru)];
    forall orc, x, y, s | InRange(ty, x) && InRange(ty, y) && Prepared(Difference, op, x, y, s)
      ensures LeavesOn(orc, code, s, op, x, y, sense, lab)
    {
      hide Step, Leaves;
      FitRange(ty, x);
      FitRange(ty, y);
      SubtractedFlags(x % 65536, y % 65536, s);
      TestedLow(s);
      HighThenLow(orc, out, through, low, lab, thru, s);
    }
  }

  lemma TestedLow(s: State)
    ensures Step(Un(Tst, B), s).f.z == (s.b == 0)
  {
  }

  /** Jump condition after CMPB or CBA, when the comparison should be `sense`. */
  function ByteCond(op: RelOp, unsigned: bool, sense: bool): Cond {
    match op
    case REq => if sense then Eq else Ne
    case RNe => if sense then Ne else Eq
    case RLt => if sense then (if unsigned then Cs else Lt) else if unsigned then Cc else Ge
    case RGe => if sense then (if unsigned then Cc else Ge) else if unsigned then Cs else Lt
    case RLe => if sense then (if unsigned then Ls else Le) else if unsigned then Hi else Gt
    case RGt => if sense then (if unsigned then Hi else Gt) else if unsigned then Ls else Le
  }

  lemma ByTest(op: RelOp, ty: Ty, sense: bool, lab: nat)
    requires !ty.IsWide()
    ensures Decides(Tested, op, ty, sense, lab, [Br(ByteCond(op, ty.IsUnsigned(), sense), lab)])
  {
    var c := ByteCond(op, ty.IsUnsigned(), sense);
    forall orc, x, y, s | InRange(ty, x) && InRange(ty, y) && Prepared(Tested, op, x, y, s)
      ensures LeavesOn(orc, [Br(c, lab)], s, op, x, y, sense, lab)
    {
      FitRange(ty, x);
      FitRange(ty, y);
      TestedFlags(x % 256, y % 256);
      Plain(orc, c, lab, s);
    }
  }

  lemma ByIndex(op: RelOp, ty: Ty, sense: bool, lab: nat, c: Cond)
    requires ty.IsWide() && (op == REq || op == RNe)
    requires c == if (op == REq) == sense then Eq else Ne
    ensures Decides(SameInX, op, ty, sense, lab, [Br(c, lab)])
  {
    forall orc, x, y, s | InRange(ty, x) && InRange(ty, y) && Prepared(SameInX, op, x, y, s)
      ensures LeavesOn(orc, [Br(c, lab)], s, op, x, y, sense, lab)
    {
      FitRange(ty, x);
      FitRange(ty, y);
      Plain(orc, c, lab, s);
    }
  }

  /** A comparison with zero as a test of sign and zero: always, never, or by N and Z. */
  datatype ZeroTest = Never | Surely | IfZero | IfNonzero | IfMinus | IfPlus | IfPositive | IfNotPositive

  function ZeroTestOf(op: RelOp, unsigned: bool, sense: bool): ZeroTest {
    match op
    case REq => if sense then IfZero else IfNonzero
    case RNe => if sense then IfNonzero else IfZero
    case RLt => if unsigned then (if sense then Never else Surely) else if sense then IfMinus else IfPlus
    case RGe => if unsigned then (if sense then Surely else Never) else if sense then IfPlus else IfMinus
    case RGt => if unsigned then (if sense then IfNonzero else IfZero) else if sense then IfPositive else IfNotPositive
    case RLe => if unsigned then (if sense then IfZero else IfNonzero) else if sense then IfNotPositive else IfPositive
  }

  predicate TestHolds(z: ZeroTest, zero: bool, minus: bool) {
    match z
    case Never => false
    case Surely => true
    case IfZero => zero
    case IfNonzero => !zero
    case IfMinus => minus
    case IfPlus => !minus
    case IfPositive => !zero && !minus
    case IfNotPositive => zero || minus
  }

  /** Comparing with zero is testing sign and zero. */
  lemma ZeroTestRight(op: RelOp, ty: Ty, sense: bool, x: int)
    requires InRange(ty, x)
    ensures (RelHolds(op, x, 0) == sense) ==
            TestHolds(ZeroTestOf(op, ty.IsUnsigned(), sense), x == 0,
                      if ty.IsWide() then x % 65536 >= 32768 else x % 256 >= 128)
  {
    FitRange(ty, x);
  }

  /** The branches that print a zero test after flags Z and N have been set from x (V is not used). */
  function ZeroBranches(z: ZeroTest, lab: nat, thru: nat): seq<Instr> {
    match z
    case Never => []
    case Surely => [Jmp(lab)]
    case IfZero => [Br(Eq, lab)]
    case IfNonzero => [Br(Ne, lab)]
    case IfMinus => [Br(Mi, lab)]
    case IfPlus => [Br(Pl, lab)]
    case IfPositive => [Br(Eq, thru), Br(Pl, lab), Label(thru)]
    case IfNotPositive => [Br(Mi, lab), Br(Eq, lab)]
  }

  lemma ZeroBranchesRight(orc: Oracle, z: ZeroTest, lab: nat, thru: nat, s: State)
    requires lab != thru
    ensures Leaves(orc, ZeroBranches(z, lab, thru), s, !TestHolds(z, s.f.z, s.f.n), lab)
  {
    match z
    case Never =>
    case Surely => Always(orc, lab, s);
    case IfPositive => Skipping(orc, Eq, Pl, lab, thru, s);
    case IfNotPositive => Either(orc, Mi, Eq, lab, s);
    case _ => Plain(orc, ZeroBranches(z, lab, thru)[0].cond, lab, s);
  }

  lemma ByZeroInX(op: RelOp, ty: Ty, sense: bool, lab: nat, thru: nat)
    requires ty.IsWide() && lab != thru
    ensures Decides(ZeroInX, op, ty, sense, lab, ZeroBranches(ZeroTestOf(op, ty.IsUnsigned(), sense), lab, thru))
  {
    var z := ZeroTestOf(op, ty.IsUnsigned(), sense);
    forall orc, x, y, s | InRange(ty, x) && InRange(ty, y) && Prepared(ZeroInX, op, x, y, s)
      ensures LeavesOn(orc, ZeroBranches(z, lab, thru), s, op, x, y, sense, lab)
    {
      FitRange(ty, x);
      ZeroTestRight(op, ty, sense, x);
      ZeroBranchesRight(orc, z, lab, thru, s);
    }
  }

  function ByteZeroCode(z: ZeroTest, lab: nat): seq<Instr> {
    match z
    case Never => []
    case Surely => [Jmp(lab)]
    case IfZero => [Un(Tst, B), Br(Eq, lab)]
    case IfNonzero => [Un(Tst, B), Br(Ne, lab)]
    case IfMinus => [Un(Tst, B), Br(Mi, lab)]
    case IfPlus => [Un(Tst, B), Br(Pl, lab)]
    case IfPositive => [Alu(Cmp, B, Imm(1)), Br(Ge, lab)]
    case IfNotPositive => [Alu(Cmp, B, Imm(1)), Br(Lt, lab)]
  }

  lemma ByteZeroRight(orc: Oracle, z: ZeroTest, lab: nat, s: State)
    ensures Leaves(orc, ByteZeroCode(z, lab), s, !TestHolds(z, s.b == 0, s.b >= 128), lab)
  {
    hide Run, SubFlags;
    TestedFlags(s.b, 1);
    match z
    case Never => RunNone(orc, s);
    case Surely => Always(orc, lab, s);
    case IfPositive => After(orc, Alu(Cmp, B, Imm(1)), Ge, lab, s);
    case IfNotPositive => After(orc, Alu(Cmp, B, Imm(1)), Lt, lab, s);
    case _ => After(orc, Un(Tst, B), ByteZeroCode(z, lab)[1].cond, lab, s);
  }

  lemma ByByteInB(op: RelOp, ty: Ty, sense: bool, lab: nat)
    requires !ty.IsWide()
    ensures Decides(ByteInB, op, ty, sense, lab, ByteZeroCode(ZeroTestOf(op, ty.IsUnsigned(), sense), lab))
  {
    var z := ZeroTestOf(op, ty.IsUnsigned(), sense);
    forall orc, x, y, s | InRange(ty, x) && InRange(ty, y) && Prepared(ByteInB, op, x, y, s)
      ensures LeavesOn(orc, ByteZeroCode(z, lab), s, op, x, y, sense, lab)
    {
      FitRange(ty, x);
      ZeroTestRight(op, ty, sense, x);
      ByteZeroRight(orc, z, lab, s);
    }
  }

  /** D minus zero is D, and TSTA sets the flags of that subtraction. */
  lemma TestedHigh(x: Word, s: State)
    requires D(s) == x
    ensures Subtracted(x, 0, Step(Un(Tst, A), s)) && Same(s, Step(Un(Tst, A), s))
  {
  }

  /** With D in hand and 0 to compare with, test its high byte and go on as after a subtraction. */
  lemma WordByTst(op: RelOp, ty: Ty, sense: bool, lab: nat, code: seq<Instr>)
    requires ty.IsWide() && op != REq && op != RNe && Decides(Difference, op, ty, sense, lab, code)
    ensures Decides(WordInD, op, ty, sense, lab, [Un(Tst, A)] + code)
  {
    forall orc, x, y, s | InRange(ty, x) && InRange(ty, y) && Prepared(WordInD, op, x, y, s)
      ensures LeavesOn(orc, [Un(Tst, A)] + code, s, op, x, y, sense, lab)
    {
      var t := Step(Un(Tst, A), s);
      TestedHigh(x % 65536, s);
      RunStep(orc, Un(Tst, A), code, s);
      assert Prepared(Difference, op, x, y, t);
      assert LeavesOn(orc, code, t, op, x, y, sense, lab);
    }
  }

  /** An unsigned word is above zero when it is not zero; equality needs no flags from before. */
  lemma WordBySum(op: RelOp, op': RelOp, ty: Ty, sense: bool, lab: nat, code: seq<Instr>)
    requires ty.IsWide() && (op' == REq || op' == RNe) && Decides(Difference, op', ty, sense, lab, code)
    requires op == op' || (ty.IsUnsigned() && (op, op') in {(RGt, RNe), (RLe, REq)})
    ensures Decides(WordInD, op, ty, sense, lab, code)
  {
    hide Leaves, Prepared, RelHolds, InRange;
    forall orc, x, y, s | InRange(ty, x) && InRange(ty, y) && Prepared(WordInD, op, x, y, s)
      ensures LeavesOn(orc, code, s, op, x, y, sense, lab)
    {
      SumSees(op, op', ty, x, y, s);
      assert LeavesOn(orc, code, s, op', x, y, sense, lab);
    }
  }

  lemma SumSees(op: RelOp, op': RelOp, ty: Ty, x: int, y: int, s: State)
    requires ty.IsWide() && (op' == REq || op' == RNe)
    requires op == op' || (ty.IsUnsigned() && (op, op') in {(RGt, RNe), (RLe, REq)})
    requires InRange(ty, x) && InRange(ty, y) && Prepared(WordInD, op, x, y, s)
    ensures Prepared(Difference, op', x, y, s) && RelHolds(op, x, y) == RelHolds(op', x, y)
  {
    hide Subtracted, D;
  }

  lemma WordSurely(op: RelOp, ty: Ty, sense: bool, lab: nat)
    requires ty.IsWide() && ty.IsUnsigned() && (op == RLt || op == RGe)
    ensures Decides(WordInD, op, ty, sense, lab, if (op == RGe) == sense then [Jmp(lab)] else [])
  {
    var code := if (op == RGe) == sense then [Jmp(lab)] else [];
    forall orc, x, y, s | InRange(ty, x) && InRange(ty, y) && Prepared(WordInD, op, x, y, s)
      ensures LeavesOn(orc, code, s, op, x, y, sense, lab)
    {
      Always(orc, lab, s);
    }
  }

  lemma SubtractOne(x: Word, s: State)
    requires D(s) == x
    ensures var t := Step(Alu(Sbc, A, Imm(0)), Step(Alu(Sub, B, Imm(1)), s));
      Same(s, t) && (t.f.n != t.f.v) == (Sgn16(x) < 1)
  {
    var m := Step(Alu(Sub, B, Imm(1)), s);
    var t := Step(Alu(Sbc, A, Imm(0)), m);
    assert m.a == x / 256 && m.b == Wrap8(x % 256 - 1) && m.f.c == (x % 256 < 1);
    assert Subtracted(x, 1, t);
    SubtractedFlags(x, 1, t);
  }

  /** int <= 0 is int - 1 < 0, the overflow of -32768 - 1 included. */
  lemma WordBySubtractingOne(op: RelOp, ty: Ty, sense: bool, lab: nat, c: Cond)
    requires ty == S16 && op == RLe && c == if sense then Lt else Ge
    ensures Decides(WordInD, op, ty, sense, lab, [Alu(Sub, B, Imm(1)), Alu(Sbc, A, Imm(0)), Br(c, lab)])
  {
    var code := [Alu(Sub, B, Imm(1)), Alu(Sbc, A, Imm(0)), Br(c, lab)];
    forall orc, x, y, s | InRange(ty, x) && InRange(ty, y) && Prepared(WordInD, op, x, y, s)
      ensures LeavesOn(orc, code, s, op, x, y, sense, lab)
    {
      FitRange(ty, x);
      SubtractOne(x % 65536, s);
      After2(orc, Alu(Sub, B, Imm(1)), Alu(Sbc, A, Imm(0)), c, lab, s);
    }
  }

  // ----- printing the branches -----

  /** After CMPB or CBA (end of gen_jump_if_false_8bit). */
  method TestedFalse(e: Emitter, op: RelOp, ty: Ty, lab: nat)
    requires !ty.IsWide()
    modifies e`code
    ensures old(e.code) <= e.code && LabelsIn(e.Since(old(e.code)), 0, 0)
    ensures Decides(Tested, op, ty, false, lab, e.Since(old(e.code)))
  {
    hide Decides;
    var unsigned := ty.IsUnsigned();
    match op {
      case REq => e.Println(Br(Ne, lab));
      case RNe => e.Println(Br(Eq, lab));
      case RLt => e.Println(Br(if unsigned then Cc else Ge, lab));
      case RGe => e.Println(Br(if unsigned then Cs else Lt, lab));
      case RLe => e.Println(Br(if unsigned then Hi else Gt, lab));
      case RGt => e.Println(Br(if unsigned then Ls else Le, lab));
    }
    ByTest(op, ty, false, lab);
    assert e.Since(old(e.code)) == [Br(ByteCond(op, unsigned, false), lab)];
  }

  method TestedTrue(e: Emitter, op: RelOp, ty: Ty, lab: nat)
    requires !ty.IsWide()
    modifies e`code
    ensures old(e.code) <= e.code && LabelsIn(e.Since(old(e.code)), 0, 0)
    ensures Decides(Tested, op, ty, true, lab, e.Since(old(e.code)))
  {
    hide Decides;
    var unsigned := ty.IsUnsigned();
    match op {
      case REq => e.Println(Br(Eq, lab));
      case RNe => e.Println(Br(Ne, lab));
      case RLt => e.Println(Br(if unsigned then Cs else Lt, lab));
      case RGe => e.Println(Br(if unsigned then Cc else Ge, lab));
      case RLe => e.Println(Br(if unsigned then Ls else Le, lab));
      case RGt => e.Println(Br(if unsigned then Hi else Gt, lab));
    }
    ByTest(op, ty, true, lab);
    assert e.Since(old(e.code)) == [Br(ByteCond(op, unsigned, true), lab)];
  }

  method ByteZeroFalse(e: Emitter, op: RelOp, ty: Ty, lab: nat)
    requires !ty.IsWide()
    modifies e`code
    ensures old(e.code) <= e.code && LabelsIn(e.Since(old(e.code)), 0, 0)
    ensures Decides(ByteInB, op, ty, false, lab, e.Since(old(e.code)))
  {
    hide Decides;
    var unsigned := ty.IsUnsigned();
    match op {
      case REq =>
        e.Println(Un(Tst, B));
        e.Println(Br(Ne, lab));
      case RNe =>
        e.Println(Un(Tst, B));
        e.Println(Br(Eq, lab));
      case RLt =>
        if unsigned {
          e.Println(Jmp(lab));
        } else {
          e.Println(Un(Tst, B));
          e.Println(Br(Pl, lab));
        }
      case RGe =>
        if !unsigned {
          e.Println(Un(Tst, B));
          e.Println(Br(Mi, lab));
        }
      case RLe =>
        if unsigned {
          e.Println(Un(Tst, B));
          e.Println(Br(Ne, lab));
        } else {
          e.Println(Alu(Cmp, B, Imm(1)));
          e.Println(Br(Ge, lab));
        }
      case RGt =>
        if unsigned {
          e.Println(Un(Tst, B));
          e.Println(Br(Eq, lab));
        } else {
          e.Println(Alu(Cmp, B, Imm(1)));
          e.Println(Br(Lt, lab));
        }
    }
    ByByteInB(op, ty, false, lab);
    assert e.code == old(e.code) + ByteZeroCode(ZeroTestOf(op, unsigned, false), lab);
    assert e.Since(old(e.code)) == ByteZeroCode(ZeroTestOf(op, unsigned, false), lab);
  }

  method ByteZeroTrue(e: Emitter, op: RelOp, ty: Ty, lab: nat)
    requires !ty.IsWide()
    modifies e`code
    ensures old(e.code) <= e.code && LabelsIn(e.Since(old(e.code)), 0, 0)
    ensures Decides(ByteInB, op, ty, true, lab, e.Since(old(e.code)))
  {
    hide Decides;
    var unsigned := ty.IsUnsigned();
    match op {
      case REq =>
        e.Println(Un(Tst, B));
        e.Println(Br(Eq, lab));
      case RNe =>
        e.Println(Un(Tst, B));
        e.Println(Br(Ne, lab));
      case RLt =>
        if !unsigned {
          e.Println(Un(Tst, B));
          e.Println(Br(Mi, lab));
        }
      case RGe =>
        if unsigned {
          e.Println(Jmp(lab));
        } else {
          e.Println(Un(Tst, B));
          e.Println(Br(Pl, lab));
        }
      case RLe =>
        if unsigned {
          e.Println(Un(Tst, B));
          e.Println(Br(Eq, lab));
        } else {
          e.Println(Alu(Cmp, B, Imm(1)));
          e.Println(Br(Lt, lab));
        }
      case RGt =>
        if unsigned {
          e.Println(Un(Tst, B));
          e.Println(Br(Ne, lab));
        } else {
          e.Println(Alu(Cmp, B, Imm(1)));
          e.Println(Br(Ge, lab));
        }
    }
    ByByteInB(op, ty, true, lab);
    assert e.Since(old(e.code)) == ByteZeroCode(ZeroTestOf(op, unsigned, true), lab);
  }

  method ZeroXFalse(e: Emitter, op: RelOp, ty: Ty, lab: nat, thru: nat)
    requires ty.IsWide() && lab != thru
    modifies e`code
    ensures old(e.code) <= e.code && LabelsIn(e.Since(old(e.code)), thru, thru + 1)
    ensures Decides(ZeroInX, op, ty, false, lab, e.Since(old(e.code)))
  {
    hide Decides;
    var unsigned := ty.IsUnsigned();
    match op {
      case REq => e.Println(Br(Ne, lab));
      case RNe => e.Println(Br(Eq, lab));
      case RLt => e.Println(if unsigned then Jmp(lab) else Br(Pl, lab));
      case RGt =>
        if unsigned {
          e.Println(Br(Eq, lab));
        } else {
          e.Println(Br(Mi, lab));
          e.Println(Br(Eq, lab));
        }
      case RGe =>
        if !unsigned {
          e.Println(Br(Mi, lab));
        }
      case RLe =>
        if unsigned {
          e.Println(Br(Ne, lab));
        } else {
          e.Println(Br(Eq, thru));
          e.Println(Br(Pl, lab));
          e.Println(Label(thru));
        }
    }
    ByZeroInX(op, ty, false, lab, thru);
    assert e.Since(old(e.code)) == ZeroBranches(ZeroTestOf(op, unsigned, false), lab, thru);
  }

  method ZeroXTrue(e: Emitter, op: RelOp, ty: Ty, lab: nat, thru: nat)
    requires ty.IsWide() && lab != thru
    modifies e`code
    ensures old(e.code) <= e.code && LabelsIn(e.Since(old(e.code)), thru, thru + 1)
    ensures Decides(ZeroInX, op, ty, true, lab, e.Since(old(e.code)))
  {
    hide Decides;
    var unsigned := ty.IsUnsigned();
    match op {
      case REq => e.Println(Br(Eq, lab));
      case RNe => e.Println(Br(Ne, lab));
      case RLt =>
        if !unsigned {
          e.Println(Br(Mi, lab));
        }
      case RGt =>
        if unsigned {
          e.Println(Br(Ne, lab));
        } else {
          e.Println(Br(Eq, thru));
          e.Println(Br(Pl, lab));
          e.Println(Label(thru));
        }
      case RGe => e.Println(if unsigned then Jmp(lab) else Br(Pl, lab));
      case RLe =>
        if unsigned {
          e.Println(Br(Eq, lab));
        } else {
          e.Println(Br(Mi, lab));
          e.Println(Br(Eq, lab));
        }
    }
    ByZeroInX(op, ty, true, lab, thru);
    assert e.Since(old(e.code)) == ZeroBranches(ZeroTestOf(op, unsigned, true), lab, thru);
  }

  method SameXFalse(e: Emitter, op: RelOp, ty: Ty, lab: nat)
    requires ty.IsWide() && (op == REq || op == RNe)
    modifies e`code
    ensures old(e.code) <= e.code && LabelsIn(e.Since(old(e.code)), 0, 0)
    ensures Decides(SameInX, op, ty, false, lab, e.Since(old(e.code)))
  {
    hide Decides;
    var c := if op == REq then Ne else Eq;
    e.Println(Br(c, lab));
    ByIndex(op, ty, false, lab, c);
    assert e.Since(old(e.code)) == [Br(c, lab)];
  }

  method SameXTrue(e: Emitter, op: RelOp, ty: Ty, lab: nat)
    requires ty.IsWide() && (op == REq || op == RNe)
    modifies e`code
    ensures old(e.code) <= e.code && LabelsIn(e.Since(old(e.code)), 0, 0)
    ensures Decides(SameInX, op, ty, true, lab, e.Since(old(e.code)))
  {
    hide Decides;
    var c := if op == REq then Eq else Ne;
    e.Println(Br(c, lab));
    ByIndex(op, ty, true, lab, c);
    assert e.Since(old(e.code)) == [Br(c, lab)];
  }

  method DifferenceFalse(e: Emitter, op: RelOp, ty: Ty, lab: nat, thru: nat)
    requires ty.IsWide() && lab != thru
    modifies e`code
    ensures old(e.code) <= e.code && LabelsIn(e.Since(old(e.code)), thru, thru + 1)
    ensures Decides(Difference, op, ty, false, lab, e.Since(old(e.code)))
  {
    hide Decides;
    var unsigned := ty.IsUnsigned();
    match op {
      case REq =>
        e.Println(Inh(Aba));
        e.Println(Alu(Adc, A, Imm(0)));
        e.Println(Br(Ne, lab));
        EqualByDifference(op, ty, false, lab, Ne);
        assert e.Since(old(e.code)) == [Inh(Aba), Alu(Adc, A, Imm(0)), Br(Ne, lab)];
      case RNe =>
        e.Println(Inh(Aba));
        e.Println(Alu(Adc, A, Imm(0)));
        e.Println(Br(Eq, lab));
        EqualByDifference(op, ty, false, lab, Eq);
        assert e.Since(old(e.code)) == [Inh(Aba), Alu(Adc, A, Imm(0)), Br(Eq, lab)];
      case RLt =>
        e.Println(Br(if unsigned then Cc else Ge, lab));
        LessByDifference(op, ty, false, lab, if unsigned then Cc else Ge);
        assert e.Since(old(e.code)) == [Br(if unsigned then Cc else Ge, lab)];
      case RGe =>
        e.Println(Br(if unsigned then Cs else Lt, lab));
        LessByDifference(op, ty, false, lab, if unsigned then Cs else Lt);
        assert e.Since(old(e.code)) == [Br(if unsigned then Cs else Lt, lab)];
      case RLe =>
        var out, through, low := if unsigned then Hi else Gt, if unsigned then Cs else Lt, Ne;
        e.Println(Br(out, lab));
        e.Println(Br(through, thru));
        e.Println(Un(Tst, B));
        e.Println(Br(low, lab));
        e.Println(Label(thru));
        GreaterByDifference(op, ty, false, lab, thru, out, through, low);
        assert e.Since(old(e.code)) == [Br(out, lab), Br(through, thru), Un(Tst, B), Br(low, lab), Label(thru)];
      case RGt =>
        var out, through, low := if unsigned then Cs else Lt, if unsigned then Hi else Gt, Eq;
        e.Println(Br(out, lab));
        e.Println(Br(through, thru));
        e.Println(Un(Tst, B));
        e.Println(Br(low, lab));
        e.Println(Label(thru));
        GreaterByDifference(op, ty, false, lab, thru, out, through, low);
        assert e.Since(old(e.code)) == [Br(out, lab), Br(through, thru), Un(Tst, B), Br(low, lab), Label(thru)];
    }
  }

  method DifferenceTrue(e: Emitter, op: RelOp, ty: Ty, lab: nat, thru: nat)
    requires ty.IsWide() && lab != thru
    modifies e`code
    ensures old(e.code) <= e.code && LabelsIn(e.Since(old(e.code)), thru, thru + 1)
    ensures Decides(Difference, op, ty, true, lab, e.Since(old(e.code)))
  {
    hide Decides;
    var unsigned := ty.IsUnsigned();
    match op {
      case REq =>
        e.Println(Inh(Aba));
        e.Println(Alu(Adc, A, Imm(0)));
        e.Println(Br(Eq, lab));
        EqualByDifference(op, ty, true, lab, Eq);
        assert e.Since(old(e.code)) == [Inh(Aba), Alu(Adc, A, Imm(0)), Br(Eq, lab)];
      case RNe =>
        e.Println(Inh(Aba));
        e.Println(Alu(Adc, A, Imm(0)));
        e.Println(Br(Ne, lab));
        EqualByDifference(op, ty, true, lab, Ne);
        assert e.Since(old(e.code)) == [Inh(Aba), Alu(Adc, A, Imm(0)), Br(Ne, lab)];
      case RLt =>
        e.Println(Br(if unsigned then Cs else Lt, lab));
        LessByDifference(op, ty, true, lab, if unsigned then Cs else Lt);
        assert e.Since(old(e.code)) == [Br(if unsigned then Cs else Lt, lab)];
      case RGe =>
        e.Println(Br(if unsigned then Cc else Ge, lab));
        LessByDifference(op, ty, true, lab, if unsigned then Cc else Ge);
        assert e.Since(old(e.code)) == [Br(if unsigned then Cc else Ge, lab)];
      case RLe =>
        var out, through, low := if unsigned then Cs else Lt, if unsigned then Hi else Gt, Eq;
        e.Println(Br(out, lab));
        e.Println(Br(through, thru));
        e.Println(Un(Tst, B));
        e.Println(Br(low, lab));
        e.Println(Label(thru));
        GreaterByDifference(op, ty, true, lab, thru, out, through, low);
        assert e.Since(old(e.code)) == [Br(out, lab), Br(through, thru), Un(Tst, B), Br(low, lab), Label(thru)];
      case RGt =>
        var out, through, low := if unsigned then Hi else Gt, if unsigned then Cs else Lt, Ne;
        e.Println(Br(out, lab));
        e.Println(Br(through, thru));
        e.Println(Un(Tst, B));
        e.Println(Br(low, lab));
        e.Println(Label(thru));
        GreaterByDifference(op, ty, true, lab, thru, out, through, low);
        assert e.Since(old(e.code)) == [Br(out, lab), Br(through, thru), Un(Tst, B), Br(low, lab), Label(thru)];
    }
  }

  /** D against 0: what follows `gen_expr(lhs)` when the right side is zero. */
  method WordZeroFalse(e: Emitter, op: RelOp, ty: Ty, lab: nat, thru: nat)
    requires ty.IsWide() && lab != thru
    modifies e`code
    ensures old(e.code) <= e.code && LabelsIn(e.Since(old(e.code)), thru, thru + 1)
    ensures Decides(WordInD, op, ty, false, lab, e.Since(old(e.code)))
  {
    hide Decides;
    if op == REq || op == RNe {
      DifferenceFalse(e, op, ty, lab, thru);
      WordBySum(op, op, ty, false, lab, e.Since(old(e.code)));
    } else if ty.IsUnsigned() {
      match op {
        case RGt =>      // node->kind = ND_NE
          DifferenceFalse(e, RNe, ty, lab, thru);
          WordBySum(op, RNe, ty, false, lab, e.Since(old(e.code)));
        case RLe =>      // node->kind = ND_EQ
          DifferenceFalse(e, REq, ty, lab, thru);
          WordBySum(op, REq, ty, false, lab, e.Since(old(e.code)));
        case RLt =>
          e.Println(Jmp(lab));
          WordSurely(op, ty, false, lab);
          assert e.Since(old(e.code)) == [Jmp(lab)];
        case RGe =>
          WordSurely(op, ty, false, lab);
          assert e.Since(old(e.code)) == [];
      }
    } else if op == RLe {
      e.Println(Alu(Sub, B, Imm(1)));
      e.Println(Alu(Sbc, A, Imm(0)));
      e.Println(Br(Ge, lab));
      WordBySubtractingOne(op, ty, false, lab, Ge);
      assert e.Since(old(e.code)) == [Alu(Sub, B, Imm(1)), Alu(Sbc, A, Imm(0)), Br(Ge, lab)];
    } else {
      e.Println(Un(Tst, A));
      ghost var c1 := e.code;
      DifferenceFalse(e, op, ty, lab, thru);
      WordByTst(op, ty, false, lab, e.Since(c1));
      assert e.Since(old(e.code)) == [Un(Tst, A)] + e.Since(c1);
    }
  }

  /** D against 0: what follows `gen_expr(lhs)` when the right side is zero. */
  method WordZeroTrue(e: Emitter, op: RelOp, ty: Ty, lab: nat, thru: nat)
    requires ty.IsWide() && lab != thru
    modifies e`code
    ensures old(e.code) <= e.code && LabelsIn(e.Since(old(e.code)), thru, thru + 1)
    ensures Decides(WordInD, op, ty, true, lab, e.Since(old(e.code)))
  {
    hide Decides;
    if op == REq || op == RNe {
      DifferenceTrue(e, op, ty, lab, thru);
      WordBySum(op, op, ty, true, lab, e.Since(old(e.code)));
    } else if ty.IsUnsigned() {
      match op {
        case RGt =>      // node->kind = ND_NE
          DifferenceTrue(e, RNe, ty, lab, thru);
          WordBySum(op, RNe, ty, true, lab, e.Since(old(e.code)));
        case RLe =>      // node->kind = ND_EQ
          DifferenceTrue(e, REq, ty, lab, thru);
          WordBySum(op, REq, ty, true, lab, e.Since(old(e.code)));
        case RGe =>
          e.Println(Jmp(lab));
          WordSurely(op, ty, true, lab);
          assert e.Since(old(e.code)) == [Jmp(lab)];
        case RLt =>
          WordSurely(op, ty, true, lab);
          assert e.Since(old(e.code)) == [];
      }
    } else if op == RLe {
      e.Println(Alu(Sub, B, Imm(1)));
      e.Println(Alu(Sbc, A, Imm(0)));
      e.Println(Br(Lt, lab));
      WordBySubtractingOne(op, ty, true, lab, Lt);
      assert e.Since(old(e.code)) == [Alu(Sub, B, Imm(1)), Alu(Sbc, A, Imm(0)), Br(Lt, lab)];
    } else {
      e.Println(Un(Tst, A));
      ghost var c1 := e.code;
      DifferenceTrue(e, op, ty, lab, thru);
      WordByTst(op, ty, true, lab, e.Since(c1));
      assert e.Since(old(e.code)) == [Un(Tst, A)] + e.Since(c1);
    }
  }

  /** The branches of whichever way the operands were readied: leave when the relation fails. */
  method BranchFalse(e: Emitter, way: Way, op: RelOp, ty: Ty, lab: nat, thru: nat)
    requires WideWay(way) == ty.IsWide() && (way == SameInX ==> op == REq || op == RNe) && lab != thru
    modifies e`code
    ensures old(e.code) <= e.code && LabelsIn(e.Since(old(e.code)), thru, thru + 1)
    ensures Decides(way, op, ty, false, lab, e.Since(old(e.code)))
  {
    hide Decides;
    match way {
      case Tested => TestedFalse(e, op, ty, lab);
      case ByteInB => ByteZeroFalse(e, op, ty, lab);
      case ZeroInX => ZeroXFalse(e, op, ty, lab, thru);
      case SameInX => SameXFalse(e, op, ty, lab);
      case WordInD => WordZeroFalse(e, op, ty, lab, thru);
      case Difference => DifferenceFalse(e, op, ty, lab, thru);
    }
  }

  /** Leave when the relation holds. */
  method BranchTrue(e: Emitter, way: Way, op: RelOp, ty: Ty, lab: nat, thru: nat)
    requires WideWay(way) == ty.IsWide() && (way == SameInX ==> op == REq || op == RNe) && lab != thru
    modifies e`code
    ensures old(e.code) <= e.code && LabelsIn(e.Since(old(e.code)), thru, thru + 1)
    ensures Decides(way, op, ty, true, lab, e.Since(old(e.code)))
  {
    hide Decides;
    match way {
      case Tested => TestedTrue(e, op, ty, lab);
      case ByteInB => ByteZeroTrue(e, op, ty, lab);
      case ZeroInX => ZeroXTrue(e, op, ty, lab, thru);
      case SameInX => SameXTrue(e, op, ty, lab);
      case WordInD => WordZeroTrue(e, op, ty, lab, thru);
      case Difference => DifferenceTrue(e, op, ty, lab, thru);
    }
  }
}
