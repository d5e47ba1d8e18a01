/** `switch`: the checks on its case labels (parse.c) and the chain of comparisons printed for it (codegen.c). */
module Switches {
  import opened Arith
  import opened Bits
  import opened CTypes
  import opened Machine
  import opened Shifts
  import opened Muls

  /** A case label, or a GNU range of them. */
  datatype Case = Case(begin: int, end: int, lab: nat)

  predicate Covers(c: Case, v: int) { c.begin <= v <= c.end }

  // ----- the checks -----

  /** The type the labels are converted to: that of the promoted controlling expression. */
  function LabelType(ty: Type, bits: nat): Type {
    // `bits` is the width of a bit-field, 0 for anything else
    if bits > 0 then
      (if bits == 16 && ty.unsigned then TypeRec(KInt, true) else if bits <= 16 then INT else ty)
    else if ty.Size() < 2 then INT
    else if ty.kind == KShort then TypeRec(KInt, ty.unsigned)
    else ty
  }

  /** The values of a bit-field of `bits` bits, or of the type. */
  predicate ValueOf(v: int, ty: Type, bits: nat) {
    if bits == 0 then InRange(v, ty)
    else if ty.unsigned then 0 <= v < Pow2(bits)
    else 0 <= v + Pow2(bits - 1) < Pow2(bits)
  }

  lemma HalfWidths()
    ensures Pow2(7) == 128 && Pow2(15) == 32768 && Pow2(31) == 0x8000_0000
  {
    Pow2Values();
    assert Pow2(8) == 2 * Pow2(7) && Pow2(16) == 2 * Pow2(15) && Pow2(32) == 2 * Pow2(31);
  }

  lemma TwiceHalf(n: nat)
    requires n > 0
    ensures Pow2(n) == 2 * Pow2(n - 1)
  {
  }

  /** Promotion keeps every value: it is one of the type of the labels. */
  lemma LabelTypeHolds(v: int, ty: Type, bits: nat)
    requires bits <= ty.Bits() && ValueOf(v, ty, bits)
    ensures InRange(v, LabelType(ty, bits))
  {
    hide Pow2;
    Pow2Values();
    HalfWidths();
    if bits > 0 {
      TwiceHalf(bits);
      Pow2Monotonic(bits - 1, ty.Bits() - 1);
      Pow2Monotonic(bits, ty.Bits());
      if bits <= 16 {
        Pow2Monotonic(bits - 1, 15);
        Pow2Monotonic(bits, if bits < 16 then 15 else 16);
      }
    }
  }

  function Normalized(c: Case, ty: Type): Case {
    if c.begin != c.end then c else Case(Fit(c.begin, ty), Fit(c.begin, ty), c.lab)
  }

  /** `n` is the written label in the type: a range as it is, a constant as the number of the type congruent to it. */
  predicate Converted(c: Case, n: Case, ty: Type) {
    n.lab == c.lab &&
    if c.begin != c.end then n == c else n.end == n.begin && InRange(n.begin, ty) && (n.begin - c.begin) % ty.Modulus() == 0
  }

  lemma NormalizedConverts(c: Case, ty: Type)
    requires ty.kind != KBool
    ensures Converted(c, Normalized(c, ty), ty)
    ensures InRange(c.begin, ty) ==> Normalized(c, ty) == c
  {
    hide Fit;
    FitCong(c.begin, ty);
    if InRange(c.begin, ty) {
      FitSelf(c.begin, ty);
    }
  }

  /** A value of the type is meant by a written label: in its range, or what its constant is converted to. */
  predicate Means(c: Case, v: int, ty: Type) {
    if c.begin != c.end then c.begin <= v <= c.end else (v - c.begin) % ty.Modulus() == 0
  }

  lemma CoversWhatIsMeant(c: Case, n: Case, v: int, ty: Type)
    requires ty.kind != KBool && Converted(c, n, ty) && InRange(v, ty)
    ensures Covers(n, v) <==> Means(c, v, ty)
  {
    if c.begin == c.end {
      var m, d := ty.Modulus(), n.begin - c.begin;
      ModSub(v - c.begin, d, m);
      assert v - c.begin - d == v - n.begin;
      if Means(c, v, ty) {
        NearZero(v - n.begin, m);
      }
    }
  }

  /** Of an accepted list the label chosen for a value is the one whose written label means it. */
  lemma ChosenAsWritten(was: seq<Case>, cs: seq<Case>, ty: Type, v: int)
    requires ty.kind != KBool && |was| == |cs| && Accepted(cs, ty) && InRange(v, ty)
    requires forall i :: 0 <= i < |cs| ==> Converted(was[i], cs[i], ty)
    ensures forall i :: 0 <= i < |was| && Means(was[i], v, ty) ==> Chosen(cs, v) == At(was[i].lab)
    ensures (forall i :: 0 <= i < |was| ==> !Means(was[i], v, ty)) ==> Chosen(cs, v) == Nowhere
  {
    hide Means, Converted, Accepted, Chosen, Covers, InRange;
    forall i | 0 <= i < |was|
      ensures Covers(cs[i], v) <==> Means(was[i], v, ty)
      ensures cs[i].lab == was[i].lab
    {
      CoversWhatIsMeant(was[i], cs[i], v, ty);
      SameLabel(was[i], cs[i], ty);
    }
    forall i | 0 <= i < |was| && Means(was[i], v, ty)
      ensures Chosen(cs, v) == At(was[i].lab)
    {
      ChosenUniquely(cs, ty, v, i);
    }
    if forall i :: 0 <= i < |was| ==> !Means(was[i], v, ty) {
      ChosenNowhere(cs, v);
    }
  }

  lemma SameLabel(c: Case, n: Case, ty: Type)
    requires Converted(c, n, ty)
    ensures n.lab == c.lab
  {
  }

  predicate RangeFits(c: Case, ty: Type) { c.begin == c.end || (MinValue(ty) <= c.begin && c.end <= MaxValue(ty)) }

  predicate Overlap(c: Case, d: Case) { c.begin <= d.end && d.begin <= c.end }

  /** What an accepted switch is known to have. */
  predicate Accepted(cs: seq<Case>, ty: Type) {
    && (forall i :: 0 <= i < |cs| ==> cs[i].begin <= cs[i].end && InRange(cs[i].begin, ty) && InRange(cs[i].end, ty))
    && (forall i, j :: 0 <= i < j < |cs| ==> !Overlap(cs[i], cs[j]))
  }

  /** Labels are converted in place; a range that does not fit or two labels that meet are errors. */
  method CheckCases(cases: array<Case>, ty: Type) returns (ok: bool)
    requires ty.kind != KBool && forall i :: 0 <= i < cases.Length ==> cases[i].begin <= cases[i].end
    modifies cases
    ensures ok ==> Accepted(cases[..], ty) && forall i :: 0 <= i < cases.Length ==> Converted(old(cases[i]), cases[i], ty)
    ensures ok ==> forall i :: 0 <= i < cases.Length ==> cases[i] == Normalized(old(cases[i]), ty)
    ensures ok <==>
      && (forall i :: 0 <= i < cases.Length ==> RangeFits(old(cases[i]), ty))
      && (forall i, j :: 0 <= i < j < cases.Length ==> !Overlap(Normalized(old(cases[i]), ty), Normalized(old(cases[j]), ty)))
  {
    hide Fit;
    for n := 0 to cases.Length
      invariant forall i :: n <= i < cases.Length ==> cases[i] == old(cases[i])
      invariant forall i :: 0 <= i < n ==> cases[i] == Normalized(old(cases[i]), ty) && RangeFits(old(cases[i]), ty)
    {
      if cases[n].begin != cases[n].end {
        if cases[n].begin < MinValue(ty) || cases[n].end > MaxValue(ty) { return false; }
      } else {
        var v := Fit(cases[n].begin, ty);
        cases[n] := Case(v, v, cases[n].lab);
      }
    }
    for n := 0 to cases.Length
      invariant forall i, j :: 0 <= i < n && i < j < cases.Length ==> !Overlap(cases[i], cases[j])
    {
      for m := n + 1 to cases.Length
        invariant forall j :: n < j < m ==> !Overlap(cases[n], cases[j])
      {
        if cases[n].begin <= cases[m].end && cases[m].begin <= cases[n].end { return false; }
      }
    }
    forall i | 0 <= i < cases.Length
      ensures Converted(old(cases[i]), cases[i], ty)
    {
      NormalizedConverts(old(cases[i]), ty);
    }
    ok := true;
  }

  // ----- where control should go -----

  datatype Choice = At(lab: nat) | Nowhere

  /** The first case that covers the value. */
  function Chosen(cs: seq<Case>, v: int): Choice {
    if cs == [] then Nowhere else if Covers(cs[0], v) then At(cs[0].lab) else Chosen(cs[1..], v)
  }

  lemma BothCover(c: Case, d: Case, v: int)
    requires Covers(c, v) && Covers(d, v)
    ensures Overlap(c, d) && Overlap(d, c)
  {
  }

  /** No other case covers it. */
  lemma {:induction false} ChosenUniquely(cs: seq<Case>, ty: Type, v: int, i: nat)
    requires Accepted(cs, ty) && i < |cs| && Covers(cs[i], v)
    ensures Chosen(cs, v) == At(cs[i].lab)
    ensures forall j :: 0 <= j < |cs| && Covers(cs[j], v) ==> j == i
  {
    forall j | 0 <= j < |cs| && Covers(cs[j], v)
      ensures j == i
    {
      BothCover(cs[i], cs[j], v);
    }
    if i > 0 {
      var rest := cs[1..];
      assert forall a, b :: 0 <= a < b < |rest| ==> !Overlap(rest[a], rest[b]) by {
        forall a, b | 0 <= a < b < |rest|
          ensures !Overlap(rest[a], rest[b])
        {
          assert !Overlap(cs[a + 1], cs[b + 1]);
        }
      }
      ChosenUniquely(rest, ty, v, i - 1);
    }
  }

  lemma {:induction false} ChosenNowhere(cs: seq<Case>, v: int)
    requires forall i :: 0 <= i < |cs| ==> !Covers(cs[i], v)
    ensures Chosen(cs, v) == Nowhere
  {
    if cs != [] {
      ChosenNowhere(cs[1..], v);
    }
  }

  lemma {:induction false} ChosenAppend(cs: seq<Case>, c: Case, v: int)
    ensures Chosen(cs + [c], v) ==
            if Chosen(cs, v).At? then Chosen(cs, v) else if Covers(c, v) then At(c.lab) else Nowhere
  {
    if cs == [] {
      assert cs + [c] == [c];
      assert [c][1..] == [];
    } else {
      assert (cs + [c])[1..] == cs[1..] + [c];
      ChosenAppend(cs[1..], c, v);
    }
  }

  // ----- one comparison -----

  /** Where the value of the controlling expression is kept. */
  datatype Form = AsB | AsD | AsX

  predicate Held(form: Form, v: int, s: State) {
    match form
    case AsB => s.b == v % 256
    case AsD => D(s) == v % 65536
    case AsX => s.x == v % 65536
  }

  /** Falling out of a comparison the value is where it was, and so is the stack. */
  predicate StillHeld(form: Form, s: State, t: State) {
    && t.sp == s.sp
    && (forall a: Word :: a != s.sp && a != Wrap(s.sp - 1) ==> t.mem[a] == s.mem[a])
    && match form
       case AsB => t.b == s.b
       case AsD => D(t) == D(s)
       case AsX => t.x == s.x
  }

  /** The outcome of a comparison with `c`: its label exactly where it covers the value. */
  predicate Decides(form: Form, c: Case, v: int, s: State, o: Outcome) {
    if Covers(c, v) then o.Goto? && o.lab == c.lab && o.s.sp == s.sp
    else o.Fall? && StillHeld(form, s, o.s)
  }

  /** The numbers that a form can tell apart, the least of them `low`. */
  predicate Among(v: int, form: Form, low: int) { low <= v < low + (if form == AsB then 256 else 65536) }

  ghost predicate Tests(form: Form, c: Case, ty: Type, low: int, code: seq<Instr>) {
    forall orc, s, v :: InRange(v, ty) && Among(v, form, low) && Held(form, v, s) ==> Decides(form, c, v, s, Run(orc, code, s))
  }

  /** Two of them are equal if they are modulo the width. */
  lemma SameResidue(x: int, y: int, low: int, m: nat)
    requires low <= x < low + m && low <= y < low + m
    ensures x % m == y % m <==> x == y
  {
    if x % m == y % m {
      Divides(x, y, m);
      NearZero(x - y, m);
    }
  }

  lemma Divides(x: int, y: int, m: nat)
    requires m > 0 && x % m == y % m
    ensures (x - y) % m == 0
  {
    ModSub(x, y, m);
    ModSub(x % m, y, m);
  }

  lemma NearZero(d: int, m: nat)
    requires 0 < d + m < 2 * m && d % m == 0
    ensures d == 0
  {
    if d >= 0 {
      DivModUnique(d, 0, d, m);
    } else {
      DivModUnique(d, -1, d + m, m);
    }
  }

  lemma BranchRuns(orc: Oracle, i: Instr, c: Cond, lab: nat, s: State)
    requires Straight(i)
    ensures var t := Step(i, s); Run(orc, [i, Br(c, lab)], s) == if Machine.Holds(c, t.f) then Goto(lab, t) else Fall(t)
  {
    hide Step;
    assert [i, Br(c, lab)] == [i] + ([Br(c, lab)] + []);
    RunStep(orc, i, [Br(c, lab)] + [], s);
    RunBr(orc, c, lab, [], Step(i, s));
  }

  lemma SubZero(x: Byte, y: Byte)
    ensures SubFlags(x, y, false).z <==> x == y
  {
  }

  lemma TestB(c: Case, ty: Type, low: int)
    requires c.begin == c.end && Among(c.begin, AsB, low)
    ensures Tests(AsB, c, ty, low, [Alu(Cmp, B, Imm(Machine.Low(c.begin))), Br(Eq, c.lab)])
  {
    hide Run, Step, SubFlags, InRange;
    var i := Alu(Cmp, B, Imm(Machine.Low(c.begin)));
    forall orc, s, v | InRange(v, ty) && Among(v, AsB, low) && Held(AsB, v, s)
      ensures Decides(AsB, c, v, s, Run(orc, [i, Br(Eq, c.lab)], s))
    {
      BranchRuns(orc, i, Eq, c.lab, s);
      StepAlu(Cmp, B, i.opnd, s);
      SubZero(s.b, i.opnd.k);
      SameResidue(v, c.begin, low, 256);
    }
  }

  lemma TestX(c: Case, ty: Type, low: int)
    requires c.begin == c.end && Among(c.begin, AsX, low)
    ensures Tests(AsX, c, ty, low, [Cpx(Imm16(c.begin % 65536)), Br(Eq, c.lab)])
  {
    hide Run, Step, SubFlags, InRange;
    var i := Cpx(Imm16(c.begin % 65536));
    forall orc, s, v | InRange(v, ty) && Among(v, AsX, low) && Held(AsX, v, s)
      ensures Decides(AsX, c, v, s, Run(orc, [i, Br(Eq, c.lab)], s))
    {
      BranchRuns(orc, i, Eq, c.lab, s);
      StepCpx(Imm16(c.begin % 65536), s);
      SameResidue(v, c.begin, low, 65536);
    }
  }

  /** cmpb; bne L; cmpa; jeq; L: */
  function WordTest(n: int, lab: nat, skip: nat): seq<Instr> {
    [Alu(Cmp, B, Imm(Machine.Low(n))), Br(Ne, skip)] + ([Alu(Cmp, A, Imm(High(n))), Br(Eq, lab)] + ([Label(skip)] + []))
  }

  lemma TestD(c: Case, ty: Type, low: int, skip: nat)
    requires c.begin == c.end && Among(c.begin, AsD, low) && skip != c.lab
    ensures Tests(AsD, c, ty, low, WordTest(c.begin, c.lab, skip))
  {
    hide Run, Step, SubFlags, InRange, Take, WordTest;
    forall orc, s, v | InRange(v, ty) && Among(v, AsD, low) && Held(AsD, v, s)
      ensures Decides(AsD, c, v, s, Run(orc, WordTest(c.begin, c.lab, skip), s))
    {
      WordTestRuns(orc, c.begin, c.lab, skip, s);
      SameResidue(v, c.begin, low, 65536);
      WordSplit(c.begin);
      SameBytes(s.a, s.b, High(c.begin), Machine.Low(c.begin));
    }
  }

  lemma SameBytes(a: Byte, b: Byte, hi: Byte, lo: Byte)
    ensures (a == hi && b == lo) <==> Cat(a, b) == 256 * hi + lo
  {
  }

  lemma WordTestRuns(orc: Oracle, n: int, lab: nat, skip: nat, s: State)
    requires skip != lab
    ensures var o := Run(orc, WordTest(n, lab, skip), s);
      && o.s == s.(f := o.s.f)
      && if s.b == Machine.Low(n) && s.a == High(n) then o.Goto? && o.lab == lab else o.Fall?
  {
    hide Run, Step, SubFlags, Take;
    var i1, i2 := Alu(Cmp, B, Imm(Machine.Low(n))), Alu(Cmp, A, Imm(High(n)));
    var last := [Label(skip)] + [];
    var mid := [i2, Br(Eq, lab)] + last;
    BranchRuns(orc, i1, Ne, skip, s);
    StepAlu(Cmp, B, i1.opnd, s);
    SubZero(s.b, i1.opnd.k);
    var t := Step(i1, s);
    RunAppend(orc, [i1, Br(Ne, skip)], mid, s);
    if Machine.Holds(Ne, t.f) {
      TakePast(orc, skip, [i2, Br(Eq, lab)], last, t);
      TakeHere(orc, skip, [], t);
      RunNone(orc, t);
    } else {
      BranchRuns(orc, i2, Eq, lab, t);
      StepAlu(Cmp, A, i2.opnd, t);
      SubZero(t.a, i2.opnd.k);
      RunAppend(orc, [i2, Br(Eq, lab)], last, t);
      var u := Step(i2, t);
      if Machine.Holds(Eq, u.f) {
        TakePast(orc, lab, last, [], u);
      } else {
        RunLabel(orc, skip, [], u);
        RunNone(orc, u);
      }
    }
  }

  // ----- ranges -----

  /** A range as long as the type needs no test. */
  predicate Full(c: Case, ty: Type) { c.begin <= MinValue(ty) && c.end >= MaxValue(ty) }

  lemma TestFull(form: Form, c: Case, ty: Type, low: int)
    requires Full(c, ty)
    ensures Tests(form, c, ty, low, [Jmp(c.lab)])
  {
    hide Run, Take;
    forall orc, s, v | InRange(v, ty) && Among(v, form, low) && Held(form, v, s)
      ensures Decides(form, c, v, s, Run(orc, [Jmp(c.lab)], s))
    {
      assert [Jmp(c.lab)] == [Jmp(c.lab)] + [];
      RunJmp(orc, c.lab, [], s);
      TakePast(orc, c.lab, [], [], s);
    }
  }

  /** The test: the distance from the beginning, modulo the width, is below the length. */
  lemma InsideRange(v: int, begin: int, end: int, lo: int, m: nat)
    requires m > 0 && lo <= v < lo + m && lo <= begin <= end < lo + m
    ensures (v - begin) % m < end - begin + 1 <==> begin <= v <= end
  {
    if v >= begin {
      DivModUnique(v - begin, 0, v - begin, m);
    } else {
      DivModUnique(v - begin, -1, v - begin + m, m);
    }
  }

  /** tba; suba; cmpa; jcs */
  function ByteRange(c: Case): seq<Instr> {
    [Inh(Tba), Alu(Sub, A, Imm(Machine.Low(c.begin)))] + [Alu(Cmp, A, Imm(Machine.Low(c.end - c.begin + 1))), Br(Cs, c.lab)]
  }

  lemma TestByteRange(c: Case, ty: Type, low: int)
    requires c.begin <= c.end && Among(c.begin, AsB, low) && Among(c.end, AsB, low) && c.end - c.begin + 1 < 256
    ensures Tests(AsB, c, ty, low, ByteRange(c))
  {
    hide Run, Step, SubFlags, ByteRange;
    forall orc, s, v | InRange(v, ty) && Among(v, AsB, low) && Held(AsB, v, s)
      ensures Decides(AsB, c, v, s, Run(orc, ByteRange(c), s))
    {
      ByteRangeRuns(orc, c, s);
      DistanceByte(v, c.begin);
      InsideRange(v, c.begin, c.end, low, 256);
      DivModUnique(c.end - c.begin + 1, 0, c.end - c.begin + 1, 256);
    }
  }

  lemma DistanceByte(v: int, begin: int)
    ensures (v - begin) % 256 == Wrap8(v % 256 - begin % 256)
  {
    ModSub(v, begin, 256);
    ModSub(v % 256, begin, 256);
    var d := v % 256 - begin % 256;
    DivModUnique(d, if d < 0 then -1 else 0, if d < 0 then d + 256 else d, 256);
  }

  lemma ByteRangeRuns(orc: Oracle, c: Case, s: State)
    ensures var o := Run(orc, ByteRange(c), s);
      && o.s == s.(a := o.s.a, f := o.s.f)
      && if Wrap8(s.b - c.begin % 256) < (c.end - c.begin + 1) % 256 then o.Goto? && o.lab == c.lab else o.Fall?
  {
    hide Run, Step, SubFlags, Exec;
    var c1 := [Inh(Tba), Alu(Sub, A, Imm(Machine.Low(c.begin)))];
    var i := Alu(Cmp, A, Imm(Machine.Low(c.end - c.begin + 1)));
    Exec2(c1[0], c1[1], s);
    StepMove(s);
    StepAlu(Sub, A, c1[1].opnd, Step(Inh(Tba), s));
    var t := Exec(c1, s);
    RunStraight(orc, c1, s);
    RunAppend(orc, c1, [i, Br(Cs, c.lab)], s);
    BranchRuns(orc, i, Cs, c.lab, t);
    StepAlu(Cmp, A, i.opnd, t);
    SubCarry(t.a, i.opnd.k, false);
  }

  /** pshb; psha; subb; sbca; subb; sbca; pula; pulb; jcs */
  function WordRange(c: Case): seq<Instr> {
    var len := c.end - c.begin + 1;
    [Psh(B), Psh(A)]
    + ([Alu(Sub, B, Imm(Machine.Low(c.begin))), Alu(Sbc, A, Imm(High(c.begin)))]
    + ([Alu(Sub, B, Imm(Machine.Low(len))), Alu(Sbc, A, Imm(High(len)))]
    + ([Pul(A)] + [Pul(B), Br(Cs, c.lab)])))
  }

  /** It compares the distance with the length, both modulo 65536. */
  lemma WordRangeRuns(orc: Oracle, c: Case, s: State)
    ensures var o := Run(orc, WordRange(c), s);
      && StillHeld(AsD, s, o.s)
      && if (D(s) - c.begin % 65536) % 65536 < (c.end - c.begin + 1) % 65536 then o.Goto? && o.lab == c.lab else o.Fall?
  {
    hide Run, Step, SubFlags, Exec, D;
    var len := c.end - c.begin + 1;
    var c1, c2 := [Psh(B), Psh(A)], [Alu(Sub, B, Imm(Machine.Low(c.begin))), Alu(Sbc, A, Imm(High(c.begin)))];
    var c3, c4 := [Alu(Sub, B, Imm(Machine.Low(len))), Alu(Sbc, A, Imm(High(len)))], [Pul(A)];
    var last := [Pul(B), Br(Cs, c.lab)];
    WordSplit(c.begin);
    WordSplit(len);
    Pushed(s);
    var s1 := Exec(c1, s);
    SameD(s, s1);
    SubPair(c2[1].opnd, c2[0].opnd, c.begin % 65536, s1);
    var s2 := Exec(c2, s1);
    SubPair(c3[1].opnd, c3[0].opnd, len % 65536, s2);
    SubBorrow(c3[1].opnd, c3[0].opnd, len % 65536, s2);
    var s3 := Exec(c3, s2);
    Exec1(Pul(A), s3);
    StepPull(A, s3);
    var s4 := Step(Pul(A), s3);
    BranchRuns(orc, Pul(B), Cs, c.lab, s4);
    StepPull(B, s4);
    RunStraight(orc, c1, s);
    RunStraight(orc, c2, s1);
    RunStraight(orc, c3, s2);
    RunStraight(orc, c4, s3);
    RunAppend(orc, c1, c2 + (c3 + (c4 + last)), s);
    RunAppend(orc, c2, c3 + (c4 + last), s1);
    RunAppend(orc, c3, c4 + last, s2);
    RunAppend(orc, c4, last, s3);
    Popped(s);
    SameD(s, Step(Pul(B), s4));
  }

  lemma Pushed(s: State)
    ensures Exec([Psh(B), Psh(A)], s) == s.(mem := s.mem[s.sp := s.b][Wrap(s.sp - 1) := s.a], sp := Wrap(Wrap(s.sp - 1) - 1))
  {
    hide Exec, Step;
    Exec2(Psh(B), Psh(A), s);
    StepPush(B, s);
    StepPush(A, Step(Psh(B), s));
  }

  lemma Popped(s: State)
    ensures var sp := Wrap(Wrap(s.sp - 1) - 1); Wrap(sp + 1) == Wrap(s.sp - 1) && Wrap(Wrap(sp + 1) + 1) == s.sp && Wrap(s.sp - 1) != s.sp
  {
  }

  /** The borrow out of a 16-bit subtraction. */
  lemma SubBorrow(hi: Opnd, lo: Opnd, v: Word, s: State)
    requires Rd(lo, s) == v % 256 && Rd(hi, s) == v / 256
    ensures Exec([Alu(Sub, B, lo), Alu(Sbc, A, hi)], s).f.c <==> D(s) < v
  {
    hide Exec, Step, Rd, SubFlags;
    Exec2(Alu(Sub, B, lo), Alu(Sbc, A, hi), s);
    var u := Step(Alu(Sub, B, lo), s);
    StepAlu(Sub, B, lo, s);
    RdSame(hi, s, u);
    StepAlu(Sbc, A, hi, u);
    SubCarry(s.b, v % 256, false);
    SubCarry(s.a, v / 256, u.f.c);
    HalfWord(v);
  }

  lemma StackHeld(form: Form, s: State, t: State)
    requires StillHeld(form, s, t)
    ensures t.sp == s.sp
  {
  }

  lemma TestWordRange(c: Case, ty: Type, low: int)
    requires c.begin <= c.end && Among(c.begin, AsD, low) && Among(c.end, AsD, low) && c.end - c.begin + 1 < 65536
    ensures Tests(AsD, c, ty, low, WordRange(c))
  {
    hide Run, WordRange, StillHeld;
    forall orc, s, v | InRange(v, ty) && Among(v, AsD, low) && Held(AsD, v, s)
      ensures Decides(AsD, c, v, s, Run(orc, WordRange(c), s))
    {
      WordRangeRuns(orc, c, s);
      ModSub(v, c.begin, 65536);
      ModSub(v % 65536, c.begin, 65536);
      InsideRange(v, c.begin, c.end, low, 65536);
      SmallMod(c.end - c.begin + 1);
      StackHeld(AsD, s, Run(orc, WordRange(c), s).s);
    }
  }

  /** A range of 65536 values that is not seen to be full is never taken: its length is 0 modulo 65536. */
  lemma LongRangeNeverTaken(orc: Oracle, c: Case, s: State)
    requires c.end - c.begin + 1 == 65536
    ensures Run(orc, WordRange(c), s).Fall?
  {
    hide Run, WordRange, StillHeld;
    WordRangeRuns(orc, c, s);
    DivModUnique(65536, 1, 0, 65536);
  }

  /**
   That happens: an unsigned bit-field of less than 16 bits has labels of type int but is itself unsigned,
   so `case -32768 ... 32767` covers all its values, passes the checks and is not full.
   */
  lemma BitfieldRangeMissed(orc: Oracle, s: State)
    ensures var ty, c := TypeRec(KInt, true), Case(-32768, 32767, 7);
      && LabelType(ty, 8) == INT && Accepted([c], INT) && !Full(c, ty)
      && (forall v :: 0 <= v < 256 ==> Covers(c, v))
      && Run(orc, WordRange(c), s).Fall?
  {
    hide Run;
    LongRangeNeverTaken(orc, Case(-32768, 32767, 7), s);
  }

  // ----- the chain -----

  /** The cases so far: control is at the label chosen among them, or the value is still held. */
  predicate Sifts(form: Form, cs: seq<Case>, v: int, s: State, o: Outcome) {
    match Chosen(cs, v)
    case At(lab) => o.Goto? && o.lab == lab && o.s.sp == s.sp
    case Nowhere => o.Fall? && o.s.sp == s.sp && Held(form, v, o.s)
  }

  ghost predicate ChainOf(form: Form, cs: seq<Case>, ty: Type, low: int, code: seq<Instr>) {
    forall orc, s, v :: InRange(v, ty) && Among(v, form, low) && Held(form, v, s) ==> Sifts(form, cs, v, s, Run(orc, code, s))
  }

  lemma ChainEmpty(form: Form, ty: Type, low: int)
    ensures ChainOf(form, [], ty, low, [])
  {
    forall orc, s, v | InRange(v, ty) && Among(v, form, low) && Held(form, v, s)
      ensures Sifts(form, [], v, s, Run(orc, [], s))
    {
      RunNone(orc, s);
    }
  }

  /** A test behind the chain; the label it may jump over is none of those before. */
  lemma ChainMore(form: Form, cs: seq<Case>, c: Case, ty: Type, low: int, code: seq<Instr>, test: seq<Instr>)
    requires ChainOf(form, cs, ty, low, code) && Tests(form, c, ty, low, test)
    requires forall i :: 0 <= i < |cs| ==> Label(cs[i].lab) !in test
    ensures ChainOf(form, cs + [c], ty, low, code + test)
  {
    hide Run, Take, Chosen, Held;
    forall orc, s, v | InRange(v, ty) && Among(v, form, low) && Held(form, v, s)
      ensures Sifts(form, cs + [c], v, s, Run(orc, code + test, s))
    {
      var o := Run(orc, code, s);
      assert Sifts(form, cs, v, s, o);
      RunAppend(orc, code, test, s);
      ChosenAppend(cs, c, v);
      if Chosen(cs, v).At? {
        ChosenLabel(cs, v);
        TakePast(orc, o.lab, test, [], o.s);
      } else {
        var o2 := Run(orc, test, o.s);
        assert Decides(form, c, v, o.s, o2);
        if !Covers(c, v) {
          HeldStill(form, v, o.s, o2.s);
        }
      }
    }
  }

  lemma HeldStill(form: Form, v: int, s: State, t: State)
    requires Held(form, v, s) && StillHeld(form, s, t)
    ensures Held(form, v, t) && t.sp == s.sp
  {
  }

  lemma {:induction false} ChosenLabel(cs: seq<Case>, v: int)
    requires Chosen(cs, v).At?
    ensures exists i :: 0 <= i < |cs| && cs[i].lab == Chosen(cs, v).lab
  {
    if Covers(cs[0], v) {
      assert cs[0].lab == Chosen(cs, v).lab;
    } else {
      ChosenLabel(cs[1..], v);
      var i :| 0 <= i < |cs[1..]| && cs[1..][i].lab == Chosen(cs[1..], v).lab;
      assert cs[i + 1].lab == Chosen(cs, v).lab;
    }
  }

  /** Where a value that no case covers goes. */
  function Target(cs: seq<Case>, default: Choice, brk: nat, v: int): nat {
    if Chosen(cs, v).At? then Chosen(cs, v).lab else if default.At? then default.lab else brk
  }

  /** Whatever the value, the code goes to its case, else to the default, else past the switch, the stack as it was. */
  ghost predicate Dispatches(form: Form, cs: seq<Case>, default: Choice, brk: nat, ty: Type, low: int, code: seq<Instr>) {
    forall orc, s, v :: InRange(v, ty) && Among(v, form, low) && Held(form, v, s) ==> GoesTo(Target(cs, default, brk, v), s, Run(orc, code, s))
  }

  predicate GoesTo(lab: nat, s: State, o: Outcome) { o.Goto? && o.lab == lab && o.s.sp == s.sp }

  lemma ChainEnds(form: Form, cs: seq<Case>, default: Choice, brk: nat, ty: Type, low: int, code: seq<Instr>)
    requires ChainOf(form, cs, ty, low, code)
    ensures Dispatches(form, cs, default, brk, ty, low, code + Ends(default, brk))
  {
    hide Run, Take, Chosen, Held;
    var last := Ends(default, brk);
    forall orc, s, v | InRange(v, ty) && Among(v, form, low) && Held(form, v, s)
      ensures GoesTo(Target(cs, default, brk, v), s, Run(orc, code + last, s))
    {
      var o := Run(orc, code, s);
      assert Sifts(form, cs, v, s, o);
      RunAppend(orc, code, last, s);
      if Chosen(cs, v).At? {
        TakePast(orc, o.lab, last, [], o.s);
      } else {
        EndsRuns(orc, default, brk, o.s);
      }
    }
  }

  function Ends(default: Choice, brk: nat): seq<Instr> { (if default.At? then [Jmp(default.lab)] else []) + [Jmp(brk)] }

  lemma EndsRuns(orc: Oracle, default: Choice, brk: nat, s: State)
    ensures Run(orc, Ends(default, brk), s) == Goto(if default.At? then default.lab else brk, s)
  {
    hide Run, Take;
    assert [Jmp(brk)] == [Jmp(brk)] + [];
    RunJmp(orc, brk, [], s);
    TakePast(orc, brk, [], [], s);
    if default.At? {
      RunJmp(orc, default.lab, [Jmp(brk)], s);
      TakePast(orc, default.lab, [Jmp(brk)], [], s);
    } else {
      assert Ends(default, brk) == [Jmp(brk)];
    }
  }

  // ----- ND_SWITCH -----

  /** A one-byte type holds the value. */
  predicate ByteHolds(ty: Type, v: int) { if ty.unsigned then 0 <= v <= 255 else -128 <= v <= 127 }

  /** Some label is out of reach of the byte type, so the expression is promoted. */
  predicate NeedsPromotion(cs: seq<Case>, ty: Type) {
    ty.Size() == 1 && exists i :: 0 <= i < |cs| && (!ByteHolds(ty, cs[i].begin) || !ByteHolds(ty, cs[i].end))
  }

  predicate HasRanges(cs: seq<Case>) { exists i :: 0 <= i < |cs| && cs[i].begin != cs[i].end }

  /** The type the comparisons are made in, and where they find the value. */
  function CompareType(cs: seq<Case>, ty: Type): Type { if NeedsPromotion(cs, ty) then INT else ty }

  function CompareForm(cs: seq<Case>, ty: Type): Form {
    if CompareType(cs, ty).Size() == 1 then AsB else if HasRanges(cs) then AsD else AsX
  }

  /** The least label of those the comparisons tell apart. */
  function Lowest(cs: seq<Case>, ty: Type, bits: nat): int {
    if CompareForm(cs, ty) == AsB then MinValue(ty) else MinValue(LabelType(ty, bits))
  }

  /** A range of 65536 values that is not full for the type of the comparison. */
  predicate Missed(c: Case, ty: Type) { c.end - c.begin + 1 == 65536 && !Full(c, ty) }

  predicate AnyMissed(cs: seq<Case>, ty: Type) { exists i :: 0 <= i < |cs| && Missed(cs[i], CompareType(cs, ty)) }

  /** An unsigned bit-field of 1 to 15 bits in an int, with the one label -32768 ... 32767. */
  predicate WholeRangeOfBitfield(cs: seq<Case>, ty: Type, bits: nat) {
    ty.unsigned && ty.Size() == 2 && 0 < bits < 16 && |cs| == 1 && cs[0].begin == -32768 && cs[0].end == 32767
  }

  lemma MissedMeets(cs: seq<Case>, ty: Type, bits: nat, i: nat, j: nat)
    requires ty.Size() <= 2 && bits <= 16 && Accepted(cs, LabelType(ty, bits)) && i < |cs| && Missed(cs[i], CompareType(cs, ty))
    requires j < |cs|
    ensures Overlap(cs[i], cs[j]) && Overlap(cs[j], cs[i])
  {
    var lty := LabelType(ty, bits);
    assert lty.Size() == 2 && MaxValue(lty) - MinValue(lty) == 65535;
  }

  /** A missed label covers all that the comparisons tell apart, so it is the only one. */
  lemma MissedAlone(cs: seq<Case>, ty: Type, bits: nat, i: nat)
    requires ty.Size() <= 2 && bits <= 16 && Accepted(cs, LabelType(ty, bits)) && i < |cs| && Missed(cs[i], CompareType(cs, ty))
    ensures |cs| == 1 && CompareForm(cs, ty) == AsD && InRange(0, CompareType(cs, ty))
    ensures cs[0].begin == Lowest(cs, ty, bits) && cs[0].begin <= 0 <= cs[0].end && cs[0].end < Lowest(cs, ty, bits) + 65536
  {
    var lty := LabelType(ty, bits);
    assert lty.Size() == 2 && MaxValue(lty) - MinValue(lty) == 65535;
    if |cs| > 1 {
      MissedMeets(cs, ty, bits, i, if i == 0 then 1 else 0);
    }
  }

  /** Which switches miss a label, in what a caller can see: for every width a bit-field can have, and no bit-field. */
  lemma MissedExactly(cs: seq<Case>, ty: Type, bits: nat)
    requires ty.Size() <= 2 && bits <= 8 * ty.Size() && Accepted(cs, LabelType(ty, bits))
    ensures AnyMissed(cs, ty) <==> WholeRangeOfBitfield(cs, ty, bits)
  {
    if AnyMissed(cs, ty) {
      var i :| 0 <= i < |cs| && Missed(cs[i], CompareType(cs, ty));
      MissedAlone(cs, ty, bits, i);
    }
    if WholeRangeOfBitfield(cs, ty, bits) {
      assert Missed(cs[0], CompareType(cs, ty));
    }
  }

  /** Labels are new names: none is that of the default or of the end. */
  predicate Apart(cs: seq<Case>, default: Choice, brk: nat) {
    forall i :: 0 <= i < |cs| ==> cs[i].lab != brk && (default.At? ==> cs[i].lab != default.lab)
  }

  /** From every state the code goes to the default, or past the switch. */
  ghost predicate NoneTaken(default: Choice, brk: nat, code: seq<Instr>) {
    forall orc, s :: GoesTo(if default.At? then default.lab else brk, s, Run(orc, code, s))
  }

  lemma LongRangeEnds(c: Case, default: Choice, brk: nat)
    requires c.end - c.begin + 1 == 65536
    ensures NoneTaken(default, brk, WordRange(c) + Ends(default, brk))
  {
    hide Run, WordRange, Ends;
    forall orc, s
      ensures GoesTo(if default.At? then default.lab else brk, s, Run(orc, WordRange(c) + Ends(default, brk), s))
    {
      LongRangeNeverTaken(orc, c, s);
      WordRangeRuns(orc, c, s);
      var t := Run(orc, WordRange(c), s).s;
      StackHeld(AsD, s, t);
      RunAppend(orc, WordRange(c), Ends(default, brk), s);
      EndsRuns(orc, default, brk, t);
    }
  }

  /** Such code does not dispatch: the value 0 should have gone to the label. */
  lemma MissedFails(cs: seq<Case>, default: Choice, brk: nat, ty: Type, bits: nat, code: seq<Instr>)
    requires ty.Size() <= 2 && bits <= 16 && Accepted(cs, LabelType(ty, bits)) && AnyMissed(cs, ty)
    requires Apart(cs, default, brk) && NoneTaken(default, brk, code)
    ensures !Dispatches(AsD, cs, default, brk, CompareType(cs, ty), Lowest(cs, ty, bits), code)
  {
    hide Run, Lowest;
    var i :| 0 <= i < |cs| && Missed(cs[i], CompareType(cs, ty));
    MissedAlone(cs, ty, bits, i);
    var orc: Oracle, s := (id, wide, s) => s, State(0, 0, 0, 0, OnlyC(false), seq(65536, _ => 0));
    assert Chosen(cs, 0) == At(cs[0].lab);
    assert Held(AsD, 0, s) && GoesTo(if default.At? then default.lab else brk, s, Run(orc, code, s));
  }

  method GenCase(form: Form, c: Case, ty: Type, ghost low: int, skip: nat) returns (code: seq<Instr>)
    requires c.begin <= c.end && Among(c.begin, form, low) && Among(c.end, form, low) && skip != c.lab
    requires form == AsX ==> c.begin == c.end
    requires form == AsB ==> ty.Size() == 1 && low == MinValue(ty)
    ensures if Missed(c, ty) then code == WordRange(c) else Tests(form, c, ty, low, code)
    ensures forall lab :: lab != skip ==> Label(lab) !in code
  {
    hide Tests;
    if c.begin == c.end {
      match form {
        case AsB =>
          TestB(c, ty, low);
          code := [Alu(Cmp, B, Imm(Machine.Low(c.begin))), Br(Eq, c.lab)];
        case AsD =>
          TestD(c, ty, low, skip);
          code := WordTest(c.begin, c.lab, skip);
        case AsX =>
          TestX(c, ty, low);
          code := [Cpx(Imm16(c.begin % 65536)), Br(Eq, c.lab)];
      }
      return;
    }
    if c.begin <= MinValue(ty) && c.end >= MaxValue(ty) {
      TestFull(form, c, ty, low);
      return [Jmp(c.lab)];
    }
    if form == AsB {
      TestByteRange(c, ty, low);
      code := ByteRange(c);
    } else {
      code := WordRange(c);
      if !Missed(c, ty) {
        TestWordRange(c, ty, low);
      }
    }
  }

  /** What the chain needs to know of each case. */
  predicate Ready(form: Form, cs: seq<Case>, ty: Type, low: int, count: nat) {
    && (form == AsB ==> ty.Size() == 1 && low == MinValue(ty))
    && forall i :: 0 <= i < |cs| ==>
         && cs[i].begin <= cs[i].end && Among(cs[i].begin, form, low) && Among(cs[i].end, form, low)
         && (form == AsX ==> cs[i].begin == cs[i].end) && cs[i].lab < count
  }

  /** The comparisons, one for each case; a missed label has no other beside it. */
  method GenCases(form: Form, cs: seq<Case>, ty: Type, ghost low: int, count: nat) returns (code: seq<Instr>)
    requires Ready(form, cs, ty, low, count)
    ensures (forall i :: 0 <= i < |cs| ==> !Missed(cs[i], ty)) ==> ChainOf(form, cs, ty, low, code)
    ensures |cs| == 1 && Missed(cs[0], ty) ==> code == WordRange(cs[0])
  {
    hide ChainOf, Tests, WordRange, Missed, Among;
    code := [];
    ChainEmpty(form, ty, low);
    assert cs[..0] == [];
    for i := 0 to |cs|
      invariant (forall k :: 0 <= k < i ==> !Missed(cs[k], ty)) ==> ChainOf(form, cs[..i], ty, low, code)
      invariant i == 0 ==> code == []
      invariant i == 1 && Missed(cs[0], ty) ==> code == WordRange(cs[0])
    {
      var test := GenCase(form, cs[i], ty, low, count + i);
      if forall k :: 0 <= k < i + 1 ==> !Missed(cs[k], ty) {
        ChainMore(form, cs[..i], cs[i], ty, low, code, test);
      }
      assert cs[..i + 1] == cs[..i] + [cs[i]];
      code := code + test;
    }
    assert cs[..|cs|] == cs;
  }

  lemma AllReady(cs: seq<Case>, ty: Type, bits: nat, count: nat)
    requires ty.Size() <= 2 && bits <= 16 && Accepted(cs, LabelType(ty, bits)) && forall i :: 0 <= i < |cs| ==> cs[i].lab < count
    ensures Ready(CompareForm(cs, ty), cs, CompareType(cs, ty), Lowest(cs, ty, bits), count)
  {
  }

  /** The code for the comparisons; the value has been computed into B, D or X. */
  method GenSwitch(cs: seq<Case>, default: Choice, brk: nat, ty: Type, bits: nat, count: nat) returns (form: Form, code: seq<Instr>)
    requires ty.Size() <= 2 && bits <= 16 && Accepted(cs, LabelType(ty, bits))
    requires forall i :: 0 <= i < |cs| ==> cs[i].lab < count
    ensures form == CompareForm(cs, ty)
    ensures Dispatches(form, cs, default, brk, CompareType(cs, ty), Lowest(cs, ty, bits), code) || AnyMissed(cs, ty)
    ensures AnyMissed(cs, ty) ==> NoneTaken(default, brk, code)
    ensures Apart(cs, default, brk) ==>
      (Dispatches(form, cs, default, brk, CompareType(cs, ty), Lowest(cs, ty, bits), code) <==> !AnyMissed(cs, ty))
  {
    hide ChainOf, Dispatches, NoneTaken, WordRange, Ends, Apart, Missed, Accepted, Ready, Lowest;
    var promote := false;
    if ty.Size() == 1 {
      for i := 0 to |cs|
        invariant promote <==> exists k :: 0 <= k < i && (!ByteHolds(ty, cs[k].begin) || !ByteHolds(ty, cs[k].end))
      {
        if !ByteHolds(ty, cs[i].begin) || !ByteHolds(ty, cs[i].end) {
          promote := true;
        }
      }
    }
    var cty := if promote then INT else ty;
    var ranges := false;
    for i := 0 to |cs|
      invariant ranges <==> exists k :: 0 <= k < i && cs[k].begin != cs[k].end
    {
      if cs[i].begin != cs[i].end {
        ranges := true;
      }
    }
    form := if cty.Size() == 1 then AsB else if ranges then AsD else AsX;
    AllReady(cs, ty, bits, count);
    code := GenCases(form, cs, cty, Lowest(cs, ty, bits), count);
    if AnyMissed(cs, ty) {
      OnlyOne(cs, ty, bits);
    }
    SwitchEnds(cs, default, brk, ty, bits, code);
    code := code + Ends(default, brk);
  }

  /** What the whole code does, once the comparisons are there. */
  lemma SwitchEnds(cs: seq<Case>, default: Choice, brk: nat, ty: Type, bits: nat, code: seq<Instr>)
    requires ty.Size() <= 2 && bits <= 16 && Accepted(cs, LabelType(ty, bits))
    requires if AnyMissed(cs, ty) then |cs| > 0 && code == WordRange(cs[0])
             else ChainOf(CompareForm(cs, ty), cs, CompareType(cs, ty), Lowest(cs, ty, bits), code)
    ensures AnyMissed(cs, ty) ==> NoneTaken(default, brk, code + Ends(default, brk))
    ensures var d := Dispatches(CompareForm(cs, ty), cs, default, brk, CompareType(cs, ty), Lowest(cs, ty, bits), code + Ends(default, brk));
      (d || AnyMissed(cs, ty)) && (Apart(cs, default, brk) ==> (d <==> !AnyMissed(cs, ty)))
  {
    hide ChainOf, Dispatches, NoneTaken, WordRange, Ends, Accepted, Lowest, Missed, CompareType;
    if AnyMissed(cs, ty) {
      OnlyOne(cs, ty, bits);
      MissedLength(cs[0], CompareType(cs, ty));
      LongRangeEnds(cs[0], default, brk);
      if Apart(cs, default, brk) {
        MissedFails(cs, default, brk, ty, bits, code + Ends(default, brk));
      }
    } else {
      ChainEnds(CompareForm(cs, ty), cs, default, brk, CompareType(cs, ty), Lowest(cs, ty, bits), code);
    }
  }

  lemma MissedLength(c: Case, ty: Type)
    requires Missed(c, ty)
    ensures c.end - c.begin + 1 == 65536
  {
  }

  lemma OnlyOne(cs: seq<Case>, ty: Type, bits: nat)
    requires ty.Size() <= 2 && bits <= 16 && Accepted(cs, LabelType(ty, bits)) && AnyMissed(cs, ty)
    ensures |cs| == 1 && Missed(cs[0], CompareType(cs, ty)) && CompareForm(cs, ty) == AsD
  {
    var i :| 0 <= i < |cs| && Missed(cs[i], CompareType(cs, ty));
    MissedAlone(cs, ty, bits, i);
  }

  /** The comparisons in bytes and those of the promoted value agree on where to go: it depends on the value alone. */
  lemma BytesAgreeWithWords(cs: seq<Case>, default: Choice, brk: nat, ty: Type, code8: seq<Instr>, code16: seq<Instr>, form: Form,
      orc: Oracle, s: State, s': State, v: int)
    requires ty.Size() == 1 && InRange(v, ty)
    requires Dispatches(AsB, cs, default, brk, ty, MinValue(ty), code8) && Dispatches(form, cs, default, brk, INT, MinValue(INT), code16)
    requires form != AsB
    requires Held(AsB, v, s) && Held(form, v, s')
    ensures Run(orc, code8, s).Goto? && Run(orc, code16, s').Goto? && Run(orc, code8, s).lab == Run(orc, code16, s').lab
  {
    hide Run, Target;
    assert GoesTo(Target(cs, default, brk, v), s, Run(orc, code8, s));
    assert GoesTo(Target(cs, default, brk, v), s', Run(orc, code16, s'));
  }
}
