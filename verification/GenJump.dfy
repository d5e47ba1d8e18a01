/** The condition compiler itself (gen_jump.c) and the part of gen_expr its operands need. */
module GenJump {
  import opened Arith
  import opened Bits
  import opened Machine
  import opened Emitters
  import opened Conditions
  import opened Branches
  import opened Jumps

  predicate Ready(cfg: Config, depth: int) {
    !cfg.useAlloca && (cfg.hasFrame ==> cfg.useBp) && depth >= 0
  }

  lemma StraightHasNoLabels(code: seq<Instr>)
    requires StraightCode(code)
    ensures LabelsIn(code, 0, 0)
  {
    forall i | 0 <= i < |code|
      ensures !code[i].Label?
    {
      assert Straight(code[i]);
    }
  }

  /** gen_direct and gen_direct_8bit: point X at a local if need be, and name the operand's bytes. */
  method GenDirect(e: Emitter, n: Node) returns (lo: Opnd, hi: Opnd)
    requires (CanDirect(n) || CanDirect8(n)) && n.WellTyped(e.cfg) && Ready(e.cfg, e.depth)
    modifies e`code, e`ix
    ensures old(e.code) <= e.code && LabelsIn(e.Since(old(e.code)), 0, 0)
    ensures Reads(e.cfg, n, old(e.Now()), e.Now(), lo, hi, e.Since(old(e.code)))
    decreases n
  {
    match n {
      case Num(val, _) =>
        lo, hi := Imm(Low(val)), Imm(High(val));
        ReadsImmediate(e.cfg, n, e.Now());
        assert e.Since(old(e.code)) == [];
      case AddrConst(sym) =>
        lo, hi := Imm(Low(e.cfg.link(sym))), Imm(High(e.cfg.link(sym)));
        ReadsImmediate(e.cfg, n, e.Now());
        assert e.Since(old(e.code)) == [];
      case Global(name, ty) =>
        lo, hi := GlobalLow(e.cfg, name, ty), M(Ext(e.cfg.link(name)));
        ReadsGlobal(e.cfg, name, ty, e.Now());
        assert e.Since(old(e.code)) == [];
      case Local(off, ty) =>
        e.LdxBp();
        lo, hi := LocalLow(off, ty), M(Idx(off));
        ReadsLocal(e.cfg, off, ty, old(e.Now()), e.Now(), e.Since(old(e.code)));
        StraightHasNoLabels(e.Since(old(e.code)));
      case Promote(b) =>
        lo, hi := GenDirect(e, b);
        ReadsPromoted(e.cfg, b, old(e.Now()), e.Now(), lo, hi, e.Since(old(e.code)));
        hi := Imm(0);
    }
  }

  /** test_expr_x: the operand can be brought into X directly. */
  predicate TestExprX(n: Node) {
    match n
    case Num(_, ty) => ty.IsWide()
    case Global(_, ty) => ty.IsWide()
    case Local(off, ty) => ty.IsWide() && off < 256
    case AddrConst(_) => true
    case LocalArray(off) => off <= 6
    case _ => false
  }

  method GenExprX(e: Emitter, n: Node)
    requires TestExprX(n) && n.WellTyped(e.cfg) && Ready(e.cfg, e.depth)
    modifies e`code, e`ix
    ensures old(e.code) <= e.code && LabelsIn(e.Since(old(e.code)), 0, 0)
    ensures LoadsX(e.cfg, n, old(e.Now()), e.Now(), e.Since(old(e.code)))
  {
    match n {
      case Num(val, ty) =>
        e.Println(Ldx(Imm16(val % 65536)));
        e.IxInvalidate();
        XNum(e.cfg, val, ty, old(e.Now()));
        assert e.Since(old(e.code)) == [Ldx(Imm16(val % 65536))];
      case Global(name, _) =>
        e.LdxExt(name);
        XByOp(e.cfg, n, OpLdxExt(name), old(e.Now()), e.Now(), e.Since(old(e.code)));
        StraightHasNoLabels(e.Since(old(e.code)));
      case Local(off, _) =>
        e.LdxBpNX(off);
        XByOp(e.cfg, n, OpLdxBpNX(off), old(e.Now()), e.Now(), e.Since(old(e.code)));
        StraightHasNoLabels(e.Since(old(e.code)));
      case AddrConst(sym) =>
        e.LdxImm(sym);
        XByOp(e.cfg, n, OpLdxImm(sym), old(e.Now()), e.Now(), e.Since(old(e.code)));
        StraightHasNoLabels(e.Since(old(e.code)));
      case LocalArray(off) => GenArrayX(e, off);
    }
  }

  method GenArrayX(e: Emitter, off: nat)
    requires e.cfg.hasFrame && Ready(e.cfg, e.depth)
    modifies e`code, e`ix
    ensures old(e.code) <= e.code && LabelsIn(e.Since(old(e.code)), 0, 0)
    ensures LoadsX(e.cfg, LocalArray(off), old(e.Now()), e.Now(), e.Since(old(e.code)))
  {
    e.LdxBp();
    ghost var c1, k1 := e.Since(old(e.code)), e.Now();
    TrackedSteps(e.cfg, OpLdxBp, old(e.Now()), k1, c1);
    StraightHasNoLabels(c1);
    ghost var atL := e.code;
    e.InxDex(off);
    ghost var c2 := e.Since(atL);
    TrackedSteps(e.cfg, OpInxDex(off), k1, e.Now(), c2);
    StraightHasNoLabels(c2);
    XArray(e.cfg, off, old(e.Now()), k1, e.Now(), c1, c2);
    LabelsAppend(c1, c2, 0, 0, 0, 0);
    assert e.Since(old(e.code)) == c1 + c2;
  }

  /** Print what GenDirect named, as LDAB and LDAA. */
  method GenLoad(e: Emitter, n: Node)
    requires (n.Local? || n.Global? || n.AddrConst?) && n.WellTyped(e.cfg) && Ready(e.cfg, e.depth)
    modifies e`code, e`ix
    ensures old(e.code) <= e.code && LabelsIn(e.Since(old(e.code)), 0, 0)
    ensures Loads(e.cfg, n, old(e.Now()), e.Now(), e.Since(old(e.code)))
  {
    hide Loads, LoadsX, JumpsOn, Reads, Prepares, Emits;
    var lo, hi := GenDirect(e, n);
    ghost var c1 := e.Since(old(e.code));
    e.Println(Alu(Ld, B, lo));
    if n.Type().IsWide() {
      e.Println(Alu(Ld, A, hi));
      LoadWord(e.cfg, n, old(e.Now()), e.Now(), lo, hi, c1);
      assert e.Since(old(e.code)) == c1 + [Alu(Ld, B, lo), Alu(Ld, A, hi)];
    } else {
      LoadByte(e.cfg, n, old(e.Now()), e.Now(), lo, hi, c1);
      assert e.Since(old(e.code)) == c1 + [Alu(Ld, B, lo)];
    }
  }

  method GenNum(e: Emitter, val: int, ty: Ty)
    modifies e`code
    ensures old(e.code) <= e.code && LabelsIn(e.Since(old(e.code)), 0, 0)
    ensures Loads(e.cfg, Num(val, ty), old(e.Now()), e.Now(), e.Since(old(e.code)))
  {
    e.Println(LdabI(val));
    if ty.IsWide() {
      e.Println(LdaaI(val));
      ImmediateWord(e.cfg, val, ty, e.Now());
      assert e.Since(old(e.code)) == [LdabI(val), LdaaI(val)];
    } else {
      ImmediateByte(e.cfg, val, ty, e.Now());
      assert e.Since(old(e.code)) == [LdabI(val)];
    }
  }

  method GenArray(e: Emitter, off: nat)
    requires e.cfg.hasFrame
    modifies e`code
    ensures old(e.code) <= e.code && LabelsIn(e.Since(old(e.code)), 0, 0)
    ensures Loads(e.cfg, LocalArray(off), old(e.Now()), e.Now(), e.Since(old(e.code)))
  {
    e.Println(Alu(Ld, B, M(Ext(BP + 1))));
    e.Println(Alu(Ld, A, M(Ext(BP))));
    if off != 0 {
      e.Println(Alu(Add, B, Imm(Low(off))));
      e.Println(Alu(Adc, A, Imm(High(off))));
    }
    LoadArray(e.cfg, off, e.Now());
    assert e.Since(old(e.code)) == ArrayCode(off);
  }

  /** cast: a byte to int. */
  method GenWiden(e: Emitter, ty: Ty)
    modifies e`code
    ensures e.code == old(e.code) + WidenCode(ty)
  {
    e.Println(Un(Clr, A));
    if ty != U8 {
      e.Println(Un(Asr, B));
      e.Println(Un(Rol, B));
      e.Println(Alu(Sbc, A, Imm(0)));
    }
  }

  /** gen_expr for the operands of conditions. */
  method GenExpr(e: Emitter, n: Node)
    requires n.IsOperand() && n.WellTyped(e.cfg) && Ready(e.cfg, e.depth)
    modifies e
    ensures old(e.code) <= e.code && e.depth == old(e.depth) && old(e.labels) <= e.labels
    ensures LabelsIn(e.Since(old(e.code)), old(e.labels), e.labels)
    ensures Loads(e.cfg, n, old(e.Now()), e.Now(), e.Since(old(e.code)))
    decreases n, 2
  {
    hide Loads, LoadsX, JumpsOn, Reads, Prepares, Emits;
    match n {
      case Num(val, ty) => GenNum(e, val, ty);
      case LocalArray(off) => GenArray(e, off);
      case Other(id, ty) =>
        e.Println(Operand(id, ty.IsWide()));
        e.IxInvalidate();
        LoadOther(e.cfg, id, ty, old(e.Now()));
        assert e.Since(old(e.code)) == [Operand(id, ty.IsWide())];
      case Promote(b) =>
        GenExpr(e, b);
        ghost var c1 := e.Since(old(e.code));
        GenWiden(e, b.Type());
        LoadPromoted(e.cfg, b, old(e.Now()), e.Now(), c1);
        assert e.Since(old(e.code)) == c1 + WidenCode(b.Type());
      case IfElse(c, yes, no) => GenIfElse(e, c, yes, no);
      case Local(_, _) => GenLoad(e, n);
      case Global(_, _) => GenLoad(e, n);
      case AddrConst(_) => GenLoad(e, n);
    }
  }

  method GenIfElse(e: Emitter, c: Node, yes: Node, no: Node)
    requires IfElse(c, yes, no).WellTyped(e.cfg) && Ready(e.cfg, e.depth)
    modifies e
    ensures old(e.code) <= e.code && e.depth == old(e.depth) && old(e.labels) <= e.labels
    ensures LabelsIn(e.Since(old(e.code)), old(e.labels), e.labels)
    ensures Loads(e.cfg, IfElse(c, yes, no), old(e.Now()), e.Now(), e.Since(old(e.code)))
    decreases IfElse(c, yes, no), 1
  {
    hide Loads, LoadsX, JumpsOn, Reads, Prepares, Emits, LabelsIn;
    var els := e.NewLabel();
    var end := e.NewLabel();
    ghost var lo := e.labels;
    GenJumpIfFalse(e, c, els);
    ghost var cj, k1, at := e.Since(old(e.code)), e.Now(), e.code;
    ghost var l1 := e.labels;
    ghost var cy, cn, k2, k3 := GenArms(e, IfElse(c, yes, no), els, end);
    LabelsWider(cj, lo, l1, lo, e.labels);
    LabelsWider(cy, l1, e.labels, lo, e.labels);
    LabelsWider(cn, l1, e.labels, lo, e.labels);
    LoadIfElse(e.cfg, c, yes, no, els, end, old(e.Now()), k1, k2, k3, cj, cy, cn, lo, e.labels);
    IfElseLabels(cj, cy, cn, els, end, lo, e.labels);
    assert e.Since(old(e.code)) == cj + (cy + ([Jmp(end), Label(els)] + (cn + [Label(end)])));
  }

  /** The two arms of `?:`, with the jump over the second. */
  method GenArms(e: Emitter, n: Node, els: nat, end: nat)
    returns (ghost cy: seq<Instr>, ghost cn: seq<Instr>, ghost k2: Tracker, ghost k3: Tracker)
    requires n.IfElse? && n.WellTyped(e.cfg) && Ready(e.cfg, e.depth)
    modifies e
    ensures old(e.code) <= e.code && e.Now() == Tracker(old(e.depth), IxNone) && old(e.labels) <= e.labels
    ensures e.Since(old(e.code)) == cy + ([Jmp(end), Label(els)] + (cn + [Label(end)]))
    ensures LabelsIn(cy, old(e.labels), e.labels) && LabelsIn(cn, old(e.labels), e.labels)
    ensures Loads(e.cfg, n.yes, old(e.Now()), k2, cy) && k2.depth == old(e.depth)
    ensures Loads(e.cfg, n.no, Tracker(old(e.depth), IxNone), k3, cn) && k3.depth == old(e.depth)
    decreases n, 0
  {
    hide Loads, LoadsX, JumpsOn, Reads, Prepares, Emits, LabelsIn;
    GenExpr(e, n.yes);
    cy, k2 := e.Since(old(e.code)), e.Now();
    ghost var l := e.labels;
    e.Println(Jmp(end));
    e.Println(Label(els));
    e.IxInvalidate();
    ghost var at := e.code;
    GenExpr(e, n.no);
    cn, k3 := e.Since(at), e.Now();
    e.Println(Label(end));
    e.IxInvalidate();
    LabelsWider(cy, old(e.labels), l, old(e.labels), e.labels);
    LabelsWider(cn, l, e.labels, old(e.labels), e.labels);
    assert at == old(e.code) + (cy + [Jmp(end), Label(els)]);
    assert e.Since(old(e.code)) == cy + ([Jmp(end), Label(els)] + (cn + [Label(end)]));
  }

  /**
   Evaluate both sides of a comparison, the part gen_jump_if_false and gen_jump_if_true share
   word for word: which instructions suit the two sides, and what they leave to branch on.
   */
  method GenComparison(e: Emitter, n: Node) returns (way: Way)
    requires n.Compare? && n.WellTyped(e.cfg) && Ready(e.cfg, e.depth)
    modifies e
    ensures old(e.code) <= e.code && e.depth == old(e.depth) && old(e.labels) <= e.labels
    ensures LabelsIn(e.Since(old(e.code)), old(e.labels), e.labels)
    ensures WideWay(way) == n.l.Type().IsWide() && (way == SameInX ==> n.op == REq || n.op == RNe)
    ensures Prepares(e.cfg, n, way, old(e.Now()), e.Now(), e.Since(old(e.code)))
    decreases n, 4
  {
    if n.l.Type().IsWide() {
      way := GenWideComparison(e, n);
    } else {
      way := GenByteComparison(e, n);
    }
  }

  method GenByteComparison(e: Emitter, n: Node) returns (way: Way)
    requires n.Compare? && n.WellTyped(e.cfg) && Ready(e.cfg, e.depth) && !n.l.Type().IsWide()
    modifies e
    ensures old(e.code) <= e.code && e.depth == old(e.depth) && old(e.labels) <= e.labels
    ensures LabelsIn(e.Since(old(e.code)), old(e.labels), e.labels)
    ensures way == Tested || way == ByteInB
    ensures Prepares(e.cfg, n, way, old(e.Now()), e.Now(), e.Since(old(e.code)))
    decreases n, 3
  {
    hide Loads, LoadsX, JumpsOn, Reads, Prepares, Emits;
    GenExpr(e, n.l);
    ghost var c1, k1 := e.Since(old(e.code)), e.Now();
    if n.r.Num? && n.r.val == 0 {
      way := ByteInB;
      ZeroRight(e.cfg, n, old(e.Now()), k1, c1);
    } else if CanDirect8(n.r) {
      ghost var atR := e.code;
      var lo, hi := GenDirect(e, n.r);
      ghost var c2 := e.Since(atR);
      e.Println(Alu(Cmp, B, lo));
      way := Tested;
      TestDirect(e.cfg, n, old(e.Now()), k1, e.Now(), lo, hi, c1, c2);
      assert e.Since(old(e.code)) == c1 + (c2 + [Alu(Cmp, B, lo)]);
    } else {
      ghost var c2, k2 := GenPushedRight(e, n.r);
      way := Tested;
      TestPushed(e.cfg, n, old(e.Now()), k1, k2, c1, c2);
      assert e.Since(old(e.code)) == c1 + ([Psh(B)] + (c2 + [Pul(A), Inh(Cba)]));
    }
  }

  method GenPushedRight(e: Emitter, r: Node) returns (ghost c2: seq<Instr>, ghost k2: Tracker)
    requires r.IsOperand() && r.WellTyped(e.cfg) && Ready(e.cfg, e.depth)
    modifies e
    ensures old(e.code) <= e.code && e.depth == old(e.depth) && old(e.labels) <= e.labels
    ensures e.Since(old(e.code)) == [Psh(B)] + (c2 + [Pul(A), Inh(Cba)])
    ensures LabelsIn(e.Since(old(e.code)), old(e.labels), e.labels)
    ensures Loads(e.cfg, r, old(e.Now()).(depth := old(e.depth) + 1), k2, c2) && k2.depth == old(e.depth) + 1
    ensures e.Now() == k2.(depth := old(e.depth))
    decreases r, 3
  {
    e.Push1();
    ghost var at := e.code;
    GenExpr(e, r);
    c2, k2 := e.Since(at), e.Now();
    e.PopA();
    e.Println(Inh(Cba));
    assert e.Since(old(e.code)) == [Psh(B)] + (c2 + [Pul(A), Inh(Cba)]);
  }

  method GenWideComparison(e: Emitter, n: Node) returns (way: Way)
    requires n.Compare? && n.WellTyped(e.cfg) && Ready(e.cfg, e.depth) && n.l.Type().IsWide()
    modifies e
    ensures old(e.code) <= e.code && e.depth == old(e.depth) && old(e.labels) <= e.labels
    ensures LabelsIn(e.Since(old(e.code)), old(e.labels), e.labels)
    ensures WideWay(way) && (way == SameInX ==> n.op == REq || n.op == RNe)
    ensures Prepares(e.cfg, n, way, old(e.Now()), e.Now(), e.Since(old(e.code)))
    decreases n, 3
  {
    hide Loads, LoadsX, JumpsOn, Reads, Prepares, Emits;
    var equality := n.op == REq || n.op == RNe;
    if n.r.Num? && n.r.val == 0 {
      if TestExprX(n.l) {
        way := GenCpx(e, n);
      } else {
        GenExpr(e, n.l);
        way := WordInD;
        ZeroRight(e.cfg, n, old(e.Now()), e.Now(), e.Since(old(e.code)));
      }
    } else if equality && (n.r.Num? || n.r.Global? || n.r.AddrConst?) && TestExprX(n.l) {
      way := GenCpx(e, n);
    } else if equality && n.r.LocalArray? {
      GenExpr(e, n.l);
      GenMinusArray(e, n, n.l, n.r.off, old(e.Now()), old(e.code), old(e.labels));
      way := Difference;
    } else if equality && n.l.LocalArray? {
      GenExpr(e, n.r);
      GenMinusArray(e, n, n.r, n.l.off, old(e.Now()), old(e.code), old(e.labels));
      way := Difference;
    } else if CanDirect(n.r) {
      way := GenSubtractDirect(e, n);
    } else {
      way := GenSubtractPushed(e, n);
    }
  }

  method GenSubtractDirect(e: Emitter, n: Node) returns (way: Way)
    requires n.Compare? && n.WellTyped(e.cfg) && Ready(e.cfg, e.depth) && n.l.Type().IsWide()
    requires CanDirect(n.r) && !RightFirst(n.op, n.l, n.r)
    modifies e
    ensures old(e.code) <= e.code && e.depth == old(e.depth) && old(e.labels) <= e.labels
    ensures LabelsIn(e.Since(old(e.code)), old(e.labels), e.labels) && way == Difference
    ensures Prepares(e.cfg, n, way, old(e.Now()), e.Now(), e.Since(old(e.code)))
    decreases n, 2
  {
    hide Loads, LoadsX, JumpsOn, Reads, Prepares, Emits;
    GenExpr(e, n.l);
    ghost var c1, k1 := e.Since(old(e.code)), e.Now();
    ghost var at := e.code;
    var lo, hi := GenDirect(e, n.r);
    ghost var c2 := e.Since(at);
    e.Println(Alu(Sub, B, lo));
    e.Println(Alu(Sbc, A, hi));
    way := Difference;
    SubtractDirect(e.cfg, n, old(e.Now()), k1, e.Now(), lo, hi, c1, c2);
    assert e.Since(old(e.code)) == c1 + (c2 + [Alu(Sub, B, lo), Alu(Sbc, A, hi)]);
  }

  /** The left side in X against a constant, an address or a global. */
  method GenCpx(e: Emitter, n: Node) returns (way: Way)
    requires n.Compare? && n.WellTyped(e.cfg) && Ready(e.cfg, e.depth) && n.l.Type().IsWide() && TestExprX(n.l)
    requires (n.r.Num? && n.r.val == 0) || ((n.op == REq || n.op == RNe) && (n.r.Num? || n.r.Global? || n.r.AddrConst?))
    modifies e`code, e`ix
    ensures old(e.code) <= e.code && LabelsIn(e.Since(old(e.code)), 0, 0)
    ensures way == ZeroInX || (way == SameInX && (n.op == REq || n.op == RNe))
    ensures Prepares(e.cfg, n, way, old(e.Now()), e.Now(), e.Since(old(e.code)))
  {
    hide Loads, LoadsX, JumpsOn, Reads, Prepares, Emits;
    GenExprX(e, n.l);
    ghost var c1 := e.Since(old(e.code));
    if n.r.Num? && n.r.val == 0 {
      e.Println(Cpx(Imm16(0)));
      way := ZeroInX;
      CompareXWithZero(e.cfg, n, old(e.Now()), e.Now(), c1);
      assert e.Since(old(e.code)) == c1 + [Cpx(Imm16(0))];
    } else {
      if n.r.Global? {
        e.CpxExt(n.r.name);
      } else {
        e.Println(Cpx(Imm16(if n.r.Num? then n.r.val % 65536 else e.cfg.link(n.r.sym))));
      }
      way := SameInX;
      CompareXWithWord(e.cfg, n, old(e.Now()), e.Now(), c1);
      assert e.Since(old(e.code)) == c1 + [Cpx(CpxOperand(e.cfg, n.r))];
    }
  }

  /** gen_addsub_local_array_addr with SUBB and SBCA. */
  method GenMinusArray(e: Emitter, n: Node, side: Node, off: nat, ghost k0: Tracker, ghost c0: seq<Instr>, ghost l0: nat)
    requires n.Compare? && n.WellTyped(e.cfg) && n.l.Type().IsWide() && (n.op == REq || n.op == RNe)
    requires (side == n.l && n.r == LocalArray(off)) || (side == n.r && n.l == LocalArray(off) && !n.r.LocalArray?)
    requires Ready(e.cfg, e.depth) && c0 <= e.code && Loads(e.cfg, side, k0, e.Now(), e.Since(c0))
    requires l0 <= e.labels && LabelsIn(e.Since(c0), l0, e.labels)
    modifies e`code
    ensures c0 <= e.code && LabelsIn(e.Since(c0), l0, e.labels)
    ensures Prepares(e.cfg, n, Difference, k0, e.Now(), e.Since(c0))
  {
    hide Loads, LoadsX, JumpsOn, Reads, Prepares, Emits;
    ghost var c1 := e.Since(c0);
    e.Println(Alu(Sub, B, M(Ext(BP + 1))));
    e.Println(Alu(Sbc, A, M(Ext(BP))));
    if off != 0 {
      e.Println(Alu(Sub, B, Imm(Low(off))));
      e.Println(Alu(Sbc, A, Imm(High(off))));
    }
    SubtractArray(e.cfg, n, side, off, k0, e.Now(), c1);
    assert e.Since(c0) == c1 + MinusArray(off);
  }

  method GenSubtractPushed(e: Emitter, n: Node) returns (way: Way)
    requires n.Compare? && n.WellTyped(e.cfg) && Ready(e.cfg, e.depth) && n.l.Type().IsWide()
    requires RightFirst(n.op, n.l, n.r)
    modifies e
    ensures old(e.code) <= e.code && e.depth == old(e.depth) && old(e.labels) <= e.labels
    ensures LabelsIn(e.Since(old(e.code)), old(e.labels), e.labels) && way == Difference
    ensures Prepares(e.cfg, n, way, old(e.Now()), e.Now(), e.Since(old(e.code)))
    decreases n, 2
  {
    hide Loads, LoadsX, JumpsOn, Reads, Prepares, Emits;
    GenExpr(e, n.r);
    ghost var c1, k1 := e.Since(old(e.code)), e.Now();
    ghost var c2, k2 := GenPushedLeft(e, n.l);
    way := Difference;
    SubtractPushed(e.cfg, n, old(e.Now()), k1, k2, c1, c2);
    assert e.Since(old(e.code)) == c1 + ([Psh(B), Psh(A)] + (c2 + PopSubtract()));
  }

  method GenPushedLeft(e: Emitter, l: Node) returns (ghost c2: seq<Instr>, ghost k2: Tracker)
    requires l.IsOperand() && l.WellTyped(e.cfg) && Ready(e.cfg, e.depth)
    modifies e
    ensures old(e.code) <= e.code && e.Now() == Tracker(old(e.depth), IxNone) && old(e.labels) <= e.labels
    ensures e.Since(old(e.code)) == [Psh(B), Psh(A)] + (c2 + PopSubtract())
    ensures LabelsIn(e.Since(old(e.code)), old(e.labels), e.labels)
    ensures Loads(e.cfg, l, old(e.Now()).(depth := old(e.depth) + 2), k2, c2) && k2.depth == old(e.depth) + 2
    decreases l, 3
  {
    e.Push();
    ghost var at := e.code;
    GenExpr(e, l);
    c2, k2 := e.Since(at), e.Now();
    GenPopSubtract(e);
    assert e.Since(old(e.code)) == [Psh(B), Psh(A)] + (c2 + PopSubtract());
  }

  method GenPopSubtract(e: Emitter)
    modifies e`code, e`ix, e`depth
    ensures e.code == old(e.code) + PopSubtract() && e.Now() == Tracker(old(e.depth) - 2, IxNone)
  {
    e.Println(Inh(Tsx));
    e.IxInvalidate();
    e.Println(Alu(Sub, B, M(Idx(1))));
    e.Println(Alu(Sbc, A, M(Idx(0))));
    e.Println(Inh(Ins));
    e.Println(Inh(Ins));
    e.depth := e.depth - 2;
  }

  /** A condition that is neither a comparison nor built from others. */
  method GenValueCondition(e: Emitter, n: Node, sense: bool, lab: nat)
    requires n.IsOperand() && n.WellTyped(e.cfg) && Ready(e.cfg, e.depth)
    modifies e
    ensures old(e.code) <= e.code && e.depth == old(e.depth) && old(e.labels) <= e.labels
    ensures LabelsIn(e.Since(old(e.code)), old(e.labels), e.labels)
    ensures JumpsOn(e.cfg, n, sense, lab, old(e.Now()), e.Now(), e.Since(old(e.code)))
    decreases n, 3
  {
    hide Loads, LoadsX, JumpsOn, Reads, Prepares, Emits;
    var c := if sense then Ne else Eq;
    if n.Type().IsWide() && TestExprX(n) {
      GenExprX(e, n);
      ghost var c1 := e.Since(old(e.code));
      e.Println(Cpx(Imm16(0)));
      e.Println(Br(c, lab));
      XCondition(e.cfg, n, sense, lab, old(e.Now()), e.Now(), c1);
      assert e.Since(old(e.code)) == c1 + ([Cpx(Imm16(0))] + [Br(c, lab)]);
    } else {
      GenExpr(e, n);
      ghost var c1 := e.Since(old(e.code));
      if n.Type().IsWide() {
        e.Println(Inh(Aba));
        e.Println(Alu(Adc, A, Imm(0)));
      } else {
        e.Println(Un(Tst, B));
      }
      e.Println(Br(c, lab));
      ValueCondition(e.cfg, n, sense, lab, old(e.Now()), e.Now(), c1);
      assert e.Since(old(e.code)) == c1 + (ZeroCheck(n.Type()) + [Br(c, lab)]);
    }
  }

  /** A byte masked by a constant: ANDB, unless the mask is not one of an unsigned byte. */
  method GenMasked(e: Emitter, n: Node, sense: bool, lab: nat)
    requires n.Masked? && n.WellTyped(e.cfg) && Ready(e.cfg, e.depth)
    modifies e
    ensures old(e.code) <= e.code && e.depth == old(e.depth) && old(e.labels) <= e.labels
    ensures LabelsIn(e.Since(old(e.code)), old(e.labels), e.labels)
    ensures JumpsOn(e.cfg, n, sense, lab, old(e.Now()), e.Now(), e.Since(old(e.code)))
    decreases n, 3
  {
    hide Loads, LoadsX, JumpsOn, Reads, Prepares, Emits;
    var c := if sense then Ne else Eq;
    GenExpr(e, n.e);
    ghost var c1 := e.Since(old(e.code));
    MaskCondition(e.cfg, n, sense, lab, old(e.Now()), e.Now(), c1);
    if 0 <= n.mask <= 255 || n.e.Type() == U8 {
      e.Println(Logic(BitAnd, B, Imm(Low(n.mask))));
      e.Println(Br(c, lab));
      assert e.Since(old(e.code)) == c1 + [Logic(BitAnd, B, Imm(Low(n.mask))), Br(c, lab)];
    } else {
      if Low(n.mask) == 0 {
        e.Println(Un(Clr, B));
      } else if Low(n.mask) != 255 {
        e.Println(Logic(BitAnd, B, Imm(Low(n.mask))));
      }
      e.Println(Un(Tst, B));
      e.Println(Br(c, lab));
      assert e.Since(old(e.code)) == c1 + (AndbI(n.mask) + [Un(Tst, B), Br(c, lab)]);
    }
  }

  method GenConstant(e: Emitter, n: Node, sense: bool, lab: nat)
    requires n.Num? && n.WellTyped(e.cfg)
    modifies e`code
    ensures old(e.code) <= e.code && LabelsIn(e.Since(old(e.code)), 0, 0)
    ensures JumpsOn(e.cfg, n, sense, lab, old(e.Now()), e.Now(), e.Since(old(e.code)))
  {
    ConstantCondition(e.cfg, n, sense, lab, e.Now());
    if (n.val != 0) == sense {
      e.Println(Jmp(lab));
      assert e.Since(old(e.code)) == [Jmp(lab)];
    } else {
      assert e.Since(old(e.code)) == [];
    }
  }

  /** `l && r`: either side may leave. */
  method GenEitherFalse(e: Emitter, n: Node, lab: nat)
    requires n.AndAlso? && n.WellTyped(e.cfg) && Ready(e.cfg, e.depth) && lab < e.labels
    modifies e
    ensures old(e.code) <= e.code && e.depth == old(e.depth) && old(e.labels) <= e.labels
    ensures LabelsIn(e.Since(old(e.code)), old(e.labels), e.labels)
    ensures JumpsOn(e.cfg, n, false, lab, old(e.Now()), e.Now(), e.Since(old(e.code)))
    decreases n, 5
  {
    hide Loads, LoadsX, JumpsOn, Reads, Prepares, Emits;
    GenJumpIfFalse(e, n.l, lab);
    ghost var c1, k1, mid, at := e.Since(old(e.code)), e.Now(), e.labels, e.code;
    GenJumpIfFalse(e, n.r, lab);
    ghost var c2 := e.Since(at);
    EitherSide(e.cfg, n, lab, old(e.Now()), k1, e.Now(), c1, c2, mid, e.labels);
    LabelsAppend(c1, c2, old(e.labels), mid, mid, e.labels);
    assert e.Since(old(e.code)) == c1 + c2;
  }

  /** `l || r`: the left side alone may settle it, by jumping to `thru`. */
  method GenPastFalse(e: Emitter, n: Node, lab: nat, thru: nat)
    requires n.OrElse? && n.WellTyped(e.cfg) && Ready(e.cfg, e.depth) && lab < thru < e.labels
    modifies e
    ensures old(e.code) <= e.code && e.depth == old(e.depth) && old(e.labels) <= e.labels
    ensures LabelsIn(e.Since(old(e.code)), thru, e.labels)
    ensures JumpsOn(e.cfg, n, false, lab, old(e.Now()), e.Now(), e.Since(old(e.code)))
    decreases n, 5
  {
    hide Loads, LoadsX, JumpsOn, Reads, Prepares, Emits;
    GenJumpIfTrue(e, n.l, thru);
    ghost var c1, k1, mid, at := e.Since(old(e.code)), e.Now(), e.labels, e.code;
    GenJumpIfFalse(e, n.r, lab);
    ghost var c2, k2 := e.Since(at), e.Now();
    e.Println(Label(thru));
    e.IxInvalidate();
    PastTheRight(e.cfg, n, lab, thru, old(e.Now()), k1, k2, c1, c2, mid, e.labels);
    LabelsAppend(c2, [Label(thru)], thru, e.labels, thru, e.labels);
    LabelsAppend(c1, c2 + [Label(thru)], thru, mid, thru, e.labels);
    assert e.Since(old(e.code)) == c1 + (c2 + [Label(thru)]);
  }

  method GenCompareFalse(e: Emitter, n: Node, lab: nat, thru: nat)
    requires n.Compare? && n.WellTyped(e.cfg) && Ready(e.cfg, e.depth) && lab < thru < e.labels
    modifies e
    ensures old(e.code) <= e.code && e.depth == old(e.depth) && old(e.labels) <= e.labels
    ensures LabelsIn(e.Since(old(e.code)), thru, e.labels)
    ensures JumpsOn(e.cfg, n, false, lab, old(e.Now()), e.Now(), e.Since(old(e.code)))
    decreases n, 5
  {
    hide Loads, LoadsX, JumpsOn, Reads, Prepares, Emits;
    var op, ty := n.op, n.l.Type();
    var way := GenComparison(e, n);
    ghost var pre, k1, at := e.Since(old(e.code)), e.Now(), e.code;
    BranchFalse(e, way, op, ty, lab, thru);
    ghost var tail := e.Since(at);
    CompareDone(e.cfg, n, way, false, lab, old(e.Now()), k1, pre, tail);
    assert e.Since(old(e.code)) == pre + tail;
  }

  /** Leave to `lab` when the condition is zero; otherwise fall through. */
  method GenJumpIfFalse(e: Emitter, n: Node, lab: nat)
    requires n.WellTyped(e.cfg) && Ready(e.cfg, e.depth) && lab < e.labels
    modifies e
    ensures old(e.code) <= e.code && e.depth == old(e.depth) && old(e.labels) <= e.labels
    ensures LabelsIn(e.Since(old(e.code)), old(e.labels), e.labels)
    ensures JumpsOn(e.cfg, n, false, lab, old(e.Now()), e.Now(), e.Since(old(e.code)))
    decreases n, 6
  {
    hide Loads, LoadsX, JumpsOn, Reads, Prepares, Emits;
    if n.Promote? {
      GenJumpIfFalse(e, n.e, lab);
      PromotedCondition(e.cfg, n.e, false, lab, old(e.Now()), e.Now(), e.Since(old(e.code)));
      return;
    }
    var thru := e.NewLabel();
    match n {
      case Num(val, _) => GenConstant(e, n, false, lab);
      case Not(c) =>
        GenJumpIfTrue(e, c, lab);
        NotCondition(e.cfg, c, false, lab, old(e.Now()), e.Now(), e.Since(old(e.code)));
      case OrElse(l, r) => GenPastFalse(e, n, lab, thru);
      case AndAlso(l, r) => GenEitherFalse(e, n, lab);
      case Masked(_, _) => GenMasked(e, n, false, lab);
      case Compare(op, l, r) => GenCompareFalse(e, n, lab, thru);
      case Local(_, _) => GenValueCondition(e, n, false, lab);
      case Global(_, _) => GenValueCondition(e, n, false, lab);
      case AddrConst(_) => GenValueCondition(e, n, false, lab);
      case LocalArray(_) => GenValueCondition(e, n, false, lab);
      case Other(_, _) => GenValueCondition(e, n, false, lab);
      case IfElse(_, _, _) => GenValueCondition(e, n, false, lab);
    }
  }

  /** `l || r`: either side may leave. */
  method GenEitherTrue(e: Emitter, n: Node, lab: nat)
    requires n.OrElse? && n.WellTyped(e.cfg) && Ready(e.cfg, e.depth) && lab < e.labels
    modifies e
    ensures old(e.code) <= e.code && e.depth == old(e.depth) && old(e.labels) <= e.labels
    ensures LabelsIn(e.Since(old(e.code)), old(e.labels), e.labels)
    ensures JumpsOn(e.cfg, n, true, lab, old(e.Now()), e.Now(), e.Since(old(e.code)))
    decreases n, 5
  {
    hide Loads, LoadsX, JumpsOn, Reads, Prepares, Emits;
    GenJumpIfTrue(e, n.l, lab);
    ghost var c1, k1, mid, at := e.Since(old(e.code)), e.Now(), e.labels, e.code;
    GenJumpIfTrue(e, n.r, lab);
    ghost var c2 := e.Since(at);
    EitherSide(e.cfg, n, lab, old(e.Now()), k1, e.Now(), c1, c2, mid, e.labels);
    LabelsAppend(c1, c2, old(e.labels), mid, mid, e.labels);
    assert e.Since(old(e.code)) == c1 + c2;
  }

  /** `l && r`: the left side alone may settle it, by jumping to `thru`. */
  method GenPastTrue(e: Emitter, n: Node, lab: nat, thru: nat)
    requires n.AndAlso? && n.WellTyped(e.cfg) && Ready(e.cfg, e.depth) && lab < thru < e.labels
    modifies e
    ensures old(e.code) <= e.code && e.depth == old(e.depth) && old(e.labels) <= e.labels
    ensures LabelsIn(e.Since(old(e.code)), thru, e.labels)
    ensures JumpsOn(e.cfg, n, true, lab, old(e.Now()), e.Now(), e.Since(old(e.code)))
    decreases n, 5
  {
    hide Loads, LoadsX, JumpsOn, Reads, Prepares, Emits;
    GenJumpIfFalse(e, n.l, thru);
    ghost var c1, k1, mid, at := e.Since(old(e.code)), e.Now(), e.labels, e.code;
    GenJumpIfTrue(e, n.r, lab);
    ghost var c2, k2 := e.Since(at), e.Now();
    e.Println(Label(thru));
    e.IxInvalidate();
    PastTheRight(e.cfg, n, lab, thru, old(e.Now()), k1, k2, c1, c2, mid, e.labels);
    LabelsAppend(c2, [Label(thru)], thru, e.labels, thru, e.labels);
    LabelsAppend(c1, c2 + [Label(thru)], thru, mid, thru, e.labels);
    assert e.Since(old(e.code)) == c1 + (c2 + [Label(thru)]);
  }

  method GenCompareTrue(e: Emitter, n: Node, lab: nat, thru: nat)
    requires n.Compare? && n.WellTyped(e.cfg) && Ready(e.cfg, e.depth) && lab < thru < e.labels
    modifies e
    ensures old(e.code) <= e.code && e.depth == old(e.depth) && old(e.labels) <= e.labels
    ensures LabelsIn(e.Since(old(e.code)), thru, e.labels)
    ensures JumpsOn(e.cfg, n, true, lab, old(e.Now()), e.Now(), e.Since(old(e.code)))
    decreases n, 5
  {
    hide Loads, LoadsX, JumpsOn, Reads, Prepares, Emits;
    var op, ty := n.op, n.l.Type();
    var way := GenComparison(e, n);
    ghost var pre, k1, at := e.Since(old(e.code)), e.Now(), e.code;
    BranchTrue(e, way, op, ty, lab, thru);
    ghost var tail := e.Since(at);
    CompareDone(e.cfg, n, way, true, lab, old(e.Now()), k1, pre, tail);
    assert e.Since(old(e.code)) == pre + tail;
  }

  /** Leave to `lab` when the condition is nonzero. */
  method GenJumpIfTrue(e: Emitter, n: Node, lab: nat)
    requires n.WellTyped(e.cfg) && Ready(e.cfg, e.depth) && lab < e.labels
    modifies e
    ensures old(e.code) <= e.code && e.depth == old(e.depth) && old(e.labels) <= e.labels
    ensures LabelsIn(e.Since(old(e.code)), old(e.labels), e.labels)
    ensures JumpsOn(e.cfg, n, true, lab, old(e.Now()), e.Now(), e.Since(old(e.code)))
    decreases n, 6
  {
    hide Loads, LoadsX, JumpsOn, Reads, Prepares, Emits;
    if n.Promote? {
      GenJumpIfTrue(e, n.e, lab);
      PromotedCondition(e.cfg, n.e, true, lab, old(e.Now()), e.Now(), e.Since(old(e.code)));
      return;
    }
    var thru := e.NewLabel();
    match n {
      case Num(val, _) => GenConstant(e, n, true, lab);
      case Not(c) =>
        GenJumpIfFalse(e, c, lab);
        NotCondition(e.cfg, c, true, lab, old(e.Now()), e.Now(), e.Since(old(e.code)));
      case OrElse(l, r) => GenEitherTrue(e, n, lab);
      case AndAlso(l, r) => GenPastTrue(e, n, lab, thru);
      case Masked(_, _) => GenMasked(e, n, true, lab);
      case Compare(op, l, r) => GenCompareTrue(e, n, lab, thru);
      case Local(_, _) => GenValueCondition(e, n, true, lab);
      case Global(_, _) => GenValueCondition(e, n, true, lab);
      case AddrConst(_) => GenValueCondition(e, n, true, lab);
      case LocalArray(_) => GenValueCondition(e, n, true, lab);
      case Other(_, _) => GenValueCondition(e, n, true, lab);
      case IfElse(_, _, _) => GenValueCondition(e, n, true, lab);
    }
  }
}
