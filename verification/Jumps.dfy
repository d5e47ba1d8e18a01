/**
 gen_jump.c: conditions compiled to branches, with gen_expr for the operands they compare.
 The methods print instructions through the tracked emitters; each promises that, whatever the
 operands do, the code printed leaves to its label exactly when the condition asks for it.
 */
module Jumps {
  import opened Arith
  import opened Bits
  import opened Machine
  import opened Emitters
  import opened Conditions
  import opened Branches

  // ----- running conditions -----

  /** What one evaluation leaves alone: SP, the pushed temporaries and the cell @bp. */
  predicate Kept(fr: Frame, s: State, t: State) {
    && t.sp == s.sp
    && (forall a {:trigger t.mem[a]} :: s.sp < a < fr.bp ==> t.mem[a] == s.mem[a])
    && Word16At(t.mem, BP) == Word16At(s.mem, BP)
  }

  /** The operand's value is where gen_expr leaves it: in D, or for a byte in B. */
  predicate InReg(ty: Ty, v: int, s: State) {
    if ty.IsWide() then D(s) == v % 65536 else s.b == v % 256
  }

  /** The code of every operand `Other(id)` computes its value, has its effect and balances the stack. */
  ghost predicate Faithful(fr: Frame, env: Env, orc: Oracle) {
    forall id: nat, wide: bool, s: State {:trigger Ask(orc, id, wide, s)} :: fr.bp - fr.room - 1 <= s.sp < fr.bp ==>
      var t := Ask(orc, id, wide, s);
      var w := World(fr, s.mem);
      && Kept(fr, s, t)
      && World(fr, t.mem) == env.effect(id, w)
      && if wide then D(t) == env.value(id, w) else t.b == env.value(id, w) % 256
  }

  /** Bytes of stack the code of `n` may push. */
  function Need(n: Node): nat {
    match n
    case Promote(e) => Need(e)
    case IfElse(c, yes, no) => Max(Need(c), Max(Need(yes), Need(no)))
    case Masked(e, _) => Need(e)
    case Not(e) => Need(e)
    case AndAlso(l, r) => Max(Need(l), Need(r))
    case OrElse(l, r) => Max(Need(l), Need(r))
    case Compare(_, l, r) => 2 + Max(Need(l), Need(r))
    case _ => 0
  }

  function Max(x: nat, y: nat): nat { if x < y then y else x }

  /** Everything known where the code of `n` starts. */
  ghost predicate Starts(cfg: Config, fr: Frame, env: Env, orc: Oracle, k: Tracker, need: nat, s: State) {
    Faithful(fr, env, orc) && Tracks(cfg, fr, k, s) && k.depth + need <= fr.room
  }

  /** `t` is where evaluation from `s` may end: guesses `k` right, world `w`, the rest kept. */
  ghost predicate Reaches(cfg: Config, fr: Frame, k: Tracker, s: State, w: Mem, t: State) {
    Tracks(cfg, fr, k, t) && Kept(fr, s, t) && World(fr, t.mem) == w
  }

  ghost predicate LoadsAt(cfg: Config, fr: Frame, env: Env, orc: Oracle, n: Node, k: Tracker, code: seq<Instr>, s: State)
  {
    var (v, w) := Eval(cfg, fr, env, n, World(fr, s.mem));
    var o := Run(orc, code, s);
    o.Fall? && Reaches(cfg, fr, k, s, w, o.s) && InReg(n.Type(), v, o.s)
  }

  /** The code evaluates operand `n` into its register and falls through. */
  ghost predicate Loads(cfg: Config, n: Node, k0: Tracker, k1: Tracker, code: seq<Instr>) {
    forall fr, env, orc, s :: Starts(cfg, fr, env, orc, k0, Need(n), s) ==>
      LoadsAt(cfg, fr, env, orc, n, k1, code, s)
  }

  ghost predicate JumpsAt(cfg: Config, fr: Frame, env: Env, orc: Oracle, n: Node, sense: bool, lab: nat, k: Tracker, code: seq<Instr>, s: State)
  {
    var (v, w) := Eval(cfg, fr, env, n, World(fr, s.mem));
    match Run(orc, code, s)
    case Goto(l, t) => (v != 0) == sense && l == lab && Reaches(cfg, fr, Tracker(k.depth, IxNone), s, w, t)
    case Fall(t) => (v != 0) != sense && Reaches(cfg, fr, k, s, w, t)
  }

  /**
   The code evaluates `n` once, in C's order, and leaves to `lab` exactly when it is nonzero
   (`sense`) or exactly when it is zero (`!sense`); SP is the same at both exits.
   */
  ghost predicate JumpsOn(cfg: Config, n: Node, sense: bool, lab: nat, k0: Tracker, k1: Tracker, code: seq<Instr>) {
    forall fr, env, orc, s :: Starts(cfg, fr, env, orc, k0, Need(n), s) ==>
      JumpsAt(cfg, fr, env, orc, n, sense, lab, k1, code, s)
  }

  // ----- memory seen as a world -----

  lemma WorldRead(fr: Frame, m: Mem, a: Word)
    requires !(fr.bp - fr.room <= a < fr.bp)
    ensures World(fr, m)[a] == m[a]
  {
  }

  lemma WorldPush(fr: Frame, m: Mem, a: Word, v: Byte)
    requires fr.bp - fr.room <= a < fr.bp
    ensures World(fr, m[a := v]) == World(fr, m)
  {
  }

  // ----- running tracked code -----

  /** Code printed by a tracked emitter that does not touch memory is an evaluation step. */
  lemma TrackedStep(cfg: Config, fr: Frame, env: Env, orc: Oracle, op: Op, k0: Tracker, k1: Tracker, code: seq<Instr>, s: State)
    requires Tracks(cfg, fr, k0, s) && Emits(cfg, op, k0, k1, code) && !cfg.useAlloca && k1.depth == k0.depth
    requires op.OpLdxBp? || op.OpLdxBpNX? || op.OpLdxExt? || op.OpCpxExt? || op.OpLdxImm? || op.OpInxDex?
    ensures var o := Run(orc, code, s);
      o.Fall? && Does(cfg, fr, op, s, o.s) && Reaches(cfg, fr, k1, s, World(fr, s.mem), o.s)
      && o.s.a == s.a && o.s.b == s.b && o.s.mem == s.mem
  {
    assert Assumed(cfg, fr, k0, op, s);
    RunStraight(orc, code, s);
  }

  /** Straight code that keeps X, SP and memory keeps every guess. */
  lemma QuietStep(cfg: Config, fr: Frame, orc: Oracle, k: Tracker, code: seq<Instr>, s: State)
    requires Tracks(cfg, fr, k, s) && StraightCode(code)
    requires var t := Exec(code, s); t.x == s.x && t.sp == s.sp && t.mem == s.mem
    ensures var o := Run(orc, code, s);
      o == Fall(Exec(code, s)) && Reaches(cfg, fr, k, s, World(fr, s.mem), o.s)
  {
    RunStraight(orc, code, s);
  }

  lemma ReachesTrans(cfg: Config, fr: Frame, k1: Tracker, k2: Tracker, s: State, t: State, u: State, w1: Mem, w2: Mem)
    requires Reaches(cfg, fr, k1, s, w1, t) && Reaches(cfg, fr, k2, t, w2, u)
    ensures Reaches(cfg, fr, k2, s, w2, u)
  {
  }

  /** Code that only touches the accumulators and flags ends where it began. */
  lemma ReachesSame(cfg: Config, fr: Frame, k: Tracker, s: State, w: Mem, m: State, t: State)
    requires Reaches(cfg, fr, k, s, w, m) && Same(m, t)
    ensures Reaches(cfg, fr, k, s, w, t) && Reaches(cfg, fr, Tracker(k.depth, IxNone), s, w, t)
  {
  }

  // ----- operands -----

  function ByteOf(v: int): Byte { v % 256 }
  function HighOf(v: int): Byte { (v / 256) % 256 }

  lemma SplitWord(v: int)
    ensures Cat(HighOf(v), ByteOf(v)) == v % 65536
  {
    WordSplit(v);
  }

  function LdabI(n: int): Instr {
    if Low(n) == 0 then Un(Clr, B) else Alu(Ld, B, Imm(Low(n)))
  }

  function LdaaI(n: int): Instr {
    if High(n) == 0 then Un(Clr, A)
    else if Low(n) == High(n) then Inh(Tba)
    else Alu(Ld, A, Imm(High(n)))
  }

  lemma ImmediateByte(cfg: Config, val: int, ty: Ty, k: Tracker)
    requires !ty.IsWide()
    ensures Loads(cfg, Num(val, ty), k, k, [LdabI(val)])
  {
    hide Faithful, World, Kept, ValidFrame, DepthRight, IxRight, Run, Take;
    forall fr, env, orc, s | Starts(cfg, fr, env, orc, k, 0, s)
      ensures LoadsAt(cfg, fr, env, orc, Num(val, ty), k, [LdabI(val)], s)
    {
      Exec1(LdabI(val), s);
      QuietStep(cfg, fr, orc, k, [LdabI(val)], s);
      WordSplit(val);
    }
  }

  lemma ImmediateWord(cfg: Config, val: int, ty: Ty, k: Tracker)
    requires ty.IsWide()
    ensures Loads(cfg, Num(val, ty), k, k, [LdabI(val), LdaaI(val)])
  {
    hide Faithful, World, Kept, ValidFrame, DepthRight, IxRight, Run, Take, Exec, Step, LdabI, LdaaI, Fit;
    var code := [LdabI(val), LdaaI(val)];
    assert Straight(LdabI(val)) && Straight(LdaaI(val)) by { ImmediateStraight(val); }
    forall fr, env, orc, s | Starts(cfg, fr, env, orc, k, 0, s)
      ensures LoadsAt(cfg, fr, env, orc, Num(val, ty), k, code, s)
    {
      ImmediateExec(val, s);
      QuietStep(cfg, fr, orc, k, code, s);
      WideFit(val % 65536, ty);
    }
  }

  lemma ImmediateStraight(val: int)
    ensures Straight(LdabI(val)) && Straight(LdaaI(val))
  {
  }

  lemma ImmediateExec(val: int, s: State)
    ensures var t := Exec([LdabI(val), LdaaI(val)], s); D(t) == val % 65536 && t == s.(a := t.a, b := t.b, f := t.f)
  {
    hide Exec, Step;
    LowLoaded(val, s);
    HighLoaded(val, Step(LdabI(val), s));
    Exec2(LdabI(val), LdaaI(val), s);
    WordSplit(val);
  }

  lemma LowLoaded(val: int, s: State)
    ensures var t := Step(LdabI(val), s); t == s.(b := Low(val), f := t.f)
  {
    if Low(val) != 0 {
      StepLoad(B, Imm(Low(val)), s);
    }
  }

  lemma HighLoaded(val: int, s: State)
    requires s.b == Low(val)
    ensures var t := Step(LdaaI(val), s); t == s.(a := High(val), f := t.f)
  {
    if High(val) != 0 && Low(val) != High(val) {
      StepLoad(A, Imm(High(val)), s);
    }
  }

  lemma FitBytes(raw: Word, ty: Ty)
    requires ty.IsWide() || raw < 256
    ensures ByteOf(Fit(raw, ty)) == raw % 256
    ensures ty.IsWide() || ty == U8 ==> HighOf(Fit(raw, ty)) == raw / 256
    ensures Fit(raw, ty) % 65536 == raw || !ty.IsWide()
  {
  }

  /** What gen_direct leaves behind: two operands that name the bytes of `n`'s value. */
  ghost predicate ReadsAt(cfg: Config, fr: Frame, env: Env, orc: Oracle, n: Node, k: Tracker, lo: Opnd, hi: Opnd, code: seq<Instr>, s: State)
  {
    var w := World(fr, s.mem);
    var (v, w1) := Eval(cfg, fr, env, n, w);
    var o := Run(orc, code, s);
    && w1 == w && o.Fall? && Reaches(cfg, fr, k, s, w, o.s)
    && o.s.a == s.a && o.s.b == s.b && o.s.mem == s.mem
    && Rd(lo, o.s) == ByteOf(v) && (n.Type().IsWide() ==> Rd(hi, o.s) == HighOf(v))
  }

  ghost predicate Reads(cfg: Config, n: Node, k0: Tracker, k1: Tracker, lo: Opnd, hi: Opnd, code: seq<Instr>) {
    forall fr, env, orc, s :: Starts(cfg, fr, env, orc, k0, 0, s) ==>
      ReadsAt(cfg, fr, env, orc, n, k1, lo, hi, code, s)
  }

  lemma ReadsImmediate(cfg: Config, n: Node, k: Tracker)
    requires n.Num? || n.AddrConst?
    ensures var v := if n.Num? then n.val else cfg.link(n.sym);
      Reads(cfg, n, k, k, Imm(Low(v)), Imm(High(v)), [])
  {
    var v := if n.Num? then n.val else cfg.link(n.sym);
    forall fr, env, orc, s | Starts(cfg, fr, env, orc, k, 0, s)
      ensures ReadsAt(cfg, fr, env, orc, n, k, Imm(Low(v)), Imm(High(v)), [], s)
    {
      ImmediateBytes(v, n.Type());
    }
  }

  lemma ImmediateBytes(val: int, ty: Ty)
    ensures ByteOf(Fit(val % 65536, ty)) == Low(val)
    ensures ty.IsWide() ==> HighOf(Fit(val % 65536, ty)) == High(val)
  {
    var raw := val % 65536;
    WordBytes(val);
    if ty.IsWide() {
      FitBytes(raw, ty);
    } else {
      assert Fit(raw, ty) % 256 == raw % 256;
    }
  }

  lemma WordBytes(val: int)
    ensures Low(val) == (val % 65536) % 256 && High(val) == (val % 65536) / 256
  {
    WordSplit(val);
  }

  function GlobalLow(cfg: Config, name: string, ty: Ty): Opnd {
    M(Ext(if ty.IsWide() then Wrap(cfg.link(name) + 1) else cfg.link(name)))
  }

  lemma ReadsGlobal(cfg: Config, name: string, ty: Ty, k: Tracker)
    ensures Reads(cfg, Global(name, ty), k, k, GlobalLow(cfg, name, ty), M(Ext(cfg.link(name))), [])
  {
    hide Faithful, World, ReadTy;
    var lo, hi := GlobalLow(cfg, name, ty), M(Ext(cfg.link(name)));
    forall fr, env, orc, s | Starts(cfg, fr, env, orc, k, 0, s)
      ensures ReadsAt(cfg, fr, env, orc, Global(name, ty), k, lo, hi, [], s)
    {
      var g := cfg.link(name);
      assert Apart(fr, g);
      ReadWorld(fr, s.mem, g, ty);
      BytesRead(s.mem, g, ty);
    }
  }

  function LocalLow(off: nat, ty: Ty): Opnd
    requires off <= 252
  {
    M(Idx(if ty.IsWide() then off + 1 else off))
  }

  lemma ReadsLocal(cfg: Config, off: nat, ty: Ty, k0: Tracker, k1: Tracker, code: seq<Instr>)
    requires off <= 252 && !cfg.useAlloca && k1 == k0.(ix := IxBP) && Emits(cfg, OpLdxBp, k0, k1, code)
    ensures Reads(cfg, Local(off, ty), k0, k1, LocalLow(off, ty), M(Idx(off)), code)
  {
    hide Faithful, World, ValidFrame;
    forall fr, env, orc, s | Starts(cfg, fr, env, orc, k0, 0, s)
      ensures ReadsAt(cfg, fr, env, orc, Local(off, ty), k1, LocalLow(off, ty), M(Idx(off)), code, s)
    {
      TrackedStep(cfg, fr, env, orc, OpLdxBp, k0, k1, code, s);
      LocalOperand(fr, off, ty, Run(orc, code, s).s);
    }
  }

  lemma LocalOperand(fr: Frame, off: nat, ty: Ty, s: State)
    requires off <= 252 && s.x == fr.bp
    ensures var v := ReadTy(World(fr, s.mem), (fr.bp + off) % 65536, ty);
      Rd(LocalLow(off, ty), s) == ByteOf(v) && (ty.IsWide() ==> Rd(M(Idx(off)), s) == HighOf(v))
  {
    hide World, ReadTy, Fit;
    var g := fr.bp + off;
    SmallMod(g);
    ReadWorld(fr, s.mem, g, ty);
    BytesRead(s.mem, g, ty);
  }

  lemma ReadWorld(fr: Frame, m: Mem, g: int, ty: Ty)
    requires 0 <= g < 65535 && (g + 1 < fr.bp - fr.room || fr.bp <= g)
    ensures ReadTy(World(fr, m), g, ty) == ReadTy(m, g, ty)
  {
    WorldRead(fr, m, g);
    WorldRead(fr, m, g + 1);
  }

  lemma BytesRead(m: Mem, g: Word, ty: Ty)
    requires g < 65535
    ensures var v := ReadTy(m, g, ty);
      m[if ty.IsWide() then g + 1 else g] == ByteOf(v) && (ty.IsWide() ==> m[g] == HighOf(v))
  {
    hide Fit;
    DivModUnique(Word16At(m, g), m[g], m[g + 1], 256);
    FitBytes(if ty.IsWide() then Word16At(m, g) else m[g], ty);
    DivModUnique(m[g], 0, m[g], 256);
  }

  /** A promoted unsigned byte has a high byte of zero (`sbca #0`). */
  lemma ReadsPromoted(cfg: Config, e: Node, k0: Tracker, k1: Tracker, lo: Opnd, hi: Opnd, code: seq<Instr>)
    requires CanDirect(Promote(e)) && Reads(cfg, e, k0, k1, lo, hi, code)
    ensures Reads(cfg, Promote(e), k0, k1, lo, Imm(0), code)
  {
    hide Faithful, World, ValidFrame;
    forall fr, env, orc, s | Starts(cfg, fr, env, orc, k0, 0, s)
      ensures ReadsAt(cfg, fr, env, orc, Promote(e), k1, lo, Imm(0), code, s)
    {
      assert ReadsAt(cfg, fr, env, orc, e, k1, lo, hi, code, s);
      var (v, w1) := Eval(cfg, fr, env, e, World(fr, s.mem));
      assert 0 <= v < 256;
    }
  }

  lemma LoadByte(cfg: Config, n: Node, k0: Tracker, k1: Tracker, lo: Opnd, hi: Opnd, code: seq<Instr>)
    requires !n.Type().IsWide() && Reads(cfg, n, k0, k1, lo, hi, code)
    ensures Loads(cfg, n, k0, k1, code + [Alu(Ld, B, lo)])
  {
    hide Faithful, World, ValidFrame, Word16At;
    var last := [Alu(Ld, B, lo)];
    forall fr, env, orc, s | Starts(cfg, fr, env, orc, k0, Need(n), s)
      ensures LoadsAt(cfg, fr, env, orc, n, k1, code + last, s)
    {
      assert ReadsAt(cfg, fr, env, orc, n, k1, lo, hi, code, s);
      RunAppend(orc, code, last, s);
      var m := Run(orc, code, s).s;
      Exec1(last[0], m);
      QuietStep(cfg, fr, orc, k1, last, m);
    }
  }

  lemma LoadWord(cfg: Config, n: Node, k0: Tracker, k1: Tracker, lo: Opnd, hi: Opnd, code: seq<Instr>)
    requires n.Type().IsWide() && Reads(cfg, n, k0, k1, lo, hi, code)
    ensures Loads(cfg, n, k0, k1, code + [Alu(Ld, B, lo), Alu(Ld, A, hi)])
  {
    hide Faithful, World, ValidFrame, Run, Take, Eval, Exec, Step, Kept;
    var last := [Alu(Ld, B, lo), Alu(Ld, A, hi)];
    forall fr, env, orc, s | Starts(cfg, fr, env, orc, k0, Need(n), s)
      ensures LoadsAt(cfg, fr, env, orc, n, k1, code + last, s)
    {
      assert ReadsAt(cfg, fr, env, orc, n, k1, lo, hi, code, s);
      RunAppend(orc, code, last, s);
      var m := Run(orc, code, s).s;
      LoadPair(lo, hi, m);
      QuietStep(cfg, fr, orc, k1, last, m);
      var (v, w) := Eval(cfg, fr, env, n, World(fr, s.mem));
      SplitWord(v);
      RunOn(orc, last, m);
      ReachesSame(cfg, fr, k1, s, w, m, Exec(last, m));
    }
  }

  lemma LoadPair(lo: Opnd, hi: Opnd, s: State)
    ensures var t := Exec([Alu(Ld, B, lo), Alu(Ld, A, hi)], s);
      t.b == Rd(lo, s) && t.a == Rd(hi, s) && t == s.(a := t.a, b := t.b, f := t.f)
  {
    hide Exec, Step, Rd, MoveFlags;
    var m := Step(Alu(Ld, B, lo), s);
    StepLoad(B, lo, s);
    StepLoad(A, hi, m);
    RdSame(hi, s, m);
    Exec2(Alu(Ld, B, lo), Alu(Ld, A, hi), s);
  }

  // ----- operands compiled in several steps -----

  function ArrayCode(off: nat): seq<Instr> {
    [Alu(Ld, B, M(Ext(BP + 1))), Alu(Ld, A, M(Ext(BP)))]
    + if off == 0 then [] else [Alu(Add, B, Imm(Low(off))), Alu(Adc, A, Imm(High(off)))]
  }

  lemma ArrayExec(off: nat, s: State)
    ensures var t := Exec(ArrayCode(off), s);
      D(t) == (Word16At(s.mem, BP) + off) % 65536 && t == s.(a := t.a, b := t.b, f := t.f)
  {
    hide Step;
    var c1 := [Alu(Ld, B, M(Ext(BP + 1))), Alu(Ld, A, M(Ext(BP)))];
    LoadBase(s);
    var m := Exec(c1, s);
    if off == 0 {
      assert ArrayCode(off) == c1;
      SmallMod(D(m));
    } else {
      var c2 := [Alu(Add, B, Imm(Low(off))), Alu(Adc, A, Imm(High(off)))];
      assert ArrayCode(off) == c1 + c2;
      ExecAppend(c1, c2, s);
      AddExec(off, m);
    }
  }

  lemma LoadBase(s: State)
    ensures var t := Exec([Alu(Ld, B, M(Ext(BP + 1))), Alu(Ld, A, M(Ext(BP)))], s);
      D(t) == Word16At(s.mem, BP) && t == s.(a := t.a, b := t.b, f := t.f)
  {
    hide Exec, Step;
    LoadPair(M(Ext(BP + 1)), M(Ext(BP)), s);
  }

  lemma AddExec(n: nat, s: State)
    ensures var t := Exec([Alu(Add, B, Imm(Low(n))), Alu(Adc, A, Imm(High(n)))], s);
      D(t) == (D(s) + n) % 65536 && t == s.(a := t.a, b := t.b, f := t.f)
  {
    hide Step;
    var m := Step(Alu(Add, B, Imm(Low(n))), s);
    AddByte(Add, B, Low(n), s);
    AddByte(Adc, A, High(n), m);
    HalfWord(D(s));
    Arith.AddBytes(D(s), n);
    Exec2(Alu(Add, B, Imm(Low(n))), Alu(Adc, A, Imm(High(n))), s);
  }

  lemma AddByte(op: AluOp, r: Reg, k: Byte, s: State)
    requires (op == Add && r == B) || (op == Adc && r == A)
    ensures var t := Step(Alu(op, r, Imm(k)), s);
      var sum := Get(r, s) + k + Carry(op == Adc && s.f.c);
      t == Set(r, Wrap8(sum), s).(f := t.f) && t.f.c == (sum >= 256)
  {
  }

  lemma LoadArray(cfg: Config, off: nat, k: Tracker)
    requires cfg.hasFrame
    ensures Loads(cfg, LocalArray(off), k, k, ArrayCode(off))
  {
    hide Faithful, World, Run, Take, Exec, Step, ArrayCode, Word16At;
    forall fr, env, orc, s | Starts(cfg, fr, env, orc, k, 0, s)
      ensures LoadsAt(cfg, fr, env, orc, LocalArray(off), k, ArrayCode(off), s)
    {
      ArrayExec(off, s);
      ArrayStraight(off);
      QuietStep(cfg, fr, orc, k, ArrayCode(off), s);
      ModTwice(fr.bp + off);
    }
  }

  lemma ArrayStraight(off: nat)
    ensures StraightCode(ArrayCode(off))
  {
  }

  lemma LoadOther(cfg: Config, id: nat, ty: Ty, k: Tracker)
    requires !cfg.useAlloca
    ensures Loads(cfg, Other(id, ty), k, k.(ix := IxNone), [Operand(id, ty.IsWide())])
  {
    hide World, ValidFrame;
    var code := [Operand(id, ty.IsWide())];
    forall fr, env, orc, s | Starts(cfg, fr, env, orc, k, 0, s)
      ensures LoadsAt(cfg, fr, env, orc, Other(id, ty), k.(ix := IxNone), code, s)
    {
      var t := Ask(orc, id, ty.IsWide(), s);
      assert code[1..] == [] && Run(orc, [], t) == Fall(t);
      assert Run(orc, code, s) == Fall(t);
      assert Kept(fr, s, t);
    }
  }

  /** An operand's value is one its type can have. */
  lemma {:induction false} ValueInRange(cfg: Config, fr: Frame, env: Env, n: Node, w: Mem)
    requires n.WellTyped(cfg) && n.IsOperand()
    ensures InRange(n.Type(), Eval(cfg, fr, env, n, w).0)
  {
    match n
    case IfElse(c, yes, no) =>
      var (v, w1) := Eval(cfg, fr, env, c, w);
      ValueInRange(cfg, fr, env, yes, w1);
      ValueInRange(cfg, fr, env, no, w1);
    case Promote(e) => ValueInRange(cfg, fr, env, e, w);
    case _ =>
  }

  /** The code of `cast` from a byte to int (cast_table: u8i16, i8i16). */
  function WidenCode(ty: Ty): seq<Instr> {
    if ty == U8 then [Un(Clr, A)] else [Un(Clr, A), Un(Asr, B), Un(Rol, B), Alu(Sbc, A, Imm(0))]
  }

  lemma WidenExec(ty: Ty, v: int, s: State)
    requires s.b == v % 256 && (if ty == U8 then 0 <= v < 256 else -128 <= v < 128)
    ensures var t := Exec(WidenCode(ty), s);
      D(t) == v % 65536 && t == s.(a := t.a, b := t.b, f := t.f)
  {
    hide Step;
    if ty == U8 {
      Exec1(Un(Clr, A), s);
      ClearA(s);
      DivModUnique(v, 0, v, 256);
      SmallMod(v);
    } else {
      SignExec(s);
      SignExtends(v);
    }
  }

  lemma SignExtends(v: int)
    requires -128 <= v < 128
    ensures Cat(if v % 256 >= 128 then 255 else 0, v % 256) == v % 65536
  {
    if v < 0 {
      DivModUnique(v, -1, v + 256, 256);
      DivModUnique(v, -1, v + 65536, 65536);
    } else {
      DivModUnique(v, 0, v, 256);
      SmallMod(v);
    }
  }

  lemma SignExec(s: State)
    ensures var t := Exec([Un(Clr, A), Un(Asr, B), Un(Rol, B), Alu(Sbc, A, Imm(0))], s);
      t == s.(a := if s.b >= 128 then 255 else 0, f := t.f)
  {
    hide Step, UnValue, UnFlags, SubFlags;
    SignThrough(s.b);
    var s1 := Step(Un(Clr, A), s);
    ClearA(s);
    ShiftB(Asr, s1);
    var s2 := Step(Un(Asr, B), s1);
    ShiftB(Rol, s2);
    BorrowA(Step(Un(Rol, B), s2));
    Exec4(Un(Clr, A), Un(Asr, B), Un(Rol, B), Alu(Sbc, A, Imm(0)), s);
  }

  lemma ClearA(s: State)
    ensures var t := Step(Un(Clr, A), s); t == s.(a := 0, f := t.f)
  {
  }

  lemma ShiftB(op: UnOp, s: State)
    requires op == Asr || op == Rol
    ensures var t := Step(Un(op, B), s);
      t == s.(b := if op == Asr then Right(s.b, s.b >= 128) else Left(s.b, s.f.c), f := t.f)
      && t.f.c == if op == Asr then s.b % 2 == 1 else s.b >= 128
  {
  }

  lemma BorrowA(s: State)
    ensures var t := Step(Alu(Sbc, A, Imm(0)), s); t == s.(a := Wrap8(s.a - Carry(s.f.c)), f := t.f)
  {
  }

  /** Shifting a byte right and rotating it back puts its sign in the carry. */
  lemma SignThrough(b: Byte)
    ensures var r := Right(b, b >= 128); Left(r, b % 2 == 1) == b && (r >= 128) == (b >= 128)
  {
  }

  lemma LoadPromoted(cfg: Config, e: Node, k0: Tracker, k1: Tracker, code: seq<Instr>)
    requires Promote(e).WellTyped(cfg) && Loads(cfg, e, k0, k1, code)
    ensures Loads(cfg, Promote(e), k0, k1, code + WidenCode(e.Type()))
  {
    hide Faithful, World, ValidFrame, Word16At;
    var last := WidenCode(e.Type());
    forall fr, env, orc, s | Starts(cfg, fr, env, orc, k0, Need(e), s)
      ensures LoadsAt(cfg, fr, env, orc, Promote(e), k1, code + last, s)
    {
      assert LoadsAt(cfg, fr, env, orc, e, k1, code, s);
      var (v, w) := Eval(cfg, fr, env, e, World(fr, s.mem));
      var m := Run(orc, code, s).s;
      RunAppend(orc, code, last, s);
      ValueInRange(cfg, fr, env, e, World(fr, s.mem));
      WidenExec(e.Type(), v, m);
      assert StraightCode(last);
      QuietStep(cfg, fr, orc, k1, last, m);
    }
  }

  /** The pieces of `c ? yes : no`: branch, first arm, jump over, second arm. */
  lemma LoadIfElse(cfg: Config, c: Node, yes: Node, no: Node, els: nat, end: nat,
                   k0: Tracker, k1: Tracker, k2: Tracker, k3: Tracker,
                   cj: seq<Instr>, cy: seq<Instr>, cn: seq<Instr>, lo: nat, hi: nat)
    requires IfElse(c, yes, no).WellTyped(cfg)
    requires JumpsOn(cfg, c, false, els, k0, k1, cj) && k1.depth == k0.depth
    requires Loads(cfg, yes, k1, k2, cy) && k2.depth == k0.depth
    requires Loads(cfg, no, Tracker(k0.depth, IxNone), k3, cn) && k3.depth == k0.depth
    requires LabelsIn(cj, lo, hi) && LabelsIn(cy, lo, hi) && LabelsIn(cn, lo, hi) && els < lo && end < lo && els != end
    ensures Loads(cfg, IfElse(c, yes, no), k0, Tracker(k0.depth, IxNone),
                  cj + (cy + ([Jmp(end), Label(els)] + (cn + [Label(end)]))))
  {
    hide Faithful, World, Tracks, LoadsAt, JumpsAt, LabelsIn;
    var n := IfElse(c, yes, no);
    var code := cj + (cy + ([Jmp(end), Label(els)] + (cn + [Label(end)])));
    forall fr, env, orc, s | Starts(cfg, fr, env, orc, k0, Need(n), s)
      ensures LoadsAt(cfg, fr, env, orc, n, Tracker(k0.depth, IxNone), code, s)
    {
      assert JumpsAt(cfg, fr, env, orc, c, false, els, k1, cj, s);
      IfElseAt(cfg, fr, env, orc, n, els, end, k0, k1, k2, k3, cj, cy, cn, lo, hi, s);
    }
  }

  lemma IfElseAt(cfg: Config, fr: Frame, env: Env, orc: Oracle, n: Node, els: nat, end: nat,
                 k0: Tracker, k1: Tracker, k2: Tracker, k3: Tracker,
                 cj: seq<Instr>, cy: seq<Instr>, cn: seq<Instr>, lo: nat, hi: nat, s: State)
    requires n.IfElse? && n.WellTyped(cfg) && Starts(cfg, fr, env, orc, k0, Need(n), s)
    requires JumpsAt(cfg, fr, env, orc, n.c, false, els, k1, cj, s) && k1.depth == k0.depth
    requires Loads(cfg, n.yes, k1, k2, cy) && k2.depth == k0.depth
    requires Loads(cfg, n.no, Tracker(k0.depth, IxNone), k3, cn) && k3.depth == k0.depth
    requires LabelsIn(cy, lo, hi) && LabelsIn(cn, lo, hi) && els < lo && end < lo && els != end
    ensures LoadsAt(cfg, fr, env, orc, n, Tracker(k0.depth, IxNone),
                    cj + (cy + ([Jmp(end), Label(els)] + (cn + [Label(end)]))), s)
  {
    hide Faithful, World, ValidFrame, Loads, LabelsIn, Run;
    RunAppend(orc, cj, cy + ([Jmp(end), Label(els)] + (cn + [Label(end)])), s);
    var m := Run(orc, cj, s).s;
    if Eval(cfg, fr, env, n.c, World(fr, s.mem)).0 != 0 {
      IfElseFirst(cfg, fr, env, orc, n.yes, k1, k2, cy, cn, els, end, lo, hi, m);
    } else {
      IfElseSecond(cfg, fr, env, orc, n.no, Tracker(k0.depth, IxNone), k3, cy, cn, els, end, lo, hi, m);
    }
  }

  lemma IfElseLabels(cj: seq<Instr>, cy: seq<Instr>, cn: seq<Instr>, els: nat, end: nat, lo: nat, hi: nat)
    requires end == els + 1 && lo == els + 2 && lo <= hi
    requires LabelsIn(cj, lo, hi) && LabelsIn(cy, lo, hi) && LabelsIn(cn, lo, hi)
    ensures LabelsIn(cj + (cy + ([Jmp(end), Label(els)] + (cn + [Label(end)]))), els, hi)
  {
    LabelsWider(cj, lo, hi, els, hi);
    LabelsWider(cy, lo, hi, els, hi);
    LabelsWider(cn, lo, hi, els, hi);
    LabelsAppend(cn, [Label(end)], els, hi, els, hi);
    LabelsAppend([Jmp(end), Label(els)], cn + [Label(end)], els, hi, els, hi);
    LabelsAppend(cy, [Jmp(end), Label(els)] + (cn + [Label(end)]), els, hi, els, hi);
    LabelsAppend(cj, cy + ([Jmp(end), Label(els)] + (cn + [Label(end)])), els, hi, els, hi);
  }

  lemma LabelsWider(code: seq<Instr>, lo: nat, hi: nat, lo': nat, hi': nat)
    requires LabelsIn(code, lo, hi) && lo' <= lo && hi <= hi'
    ensures LabelsIn(code, lo', hi')
  {
  }

  lemma IfElseFirst(cfg: Config, fr: Frame, env: Env, orc: Oracle, yes: Node, k1: Tracker, k2: Tracker,
                    cy: seq<Instr>, cn: seq<Instr>, els: nat, end: nat, lo: nat, hi: nat, s: State)
    requires Starts(cfg, fr, env, orc, k1, Need(yes), s) && Loads(cfg, yes, k1, k2, cy)
    requires LabelsIn(cn, lo, hi) && end < lo && els != end
    ensures LoadsAt(cfg, fr, env, orc, yes, Tracker(k2.depth, IxNone), cy + ([Jmp(end), Label(els)] + (cn + [Label(end)])), s)
  {
    hide Faithful, World, ValidFrame, Eval, LabelsIn;
    var c2 := [Jmp(end), Label(els)] + (cn + [Label(end)]);
    RunAppend(orc, cy, c2, s);
    assert LoadsAt(cfg, fr, env, orc, yes, k2, cy, s);
    var t := Run(orc, cy, s).s;
    assert c2[1..] == ([Label(els)] + cn) + [Label(end)];
    LabelAbsent(cn, lo, hi, end);
    TakePast(orc, end, [Label(els)] + cn, [Label(end)], t);
    TakeHere(orc, end, [], t);
    assert [Label(end)] + [] == [Label(end)];
  }

  lemma IfElseSecond(cfg: Config, fr: Frame, env: Env, orc: Oracle, no: Node, k: Tracker, k3: Tracker,
                     cy: seq<Instr>, cn: seq<Instr>, els: nat, end: nat, lo: nat, hi: nat, s: State)
    requires Starts(cfg, fr, env, orc, k, Need(no), s) && Loads(cfg, no, k, k3, cn)
    requires LabelsIn(cy, lo, hi) && LabelsIn(cn, lo, hi) && els < lo
    ensures var code := cy + ([Jmp(end), Label(els)] + (cn + [Label(end)]));
      var o := Take(orc, els, code, s);
      var (v, w) := Eval(cfg, fr, env, no, World(fr, s.mem));
      o.Fall? && Reaches(cfg, fr, Tracker(k3.depth, IxNone), s, w, o.s) && InReg(no.Type(), v, o.s)
  {
    hide Faithful, World, ValidFrame, Eval, LabelsIn, Word16At;
    IfElseTaken(orc, cy, cn + [Label(end)], els, end, lo, hi, s);
    RunAppend(orc, cn, [Label(end)], s);
    assert LoadsAt(cfg, fr, env, orc, no, k3, cn, s);
    var t := Run(orc, cn, s).s;
    RunLabel(orc, end, [], t);
    assert [Label(end)] + [] == [Label(end)];
  }

  lemma IfElseTaken(orc: Oracle, cy: seq<Instr>, c3: seq<Instr>, els: nat, end: nat, lo: nat, hi: nat, s: State)
    requires LabelsIn(cy, lo, hi) && els < lo
    ensures Take(orc, els, cy + ([Jmp(end), Label(els)] + c3), s) == Run(orc, c3, s)
  {
    var c2 := [Jmp(end), Label(els)] + c3;
    LabelAbsent(cy, lo, hi, els);
    TakePast(orc, els, cy, c2, s);
    assert c2 == [Jmp(end)] + ([Label(els)] + c3);
    TakePast(orc, els, [Jmp(end)], [Label(els)] + c3, s);
    TakeHere(orc, els, c3, s);
  }

  // ----- comparisons, prepared -----

  ghost predicate PreparesAt(cfg: Config, fr: Frame, env: Env, orc: Oracle, n: Node, way: Way, k: Tracker, code: seq<Instr>, s: State)
    requires n.Compare?
  {
    var (x, y, w) := EvalSides(cfg, fr, env, n, World(fr, s.mem));
    var o := Run(orc, code, s);
    o.Fall? && Reaches(cfg, fr, k, s, w, o.s) && Prepared(way, n.op, x, y, o.s)
  }

  /** The code evaluates both sides of the comparison `n` and leaves them as `way` says. */
  ghost predicate Prepares(cfg: Config, n: Node, way: Way, k0: Tracker, k1: Tracker, code: seq<Instr>)
    requires n.Compare?
  {
    forall fr, env, orc, s :: Starts(cfg, fr, env, orc, k0, Need(n), s) ==>
      PreparesAt(cfg, fr, env, orc, n, way, k1, code, s)
  }

  /** Preparing a comparison and deciding it by branches is compiling it. */
  lemma CompareDone(cfg: Config, n: Node, way: Way, sense: bool, lab: nat, k0: Tracker, k1: Tracker, pre: seq<Instr>, tail: seq<Instr>)
    requires n.Compare? && n.WellTyped(cfg) && Prepares(cfg, n, way, k0, k1, pre)
    requires Decides(way, n.op, n.l.Type(), sense, lab, tail)
    ensures JumpsOn(cfg, n, sense, lab, k0, k1, pre + tail)
  {
    hide Faithful, World, Kept, Tracks, Run, Take, Prepared, RelHolds, InRange;
    forall fr, env, orc, s | Starts(cfg, fr, env, orc, k0, Need(n), s)
      ensures JumpsAt(cfg, fr, env, orc, n, sense, lab, k1, pre + tail, s)
    {
      assert PreparesAt(cfg, fr, env, orc, n, way, k1, pre, s);
      var (x, y, w) := EvalSides(cfg, fr, env, n, World(fr, s.mem));
      SidesInRange(cfg, fr, env, n, World(fr, s.mem));
      RunAppend(orc, pre, tail, s);
      var m := Run(orc, pre, s).s;
      assert LeavesOn(orc, tail, m, n.op, x, y, sense, lab);
      ReachesSame(cfg, fr, k1, s, w, m, Run(orc, tail, m).s);
    }
  }

  lemma SidesInRange(cfg: Config, fr: Frame, env: Env, n: Node, w: Mem)
    requires n.Compare? && n.WellTyped(cfg)
    ensures var (x, y, w1) := EvalSides(cfg, fr, env, n, w); InRange(n.l.Type(), x) && InRange(n.l.Type(), y)
  {
    if RightFirst(n.op, n.l, n.r) {
      var (y, w1) := Eval(cfg, fr, env, n.r, w);
      ValueInRange(cfg, fr, env, n.r, w);
      ValueInRange(cfg, fr, env, n.l, w1);
    } else {
      var (x, w1) := Eval(cfg, fr, env, n.l, w);
      ValueInRange(cfg, fr, env, n.l, w);
      ValueInRange(cfg, fr, env, n.r, w1);
    }
  }

  // Against the constant zero, the left side is all there is to evaluate.

  lemma ZeroRight(cfg: Config, n: Node, k0: Tracker, k1: Tracker, code: seq<Instr>)
    requires n.Compare? && n.r.Num? && n.r.val == 0 && n.l.Type() == n.r.Type() && Loads(cfg, n.l, k0, k1, code)
    ensures Prepares(cfg, n, if n.l.Type().IsWide() then WordInD else ByteInB, k0, k1, code)
  {
    var way := if n.l.Type().IsWide() then WordInD else ByteInB;
    forall fr, env, orc, s | Starts(cfg, fr, env, orc, k0, Need(n), s)
      ensures PreparesAt(cfg, fr, env, orc, n, way, k1, code, s)
    {
      assert Starts(cfg, fr, env, orc, k0, Need(n.l), s);
      assert LoadsAt(cfg, fr, env, orc, n.l, k1, code, s);
    }
  }

  /** Bytes, the right side an operand of CMPB. */
  lemma TestDirect(cfg: Config, n: Node, k0: Tracker, k1: Tracker, k2: Tracker, lo: Opnd, hi: Opnd, c1: seq<Instr>, c2: seq<Instr>)
    requires n.Compare? && !n.l.Type().IsWide() && n.l.Type() == n.r.Type()
    requires Loads(cfg, n.l, k0, k1, c1) && k1.depth == k0.depth && Reads(cfg, n.r, k1, k2, lo, hi, c2)
    ensures Prepares(cfg, n, Tested, k0, k2, c1 + (c2 + [Alu(Cmp, B, lo)]))
  {
    hide Faithful, World, ValidFrame;
    var last := [Alu(Cmp, B, lo)];
    forall fr, env, orc, s | Starts(cfg, fr, env, orc, k0, Need(n), s)
      ensures PreparesAt(cfg, fr, env, orc, n, Tested, k2, c1 + (c2 + last), s)
    {
      assert LoadsAt(cfg, fr, env, orc, n.l, k1, c1, s);
      RunAppend(orc, c1, c2 + last, s);
      var m := Run(orc, c1, s).s;
      assert ReadsAt(cfg, fr, env, orc, n.r, k2, lo, hi, c2, m);
      RunAppend(orc, c2, last, m);
      var t := Run(orc, c2, m).s;
      Exec1(last[0], t);
      QuietStep(cfg, fr, orc, k2, last, t);
    }
  }

  /** Words, the right side the operands of SUBB and SBCA. */
  lemma SubtractDirect(cfg: Config, n: Node, k0: Tracker, k1: Tracker, k2: Tracker, lo: Opnd, hi: Opnd, c1: seq<Instr>, c2: seq<Instr>)
    requires n.Compare? && n.l.Type().IsWide() && n.l.Type() == n.r.Type() && !RightFirst(n.op, n.l, n.r)
    requires Loads(cfg, n.l, k0, k1, c1) && k1.depth == k0.depth && Reads(cfg, n.r, k1, k2, lo, hi, c2)
    ensures Prepares(cfg, n, Difference, k0, k2, c1 + (c2 + [Alu(Sub, B, lo), Alu(Sbc, A, hi)]))
  {
    hide Faithful, World, ValidFrame;
    var last := [Alu(Sub, B, lo), Alu(Sbc, A, hi)];
    forall fr, env, orc, s | Starts(cfg, fr, env, orc, k0, Need(n), s)
      ensures PreparesAt(cfg, fr, env, orc, n, Difference, k2, c1 + (c2 + last), s)
    {
      assert LoadsAt(cfg, fr, env, orc, n.l, k1, c1, s);
      RunAppend(orc, c1, c2 + last, s);
      var m := Run(orc, c1, s).s;
      assert ReadsAt(cfg, fr, env, orc, n.r, k2, lo, hi, c2, m);
      RunAppend(orc, c2, last, m);
      var t := Run(orc, c2, m).s;
      var (x, y, w) := EvalSides(cfg, fr, env, n, World(fr, s.mem));
      WordBytes(y);
      SubtractExec(lo, hi, x % 65536, y % 65536, t);
      QuietStep(cfg, fr, orc, k2, last, t);
      DifferenceReady(n.op, x, y, Exec(last, t));
    }
  }

  lemma SubtractExec(lo: Opnd, hi: Opnd, x: Word, y: Word, s: State)
    requires D(s) == x && Rd(lo, s) == y % 256 && Rd(hi, s) == y / 256
    ensures var t := Exec([Alu(Sub, B, lo), Alu(Sbc, A, hi)], s);
      Subtracted(x, y, t) && t == s.(a := t.a, b := t.b, f := t.f)
  {
    hide Step, SubFlags, Exec, Rd;
    WordOfBytes(s);
    var m := Step(Alu(Sub, B, lo), s);
    SubtractByte(Sub, B, lo, s);
    RdSame(hi, s, m);
    SubtractByte(Sbc, A, hi, m);
    SubCarry(x % 256, y % 256, false);
    Exec2(Alu(Sub, B, lo), Alu(Sbc, A, hi), s);
  }

  lemma SubtractByte(op: AluOp, r: Reg, o: Opnd, s: State)
    requires (op == Sub && r == B) || (op == Sbc && r == A)
    ensures var t := Step(Alu(op, r, o), s);
      var c := op == Sbc && s.f.c;
      t == Set(r, Wrap8(Get(r, s) - Rd(o, s) - Carry(c)), s).(f := SubFlags(Get(r, s), Rd(o, s), c))
  {
    hide SubFlags, Rd;
  }

  lemma DifferenceReady(op: RelOp, x: int, y: int, s: State)
    requires Subtracted(x % 65536, y % 65536, s)
    ensures Prepared(Difference, op, x, y, s)
  {
    SubtractedFlags(x % 65536, y % 65536, s);
  }

  // Through the stack.

  /** PSHB, PSHA: the temporaries grow by the word in D, the world does not notice. */
  lemma PushWorld(cfg: Config, fr: Frame, k: Tracker, n: nat, s: State)
    requires Tracks(cfg, fr, k, s) && !cfg.useAlloca && k.depth + n <= fr.room && 1 <= n <= 2
    ensures var code := if n == 1 then [Psh(B)] else [Psh(B), Psh(A)];
      var t := Exec(code, s);
      && Tracks(cfg, fr, k.(depth := k.depth + n), t) && World(fr, t.mem) == World(fr, s.mem)
      && t == s.(sp := s.sp - n, mem := t.mem)
      && t.mem[s.sp] == s.b && (n == 2 ==> t.mem[s.sp - 1] == s.a)
      && (forall a :: s.sp < a < fr.bp ==> t.mem[a] == s.mem[a])
      && Word16At(t.mem, BP) == Word16At(s.mem, BP)
  {
    WorldPush(fr, s.mem, s.sp, s.b);
    if n == 1 {
      Exec1(Psh(B), s);
      PushByteCode(cfg, k);
      assert Assumed(cfg, fr, k, OpPush1, s);
    } else {
      Exec2(Psh(B), Psh(A), s);
      PushCode(cfg, k);
      assert Assumed(cfg, fr, k, OpPush, s);
      WorldPush(fr, s.mem[s.sp := s.b], s.sp - 1, s.a);
    }
  }

  /** Bytes: left side pushed, right side in B, left side back in A. */
  lemma TestPushed(cfg: Config, n: Node, k0: Tracker, k1: Tracker, k2: Tracker, c1: seq<Instr>, c2: seq<Instr>)
    requires n.Compare? && !n.l.Type().IsWide() && n.l.Type() == n.r.Type() && !cfg.useAlloca
    requires Loads(cfg, n.l, k0, k1, c1) && k1.depth == k0.depth
    requires Loads(cfg, n.r, k1.(depth := k0.depth + 1), k2, c2) && k2.depth == k0.depth + 1
    ensures Prepares(cfg, n, Tested, k0, k2.(depth := k0.depth), c1 + ([Psh(B)] + (c2 + [Pul(A), Inh(Cba)])))
  {
    hide Faithful, World, ValidFrame, Word16At, Exec, Step, SubFlags, Run, MoveFlags;
    var last := [Pul(A), Inh(Cba)];
    var k3 := k2.(depth := k0.depth);
    forall fr, env, orc, s | Starts(cfg, fr, env, orc, k0, Need(n), s)
      ensures PreparesAt(cfg, fr, env, orc, n, Tested, k3, c1 + ([Psh(B)] + (c2 + last)), s)
    {
      assert LoadsAt(cfg, fr, env, orc, n.l, k1, c1, s);
      var m := Run(orc, c1, s).s;
      RunAppend(orc, c1, [Psh(B)] + (c2 + last), s);
      PushWorld(cfg, fr, k1, 1, m);
      RunStraight(orc, [Psh(B)], m);
      RunAppend(orc, [Psh(B)], c2 + last, m);
      var p := Exec([Psh(B)], m);
      assert LoadsAt(cfg, fr, env, orc, n.r, k2, c2, p);
      RunAppend(orc, c2, last, p);
      var q := Run(orc, c2, p).s;
      PullCompare(cfg, fr, k2, m.b, q);
      RunStraight(orc, last, q);
      PushedKept(fr, s, m, p, q, Exec(last, q), 1);
    }
  }

  lemma PullCompare(cfg: Config, fr: Frame, k: Tracker, x: Byte, s: State)
    requires Tracks(cfg, fr, k, s) && !cfg.useAlloca && k.depth >= 1 && s.mem[s.sp + 1] == x
    ensures var t := Exec([Pul(A), Inh(Cba)], s);
      && Tracks(cfg, fr, k.(depth := k.depth - 1), t)
      && t == s.(a := x, sp := s.sp + 1, f := SubFlags(x, s.b, false))
  {
    hide SubFlags, Exec, Step, IxRight;
    PullCompareExec(x, s);
    TracksUp(cfg, fr, k, 1, s, Exec([Pul(A), Inh(Cba)], s));
  }

  lemma PullCompareExec(x: Byte, s: State)
    requires s.sp < 65535 && s.mem[s.sp + 1] == x
    ensures Exec([Pul(A), Inh(Cba)], s) == s.(a := x, sp := s.sp + 1, f := SubFlags(x, s.b, false))
  {
    hide SubFlags, Step, Exec;
    StepPull(A, s);
    StepCompare(Step(Pul(A), s));
    Exec2(Pul(A), Inh(Cba), s);
  }

  /** Dropping temporaries. */
  lemma TracksUp(cfg: Config, fr: Frame, k: Tracker, n: nat, s: State, t: State)
    requires Tracks(cfg, fr, k, s) && !cfg.useAlloca && k.depth >= n && t.x == s.x && t.mem == s.mem && t.sp == s.sp + n
    ensures Tracks(cfg, fr, k.(depth := k.depth - n), t)
  {
  }

  /** Evaluating with `n` more bytes pushed, then dropping them, keeps what was there before. */
  lemma PushedKept(fr: Frame, s: State, m: State, p: State, q: State, t: State, n: nat)
    requires Kept(fr, s, m) && Kept(fr, p, q) && p.sp == m.sp - n && t.sp == q.sp + n && t.mem == q.mem
    requires (forall a {:trigger p.mem[a]} :: m.sp < a < fr.bp ==> p.mem[a] == m.mem[a])
    requires Word16At(p.mem, BP) == Word16At(m.mem, BP)
    ensures Kept(fr, s, t)
  {
    forall a {:trigger t.mem[a]} | s.sp < a < fr.bp
      ensures t.mem[a] == s.mem[a]
    {
      assert q.mem[a] == p.mem[a];
      assert p.mem[a] == m.mem[a];
      assert m.mem[a] == s.mem[a];
    }
  }

  /** Words: right side pushed, left side in D, subtracted from the stack, which is dropped. */
  lemma SubtractPushed(cfg: Config, n: Node, k0: Tracker, k1: Tracker, k2: Tracker, c1: seq<Instr>, c2: seq<Instr>)
    requires n.Compare? && n.l.Type().IsWide() && n.l.Type() == n.r.Type() && !cfg.useAlloca && RightFirst(n.op, n.l, n.r)
    requires Loads(cfg, n.r, k0, k1, c1) && k1.depth == k0.depth
    requires Loads(cfg, n.l, k1.(depth := k0.depth + 2), k2, c2) && k2.depth == k0.depth + 2
    ensures Prepares(cfg, n, Difference, k0, Tracker(k0.depth, IxNone), c1 + ([Psh(B), Psh(A)] + (c2 + PopSubtract())))
  {
    hide Faithful, World, ValidFrame;
    var k3 := Tracker(k0.depth, IxNone);
    var rest := [Psh(B), Psh(A)] + (c2 + PopSubtract());
    forall fr, env, orc, s | Starts(cfg, fr, env, orc, k0, Need(n), s)
      ensures PreparesAt(cfg, fr, env, orc, n, Difference, k3, c1 + rest, s)
    {
      assert LoadsAt(cfg, fr, env, orc, n.r, k1, c1, s);
      var m := Run(orc, c1, s).s;
      RunAppend(orc, c1, rest, s);
      SubtractFromPushed(cfg, fr, env, orc, n.l, k1, k2, c2, m);
      var (x, y, w) := EvalSides(cfg, fr, env, n, World(fr, s.mem));
      DifferenceReady(n.op, x, y, Run(orc, rest, m).s);
    }
  }

  lemma SubtractFromPushed(cfg: Config, fr: Frame, env: Env, orc: Oracle, l: Node, k1: Tracker, k2: Tracker, c2: seq<Instr>, m: State)
    requires !cfg.useAlloca && l.Type().IsWide() && Starts(cfg, fr, env, orc, k1, 2 + Need(l), m)
    requires Loads(cfg, l, k1.(depth := k1.depth + 2), k2, c2) && k2.depth == k1.depth + 2
    ensures var (x, w) := Eval(cfg, fr, env, l, World(fr, m.mem));
      var o := Run(orc, [Psh(B), Psh(A)] + (c2 + PopSubtract()), m);
      o.Fall? && Reaches(cfg, fr, Tracker(k1.depth, IxNone), m, w, o.s) && Subtracted(x % 65536, D(m), o.s)
  {
    hide Faithful, World, ValidFrame, Loads, Subtracted, PopSubtract, Eval, Word16At;
    var last := PopSubtract();
    var push := [Psh(B), Psh(A)];
    PushWorld(cfg, fr, k1, 2, m);
    RunStraight(orc, push, m);
    RunAppend(orc, push, c2 + last, m);
    var p := Exec(push, m);
    LoadThenSubtract(cfg, fr, env, orc, l, k1.(depth := k1.depth + 2), k2, c2, p);
    var q := Run(orc, c2, p).s;
    PushedKept(fr, m, m, p, q, Exec(last, q), 2);
  }

  lemma LoadThenSubtract(cfg: Config, fr: Frame, env: Env, orc: Oracle, l: Node, k1: Tracker, k2: Tracker, c2: seq<Instr>, p: State)
    requires !cfg.useAlloca && l.Type().IsWide() && Starts(cfg, fr, env, orc, k1, Need(l), p) && k1.depth >= 2
    requires Loads(cfg, l, k1, k2, c2) && k2.depth == k1.depth
    ensures var (x, w) := Eval(cfg, fr, env, l, World(fr, p.mem));
      var o, c := Run(orc, c2 + PopSubtract(), p), Run(orc, c2, p);
      && o.Fall? && c.Fall? && Kept(fr, p, c.s) && o.s == Exec(PopSubtract(), c.s)
      && Tracks(cfg, fr, Tracker(k1.depth - 2, IxNone), o.s) && World(fr, o.s.mem) == w
      && o.s.sp == p.sp + 2 && o.s.mem == c.s.mem
      && Subtracted(x % 65536, Cat(p.mem[p.sp + 1], p.mem[p.sp + 2]), o.s)
  {
    hide Faithful, World, ValidFrame, Eval, LabelsIn, Word16At;
    assert LoadsAt(cfg, fr, env, orc, l, k2, c2, p);
    RunAppend(orc, c2, PopSubtract(), p);
    var q := Run(orc, c2, p).s;
    var (x, w) := Eval(cfg, fr, env, l, World(fr, p.mem));
    assert q.mem[p.sp + 1] == p.mem[p.sp + 1] && q.mem[p.sp + 2] == p.mem[p.sp + 2];
    PopSubtractExec(cfg, fr, k2, x % 65536, p.mem[p.sp + 1], p.mem[p.sp + 2], q);
    RunStraight(orc, PopSubtract(), q);
  }

  function PopSubtract(): seq<Instr> {
    [Inh(Tsx), Alu(Sub, B, M(Idx(1))), Alu(Sbc, A, M(Idx(0))), Inh(Ins), Inh(Ins)]
  }

  lemma PopSubtractExec(cfg: Config, fr: Frame, k: Tracker, x: Word, hi: Byte, lo: Byte, s: State)
    requires Tracks(cfg, fr, k, s) && !cfg.useAlloca && k.depth >= 2
    requires D(s) == x && s.mem[s.sp + 1] == hi && s.mem[s.sp + 2] == lo
    ensures var t := Exec(PopSubtract(), s);
      && Tracks(cfg, fr, Tracker(k.depth - 2, IxNone), t) && Subtracted(x, Cat(hi, lo), t)
      && t.sp == s.sp + 2 && t.mem == s.mem
  {
    hide SubFlags, Word16At, Exec, Subtracted;
    var y := Cat(hi, lo);
    DivModUnique(y, hi, lo, 256);
    var i, j := Alu(Sub, B, M(Idx(1))), Alu(Sbc, A, M(Idx(0)));
    var s1 := Step(Inh(Tsx), s);
    SubtractExec(M(Idx(1)), M(Idx(0)), x, y, s1);
    Exec2(i, j, s1);
    DropTwo(x, y, Step(j, Step(i, s1)));
    Exec5(Inh(Tsx), i, j, Inh(Ins), Inh(Ins), s);
  }

  lemma DropTwo(x: Word, y: Word, s: State)
    requires Subtracted(x, y, s) && s.sp < 65534
    ensures var t := Step(Inh(Ins), Step(Inh(Ins), s)); Subtracted(x, y, t) && t == s.(sp := s.sp + 2)
  {
    hide SubFlags;
  }

  // Through the index register.

  ghost predicate LoadsXAt(cfg: Config, fr: Frame, env: Env, orc: Oracle, n: Node, k: Tracker, code: seq<Instr>, s: State)
  {
    var w := World(fr, s.mem);
    var (v, w1) := Eval(cfg, fr, env, n, w);
    var o := Run(orc, code, s);
    && w1 == w && o.Fall? && Reaches(cfg, fr, k, s, w, o.s)
    && o.s.mem == s.mem && o.s.x == v % 65536
  }

  /** The code of gen_expr_x: the operand's value in X, nothing else touched. */
  ghost predicate LoadsX(cfg: Config, n: Node, k0: Tracker, k1: Tracker, code: seq<Instr>) {
    forall fr, env, orc, s :: Starts(cfg, fr, env, orc, k0, 0, s) ==>
      LoadsXAt(cfg, fr, env, orc, n, k1, code, s)
  }

  lemma XNum(cfg: Config, val: int, ty: Ty, k: Tracker)
    requires ty.IsWide() && InRange(ty, val)
    ensures LoadsX(cfg, Num(val, ty), k, k.(ix := IxNone), [Ldx(Imm16(val % 65536))])
  {
    var code := [Ldx(Imm16(val % 65536))];
    forall fr, env, orc, s | Starts(cfg, fr, env, orc, k, 0, s)
      ensures LoadsXAt(cfg, fr, env, orc, Num(val, ty), k.(ix := IxNone), code, s)
    {
      Exec1(code[0], s);
      RunStraight(orc, code, s);
    }
  }

  lemma XByOp(cfg: Config, n: Node, op: Op, k0: Tracker, k1: Tracker, code: seq<Instr>)
    requires !cfg.useAlloca && k1.depth == k0.depth && Emits(cfg, op, k0, k1, code)
    requires match n
      case Global(name, ty) => ty.IsWide() && op == OpLdxExt(name)
      case Local(off, ty) => off < 256 && ty.IsWide() && op == OpLdxBpNX(off)
      case AddrConst(sym) => op == OpLdxImm(sym)
      case _ => false
    ensures LoadsX(cfg, n, k0, k1, code)
  {
    hide World, Kept, Faithful, Run, Emits, IxRight, DepthRight, Word16At, ReadTy;
    forall fr, env, orc, s | Starts(cfg, fr, env, orc, k0, 0, s)
      ensures LoadsXAt(cfg, fr, env, orc, n, k1, code, s)
    {
      TrackedStep(cfg, fr, env, orc, op, k0, k1, code, s);
      match n {
        case Global(name, ty) =>
          assert Apart(fr, cfg.link(name));
          GlobalWord(cfg, fr, name, ty, s);
        case Local(off, ty) => LocalWord(fr, off, ty, s);
        case AddrConst(sym) => SmallMod(cfg.link(sym));
      }
    }
  }

  lemma WideFit(raw: Word, ty: Ty)
    requires ty.IsWide()
    ensures Fit(raw, ty) % 65536 == raw
  {
  }

  lemma GlobalWord(cfg: Config, fr: Frame, name: string, ty: Ty, s: State)
    requires Apart(fr, cfg.link(name)) && ty.IsWide()
    ensures ReadTy(World(fr, s.mem), cfg.link(name), ty) % 65536 == Word16At(s.mem, cfg.link(name))
  {
    WorldRead(fr, s.mem, cfg.link(name));
    WorldRead(fr, s.mem, cfg.link(name) + 1);
    WideFit(Word16At(s.mem, cfg.link(name)), ty);
  }

  lemma LocalWord(fr: Frame, off: nat, ty: Ty, s: State)
    requires off < 256 && ty.IsWide()
    ensures ReadTy(World(fr, s.mem), (fr.bp + off) % 65536, ty) % 65536 == Word16At(s.mem, fr.bp + off)
  {
    assert (fr.bp + off) % 65536 == fr.bp + off;
    WorldRead(fr, s.mem, fr.bp + off);
    WorldRead(fr, s.mem, fr.bp + off + 1);
    WideFit(Word16At(s.mem, fr.bp + off), ty);
  }

  ghost predicate StepsAt(cfg: Config, fr: Frame, orc: Oracle, op: Op, k: Tracker, code: seq<Instr>, s: State)
  {
    var o := Run(orc, code, s);
    o.Fall? && Does(cfg, fr, op, s, o.s) && Reaches(cfg, fr, k, s, World(fr, s.mem), o.s) && o.s.mem == s.mem
  }

  ghost predicate Steps(cfg: Config, op: Op, k0: Tracker, k1: Tracker, code: seq<Instr>) {
    forall fr, env, orc, s :: Starts(cfg, fr, env, orc, k0, 0, s) ==> StepsAt(cfg, fr, orc, op, k1, code, s)
  }

  lemma TrackedSteps(cfg: Config, op: Op, k0: Tracker, k1: Tracker, code: seq<Instr>)
    requires Emits(cfg, op, k0, k1, code) && !cfg.useAlloca && k1.depth == k0.depth
    requires op.OpLdxBp? || op.OpInxDex?
    ensures Steps(cfg, op, k0, k1, code)
  {
    hide Faithful, World, ValidFrame;
    forall fr, env, orc, s | Starts(cfg, fr, env, orc, k0, 0, s)
      ensures StepsAt(cfg, fr, orc, op, k1, code, s)
    {
      TrackedStep(cfg, fr, env, orc, op, k0, k1, code, s);
    }
  }

  lemma XArray(cfg: Config, off: nat, k0: Tracker, k1: Tracker, k2: Tracker, c1: seq<Instr>, c2: seq<Instr>)
    requires k1.depth == k0.depth && Steps(cfg, OpLdxBp, k0, k1, c1) && Steps(cfg, OpInxDex(off), k1, k2, c2)
    ensures LoadsX(cfg, LocalArray(off), k0, k2, c1 + c2)
  {
    hide Faithful, World, ValidFrame;
    forall fr, env, orc, s | Starts(cfg, fr, env, orc, k0, 0, s)
      ensures LoadsXAt(cfg, fr, env, orc, LocalArray(off), k2, c1 + c2, s)
    {
      assert StepsAt(cfg, fr, orc, OpLdxBp, k1, c1, s);
      RunAppend(orc, c1, c2, s);
      var m := Run(orc, c1, s).s;
      assert Starts(cfg, fr, env, orc, k1, 0, m);
      assert StepsAt(cfg, fr, orc, OpInxDex(off), k2, c2, m);
      ModTwice(fr.bp + off);
    }
  }

  lemma ModTwice(n: int)
    ensures (n % 65536) % 65536 == n % 65536
  {
    SmallMod(n % 65536);
  }

  lemma CpxStep(cfg: Config, fr: Frame, orc: Oracle, k: Tracker, o: Opnd16, s: State)
    requires Tracks(cfg, fr, k, s)
    ensures var r := Run(orc, [Cpx(o)], s);
      r.Fall? && Reaches(cfg, fr, k, s, World(fr, s.mem), r.s)
      && r.s.f.z == (s.x == Rd16(o, s)) && (o == Imm16(0) ==> r.s.f.n == (s.x >= 32768))
  {
    hide Step, Exec, Run, Tracks, Reaches, CpxFlags, World;
    Exec1(Cpx(o), s);
    StepCpx(o, s);
    CpxSees(s.x, Rd16(o, s), s.f);
    QuietStep(cfg, fr, orc, k, [Cpx(o)], s);
  }

  lemma CompareXWithZero(cfg: Config, n: Node, k0: Tracker, k1: Tracker, code: seq<Instr>)
    requires n.Compare? && n.r.Num? && n.r.val == 0 && n.l.Type().IsWide() && LoadsX(cfg, n.l, k0, k1, code)
    ensures Prepares(cfg, n, ZeroInX, k0, k1, code + [Cpx(Imm16(0))])
  {
    forall fr, env, orc, s | Starts(cfg, fr, env, orc, k0, Need(n), s)
      ensures PreparesAt(cfg, fr, env, orc, n, ZeroInX, k1, code + [Cpx(Imm16(0))], s)
    {
      assert Starts(cfg, fr, env, orc, k0, 0, s);
      assert LoadsXAt(cfg, fr, env, orc, n.l, k1, code, s);
      RunAppend(orc, code, [Cpx(Imm16(0))], s);
      CpxStep(cfg, fr, orc, k1, Imm16(0), Run(orc, code, s).s);
    }
  }

  /** The operand of CPX for a right side that is a constant, an address or a global. */
  function CpxOperand(cfg: Config, r: Node): Opnd16
    requires r.Num? || r.AddrConst? || r.Global?
  {
    match r
    case Num(val, _) => Imm16(val % 65536)
    case AddrConst(sym) => Imm16(cfg.link(sym))
    case Global(name, _) => M16(Ext(cfg.link(name)))
  }

  lemma CpxOperandRight(cfg: Config, fr: Frame, env: Env, r: Node, s: State)
    requires (r.Num? || r.AddrConst? || r.Global?) && r.Type().IsWide() && ValidFrame(cfg, fr)
    ensures var (y, w) := Eval(cfg, fr, env, r, World(fr, s.mem));
      w == World(fr, s.mem) && Rd16(CpxOperand(cfg, r), s) == y % 65536
  {
    match r
    case Global(name, ty) =>
      assert Apart(fr, cfg.link(name));
      GlobalWord(cfg, fr, name, ty, s);
    case Num(val, ty) => WideFit(val % 65536, ty);
    case _ =>
  }

  lemma CompareXWithWord(cfg: Config, n: Node, k0: Tracker, k1: Tracker, code: seq<Instr>)
    requires n.Compare? && (n.op == REq || n.op == RNe) && n.WellTyped(cfg) && n.l.Type().IsWide()
    requires (n.r.Num? || n.r.AddrConst? || n.r.Global?) && LoadsX(cfg, n.l, k0, k1, code)
    ensures Prepares(cfg, n, SameInX, k0, k1, code + [Cpx(CpxOperand(cfg, n.r))])
  {
    hide Faithful, World, ValidFrame;
    var o := CpxOperand(cfg, n.r);
    forall fr, env, orc, s | Starts(cfg, fr, env, orc, k0, Need(n), s)
      ensures PreparesAt(cfg, fr, env, orc, n, SameInX, k1, code + [Cpx(o)], s)
    {
      assert Starts(cfg, fr, env, orc, k0, 0, s);
      assert LoadsXAt(cfg, fr, env, orc, n.l, k1, code, s);
      RunAppend(orc, code, [Cpx(o)], s);
      var m := Run(orc, code, s).s;
      CpxStep(cfg, fr, orc, k1, o, m);
      ReachesTrans(cfg, fr, k1, k1, s, m, Run(orc, [Cpx(o)], m).s, World(fr, s.mem), World(fr, m.mem));
      CpxOperandRight(cfg, fr, env, n.r, m);
    }
  }

  // Minus the address of a local array.

  function MinusArray(off: nat): seq<Instr> {
    [Alu(Sub, B, M(Ext(BP + 1))), Alu(Sbc, A, M(Ext(BP)))]
    + if off == 0 then [] else [Alu(Sub, B, Imm(Low(off))), Alu(Sbc, A, Imm(High(off)))]
  }

  lemma SubtractedWord(x: Word, y: Word, s: State)
    requires Subtracted(x, y, s)
    ensures D(s) == (x - y) % 65536
  {
    hide SubFlags;
    SubBytes(x, y);
  }

  lemma SubWord(lo: Opnd, hi: Opnd, y: int, s: State)
    requires Rd(lo, s) == y % 256 && Rd(hi, s) == (y / 256) % 256
    ensures var t := Exec([Alu(Sub, B, lo), Alu(Sbc, A, hi)], s);
      D(t) == (D(s) - y) % 65536 && t == s.(a := t.a, b := t.b, f := t.f)
  {
    hide Exec, Step, Subtracted, Rd;
    WordSplit(y);
    var x, w := D(s), y % 65536;
    SubtractExec(lo, hi, x, w, s);
    SubtractedWord(x, w, Exec([Alu(Sub, B, lo), Alu(Sbc, A, hi)], s));
    ModSub(x, y, 65536);
  }

  lemma MinusArrayExec(off: nat, s: State)
    ensures var t := Exec(MinusArray(off), s);
      D(t) == (D(s) - Word16At(s.mem, BP) - off) % 65536 && t == s.(a := t.a, b := t.b, f := t.f)
  {
    hide Exec, Step, Rd, Word16At;
    var c1 := [Alu(Sub, B, M(Ext(BP + 1))), Alu(Sbc, A, M(Ext(BP)))];
    BaseBytes(s);
    SubWord(M(Ext(BP + 1)), M(Ext(BP)), Word16At(s.mem, BP), s);
    if off == 0 {
      assert MinusArray(off) == c1;
    } else {
      var c2 := [Alu(Sub, B, Imm(Low(off))), Alu(Sbc, A, Imm(High(off)))];
      ExecAppend(c1, c2, s);
      assert MinusArray(off) == c1 + c2;
      SubConstant(off, Exec(c1, s));
      ModSub(D(s) - Word16At(s.mem, BP), off, 65536);
    }
  }

  lemma SubConstant(off: nat, s: State)
    ensures var t := Exec([Alu(Sub, B, Imm(Low(off))), Alu(Sbc, A, Imm(High(off)))], s);
      D(t) == (D(s) - off) % 65536 && t == s.(a := t.a, b := t.b, f := t.f)
  {
    hide Exec, Step;
    SubWord(Imm(Low(off)), Imm(High(off)), off, s);
  }

  lemma BaseBytes(s: State)
    ensures var w := Word16At(s.mem, BP);
      Rd(M(Ext(BP + 1)), s) == w % 256 && Rd(M(Ext(BP)), s) == (w / 256) % 256
  {
    var w := Word16At(s.mem, BP);
    DivModUnique(w, s.mem[BP], s.mem[BP + 1], 256);
    DivModUnique(s.mem[BP], 0, s.mem[BP], 256);
  }

  lemma DifferenceIsZero(x: Word, bp: Word, off: nat)
    ensures ((x - bp - off) % 65536 == 0) == (x == (bp + off) % 65536)
  {
    var r := (bp + off) % 65536;
    ModSub(x, bp + off, 65536);
    DivModUnique(x - r, if x < r then -1 else 0, if x < r then x - r + 65536 else x - r, 65536);
  }

  lemma SubtractArray(cfg: Config, n: Node, side: Node, off: nat, k0: Tracker, k1: Tracker, code: seq<Instr>)
    requires n.Compare? && n.WellTyped(cfg) && n.l.Type().IsWide() && (n.op == REq || n.op == RNe) && !cfg.useAlloca
    requires (side == n.l && n.r == LocalArray(off)) || (side == n.r && n.l == LocalArray(off) && !n.r.LocalArray?)
    requires Loads(cfg, side, k0, k1, code)
    ensures Prepares(cfg, n, Difference, k0, k1, code + MinusArray(off))
  {
    var last := MinusArray(off);
    forall fr, env, orc, s | Starts(cfg, fr, env, orc, k0, Need(n), s)
      ensures PreparesAt(cfg, fr, env, orc, n, Difference, k1, code + last, s)
    {
      assert Starts(cfg, fr, env, orc, k0, Need(side), s);
      assert LoadsAt(cfg, fr, env, orc, side, k1, code, s);
      RunAppend(orc, code, last, s);
      var m := Run(orc, code, s).s;
      MinusArrayStep(cfg, fr, orc, off, k1, m);
      ArraySides(cfg, fr, env, n, side, off, World(fr, s.mem));
    }
  }

  /** The other side is an address, which costs nothing to evaluate. */
  lemma ArraySides(cfg: Config, fr: Frame, env: Env, n: Node, side: Node, off: nat, w: Mem)
    requires n.Compare? && n.l.Type().IsWide() && (n.op == REq || n.op == RNe)
    requires (side == n.l && n.r == LocalArray(off)) || (side == n.r && n.l == LocalArray(off) && !n.r.LocalArray?)
    ensures var (x, y, w1) := EvalSides(cfg, fr, env, n, w);
      var (v, w2) := Eval(cfg, fr, env, side, w);
      w1 == w2 && (x % 65536 == y % 65536) == (v % 65536 == (fr.bp + off) % 65536)
  {
    ModTwice(fr.bp + off);
  }

  lemma MinusArrayStep(cfg: Config, fr: Frame, orc: Oracle, off: nat, k: Tracker, s: State)
    requires Tracks(cfg, fr, k, s) && cfg.hasFrame
    ensures var o := Run(orc, MinusArray(off), s);
      o.Fall? && Reaches(cfg, fr, k, s, World(fr, s.mem), o.s) && (D(o.s) == 0) == (D(s) == (fr.bp + off) % 65536)
  {
    hide Exec, Step, Run, World, Kept, MinusArray, IxRight, DepthRight;
    MinusArrayExec(off, s);
    MinusArrayStraight(off);
    QuietStep(cfg, fr, orc, k, MinusArray(off), s);
    DifferenceIsZero(D(s), fr.bp, off);
  }

  lemma MinusArrayStraight(off: nat)
    ensures StraightCode(MinusArray(off))
  {
  }

  // ----- conditions that are not comparisons -----

  /** cmp_zero */
  function ZeroCheck(ty: Ty): seq<Instr> {
    if ty.IsWide() then [Inh(Aba), Alu(Adc, A, Imm(0))] else [Un(Tst, B)]
  }

  lemma ZeroCheckRight(orc: Oracle, ty: Ty, v: int, sense: bool, lab: nat, s: State)
    requires InReg(ty, v, s) && InRange(ty, v)
    ensures Leaves(orc, ZeroCheck(ty) + [Br(if sense then Ne else Eq, lab)], s, (v != 0) != sense, lab)
  {
    var c := if sense then Ne else Eq;
    FitRange(ty, v);
    if ty.IsWide() {
      SumIsZero(s);
      After2(orc, Inh(Aba), Alu(Adc, A, Imm(0)), c, lab, s);
      assert ZeroCheck(ty) + [Br(c, lab)] == [Inh(Aba), Alu(Adc, A, Imm(0)), Br(c, lab)];
    } else {
      After(orc, Un(Tst, B), c, lab, s);
      assert ZeroCheck(ty) + [Br(c, lab)] == [Un(Tst, B), Br(c, lab)];
    }
  }

  lemma ValueCondition(cfg: Config, n: Node, sense: bool, lab: nat, k0: Tracker, k1: Tracker, code: seq<Instr>)
    requires n.WellTyped(cfg) && n.IsOperand() && Loads(cfg, n, k0, k1, code)
    ensures JumpsOn(cfg, n, sense, lab, k0, k1, code + (ZeroCheck(n.Type()) + [Br(if sense then Ne else Eq, lab)]))
  {
    hide Faithful, World, ValidFrame;
    var last := ZeroCheck(n.Type()) + [Br(if sense then Ne else Eq, lab)];
    forall fr, env, orc, s | Starts(cfg, fr, env, orc, k0, Need(n), s)
      ensures JumpsAt(cfg, fr, env, orc, n, sense, lab, k1, code + last, s)
    {
      assert LoadsAt(cfg, fr, env, orc, n, k1, code, s);
      ValueInRange(cfg, fr, env, n, World(fr, s.mem));
      RunAppend(orc, code, last, s);
      ZeroCheckRight(orc, n.Type(), Eval(cfg, fr, env, n, World(fr, s.mem)).0, sense, lab, Run(orc, code, s).s);
    }
  }

  lemma XCondition(cfg: Config, n: Node, sense: bool, lab: nat, k0: Tracker, k1: Tracker, code: seq<Instr>)
    requires n.WellTyped(cfg) && n.IsOperand() && n.Type().IsWide() && LoadsX(cfg, n, k0, k1, code)
    ensures JumpsOn(cfg, n, sense, lab, k0, k1, code + ([Cpx(Imm16(0))] + [Br(if sense then Ne else Eq, lab)]))
  {
    hide Faithful, World, ValidFrame;
    var c := if sense then Ne else Eq;
    forall fr, env, orc, s | Starts(cfg, fr, env, orc, k0, Need(n), s)
      ensures JumpsAt(cfg, fr, env, orc, n, sense, lab, k1, code + ([Cpx(Imm16(0))] + [Br(c, lab)]), s)
    {
      assert Starts(cfg, fr, env, orc, k0, 0, s);
      assert LoadsXAt(cfg, fr, env, orc, n, k1, code, s);
      ValueInRange(cfg, fr, env, n, World(fr, s.mem));
      FitRange(n.Type(), Eval(cfg, fr, env, n, World(fr, s.mem)).0);
      RunAppend(orc, code, [Cpx(Imm16(0))] + [Br(c, lab)], s);
      var m := Run(orc, code, s).s;
      CpxStep(cfg, fr, orc, k1, Imm16(0), m);
      RunAppend(orc, [Cpx(Imm16(0))], [Br(c, lab)], m);
      Plain(orc, c, lab, Run(orc, [Cpx(Imm16(0))], m).s);
    }
  }

  /** andb_i: no instruction for a mask of all ones, CLRB for one of all zeros. */
  function AndbI(n: int): seq<Instr> {
    if Low(n) == 0 then [Un(Clr, B)] else if Low(n) != 255 then [Logic(BitAnd, B, Imm(Low(n)))] else []
  }

  lemma MaskCondition(cfg: Config, n: Node, sense: bool, lab: nat, k0: Tracker, k1: Tracker, code: seq<Instr>)
    requires n.Masked? && n.WellTyped(cfg) && Loads(cfg, n.e, k0, k1, code)
    ensures JumpsOn(cfg, n, sense, lab, k0, k1, code + [Logic(BitAnd, B, Imm(Low(n.mask))), Br(if sense then Ne else Eq, lab)])
    ensures JumpsOn(cfg, n, sense, lab, k0, k1, code + (AndbI(n.mask) + [Un(Tst, B), Br(if sense then Ne else Eq, lab)]))
  {
    hide Faithful, World, Kept, Tracks, Run, Take, Op8, AndbI;
    var c := if sense then Ne else Eq;
    var i := Logic(BitAnd, B, Imm(Low(n.mask)));
    forall fr, env, orc, s | Starts(cfg, fr, env, orc, k0, Need(n), s)
      ensures JumpsAt(cfg, fr, env, orc, n, sense, lab, k1, code + [i, Br(c, lab)], s)
      ensures JumpsAt(cfg, fr, env, orc, n, sense, lab, k1, code + (AndbI(n.mask) + [Un(Tst, B), Br(c, lab)]), s)
    {
      assert LoadsAt(cfg, fr, env, orc, n.e, k1, code, s);
      var m := Run(orc, code, s).s;
      MaskLeaves(orc, n.mask, c, lab, m);
      MaskedIsZero(n.e.Type(), Op8(BitAnd, m.b, Low(n.mask)));
      MaskEnds(cfg, fr, env, orc, n, sense, lab, k1, code, [i, Br(c, lab)], s);
      MaskEnds(cfg, fr, env, orc, n, sense, lab, k1, code, AndbI(n.mask) + [Un(Tst, B), Br(c, lab)], s);
    }
  }

  lemma MaskEnds(cfg: Config, fr: Frame, env: Env, orc: Oracle, n: Node, sense: bool, lab: nat, k: Tracker, code: seq<Instr>, last: seq<Instr>, s: State)
    requires n.Masked? && !n.e.Type().IsWide() && LoadsAt(cfg, fr, env, orc, n.e, k, code, s)
    requires var m := Run(orc, code, s).s;
      Leaves(orc, last, m, (Fit(Op8(BitAnd, m.b, Low(n.mask)), n.e.Type()) == 0) == sense, lab)
    ensures JumpsAt(cfg, fr, env, orc, n, sense, lab, k, code + last, s)
  {
    hide Faithful, World, Kept, Tracks, Run, Take, Op8;
    var (v, w) := Eval(cfg, fr, env, n.e, World(fr, s.mem));
    var m := Run(orc, code, s).s;
    RunAppend(orc, code, last, s);
    RunOn(orc, last, m);
    ReachesSame(cfg, fr, k, s, w, m, Run(orc, last, m).s);
  }

  lemma RunOn(orc: Oracle, last: seq<Instr>, m: State)
    ensures Then(orc, Fall(m), last) == Run(orc, last, m)
  {
  }

  lemma MaskedIsZero(ty: Ty, r: Byte)
    requires !ty.IsWide()
    ensures (Fit(r, ty) == 0) == (r == 0)
  {
  }

  lemma MaskOfNone(x: Byte)
    ensures Op8(BitAnd, x, 0) == 0
  {
    AndZero(x, 8);
  }

  lemma MaskOfAll(x: Byte)
    ensures Op8(BitAnd, x, 255) == x
  {
    Pow2Values();
    WithNeutral(BitAnd, x, 8);
  }

  lemma MaskLeaves(orc: Oracle, mask: int, c: Cond, lab: nat, s: State)
    requires c == Ne || c == Eq
    ensures var r := Op8(BitAnd, s.b, Low(mask));
      && Leaves(orc, [Logic(BitAnd, B, Imm(Low(mask))), Br(c, lab)], s, (r == 0) == (c == Ne), lab)
      && Leaves(orc, AndbI(mask) + [Un(Tst, B), Br(c, lab)], s, (r == 0) == (c == Ne), lab)
  {
    hide Run, Op8;
    After(orc, Logic(BitAnd, B, Imm(Low(mask))), c, lab, s);
    MaskOfNone(s.b);
    MaskOfAll(s.b);
    var tail := [Un(Tst, B), Br(c, lab)];
    var r := Op8(BitAnd, s.b, Low(mask));
    if AndbI(mask) == [] {
      assert AndbI(mask) + tail == tail;
      After(orc, Un(Tst, B), c, lab, s);
    } else {
      var i := AndbI(mask)[0];
      assert AndbI(mask) == [i];
      RunStep(orc, i, tail, s);
      assert Step(i, s).b == r;
      After(orc, Un(Tst, B), c, lab, Step(i, s));
    }
  }

  lemma ConstantCondition(cfg: Config, n: Node, sense: bool, lab: nat, k: Tracker)
    requires n.Num? && n.WellTyped(cfg)
    ensures JumpsOn(cfg, n, sense, lab, k, k, if (n.val != 0) == sense then [Jmp(lab)] else [])
  {
    var code := if (n.val != 0) == sense then [Jmp(lab)] else [];
    FitRange(n.ty, n.val);
    forall fr, env, orc, s | Starts(cfg, fr, env, orc, k, Need(n), s)
      ensures JumpsAt(cfg, fr, env, orc, n, sense, lab, k, code, s)
    {
      Always(orc, lab, s);
    }
  }

  lemma NotCondition(cfg: Config, e: Node, sense: bool, lab: nat, k0: Tracker, k1: Tracker, code: seq<Instr>)
    requires JumpsOn(cfg, e, !sense, lab, k0, k1, code)
    ensures JumpsOn(cfg, Not(e), sense, lab, k0, k1, code)
  {
    forall fr, env, orc, s | Starts(cfg, fr, env, orc, k0, Need(e), s)
      ensures JumpsAt(cfg, fr, env, orc, Not(e), sense, lab, k1, code, s)
    {
      assert JumpsAt(cfg, fr, env, orc, e, !sense, lab, k1, code, s);
    }
  }

  lemma PromotedCondition(cfg: Config, e: Node, sense: bool, lab: nat, k0: Tracker, k1: Tracker, code: seq<Instr>)
    requires JumpsOn(cfg, e, sense, lab, k0, k1, code)
    ensures JumpsOn(cfg, Promote(e), sense, lab, k0, k1, code)
  {
    forall fr, env, orc, s | Starts(cfg, fr, env, orc, k0, Need(e), s)
      ensures JumpsAt(cfg, fr, env, orc, Promote(e), sense, lab, k1, code, s)
    {
      assert JumpsAt(cfg, fr, env, orc, e, sense, lab, k1, code, s);
    }
  }

  /** `l || r` on truth, `l && r` on falsehood: either side may leave to the label. */
  lemma EitherSide(cfg: Config, n: Node, lab: nat, k0: Tracker, k1: Tracker, k2: Tracker, c1: seq<Instr>, c2: seq<Instr>, lo: nat, hi: nat)
    requires n.AndAlso? || n.OrElse?
    requires JumpsOn(cfg, n.l, n.OrElse?, lab, k0, k1, c1) && k1.depth == k0.depth
    requires JumpsOn(cfg, n.r, n.OrElse?, lab, k1, k2, c2) && k2.depth == k0.depth
    requires LabelsIn(c2, lo, hi) && lab < lo
    ensures JumpsOn(cfg, n, n.OrElse?, lab, k0, k2, c1 + c2)
  {
    hide Faithful, World, ValidFrame;
    forall fr, env, orc, s | Starts(cfg, fr, env, orc, k0, Need(n), s)
      ensures JumpsAt(cfg, fr, env, orc, n, n.OrElse?, lab, k2, c1 + c2, s)
    {
      assert JumpsAt(cfg, fr, env, orc, n.l, n.OrElse?, lab, k1, c1, s);
      RunAppend(orc, c1, c2, s);
      LabelAbsent(c2, lo, hi, lab);
      var m := Run(orc, c1, s).s;
      TakePast(orc, lab, c2, [], m);
      if Run(orc, c1, s).Fall? {
        assert JumpsAt(cfg, fr, env, orc, n.r, n.OrElse?, lab, k2, c2, m);
      }
    }
  }

  /** `l || r` on falsehood, `l && r` on truth: the left side alone may settle it, by jumping past the right. */
  lemma PastTheRight(cfg: Config, n: Node, lab: nat, thru: nat, k0: Tracker, k1: Tracker, k2: Tracker, c1: seq<Instr>, c2: seq<Instr>, lo: nat, hi: nat)
    requires n.AndAlso? || n.OrElse?
    requires JumpsOn(cfg, n.l, n.OrElse?, thru, k0, k1, c1) && k1.depth == k0.depth
    requires JumpsOn(cfg, n.r, n.AndAlso?, lab, k1, k2, c2) && k2.depth == k0.depth
    requires LabelsIn(c2, lo, hi) && thru < lo && lab < thru
    ensures JumpsOn(cfg, n, n.AndAlso?, lab, k0, Tracker(k0.depth, IxNone), c1 + (c2 + [Label(thru)]))
  {
    hide Faithful, World, ValidFrame;
    var k := Tracker(k0.depth, IxNone);
    var end := [Label(thru)];
    forall fr, env, orc, s | Starts(cfg, fr, env, orc, k0, Need(n), s)
      ensures JumpsAt(cfg, fr, env, orc, n, n.AndAlso?, lab, k, c1 + (c2 + end), s)
    {
      assert JumpsAt(cfg, fr, env, orc, n.l, n.OrElse?, thru, k1, c1, s);
      RunAppend(orc, c1, c2 + end, s);
      var m := Run(orc, c1, s).s;
      LabelAbsent(c2, lo, hi, thru);
      if Run(orc, c1, s).Goto? {
        TakePast(orc, thru, c2, end, m);
        AtEnd(orc, lab, thru, m);
      } else {
        assert JumpsAt(cfg, fr, env, orc, n.r, n.AndAlso?, lab, k2, c2, m);
        RunAppend(orc, c2, end, m);
        AtEnd(orc, lab, thru, Run(orc, c2, m).s);
      }
    }
  }
}
