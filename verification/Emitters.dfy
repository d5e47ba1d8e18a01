/**
 The tracked emitters of codegen.c and ix_tracking.c.  While printing instructions the compiler
 keeps two guesses about the machine: how many bytes it has pushed since the prologue, and what
 the index register holds.  A guess that X already holds a value elides the load of it.
 */
module Emitters {
  import opened Arith
  import opened Machine

  /** What the compiler believes X to hold (IX_Dest and the field that goes with it). */
  datatype Ix = IxNone | IxBP | IxPtr(off: Byte) | IxExt(name: string) | IxImm(str: string)

  /** Both guesses together; `depth` is @bp - (SP+1). */
  datatype Tracker = Tracker(depth: int, ix: Ix)

  /** What is fixed while one function is compiled. */
  datatype Config = Config(
    link: string -> Word,   // the linker: the value of each symbol expression
    useBp: bool,            // the function keeps its frame address in the cell @bp
    hasFrame: bool,         // it has parameters or locals
    useAlloca: bool,
    o2: bool)               // opt('O','2')

  /** A frame address: every local of the frame can be reached from it with an 8-bit offset. */
  type Base = x: int | 0 <= x <= 65536 - 257

  /** Where the frame lies at run time, and how much stack below it is free for temporaries. */
  datatype Frame = Frame(bp: Base, room: nat)

  predicate Apart(fr: Frame, g: Word) {
    LONG + 4 <= g && g + 1 < 65536 && (g + 1 < fr.bp - fr.room || fr.bp + 257 <= g)
  }

  /** Zero page, scratch stack and locals are apart, and every symbol lies outside all three. */
  ghost predicate ValidFrame(cfg: Config, fr: Frame) {
    && LONG + 4 + fr.room <= fr.bp
    && (cfg.hasFrame ==> cfg.useBp)
    && (cfg.useAlloca ==> cfg.useBp)
    && forall v :: Apart(fr, cfg.link(v))
  }

  /** What X should hold for the guess `ix` to be right. */
  ghost predicate IxRight(cfg: Config, fr: Frame, ix: Ix, s: State)
  {
    match ix
    case IxNone => true
    case IxBP => s.x == fr.bp
    case IxPtr(off) => s.x == Word16At(s.mem, fr.bp + off)
    case IxExt(v) => s.x == Word16At(s.mem, cfg.link(v))
    case IxImm(str) => s.x == cfg.link(str)
  }

  ghost predicate DepthRight(cfg: Config, fr: Frame, depth: int, s: State) {
    !cfg.useAlloca ==> 0 <= depth <= fr.room && s.sp == fr.bp - 1 - depth
  }

  /** The compiler's guesses are right about a machine state. */
  ghost predicate Tracks(cfg: Config, fr: Frame, k: Tracker, s: State) {
    && ValidFrame(cfg, fr)
    && (cfg.useBp ==> Word16At(s.mem, BP) == fr.bp)
    && DepthRight(cfg, fr, k.depth, s)
    && IxRight(cfg, fr, k.ix, s)
  }

  // ----- what each emitter is for, without any tracking -----

  datatype Op =
    | OpPush1 | OpPush | OpPop1 | OpPopA | OpPop | OpPopX
    | OpIns(n: nat) | OpRemoveArgs(n: nat)
    | OpLdxBp | OpLdxNX(off: Byte) | OpLdxBpNX(off: Byte)
    | OpLdxExt(v: string) | OpCpxExt(v: string) | OpStxExt(v: string) | OpLdxImm(str: string)
    | OpInxDex(k: int) | OpTfrDx
    | OpStoreExt(v: string)      // stab/staa of a global, then invalidate_EXT
    | OpStoreX(off: Byte)        // stab off,x: an indexed store, which invalidates nothing

  /** Memory is untouched but for the zero-page temporaries. */
  predicate SameMem(m1: Mem, m2: Mem) {
    forall a :: 0 <= a < 65536 && !(TMP1 <= a < LONG) ==> m1[a] == m2[a]
  }

  /** A, B and memory (or all of it but the temporaries) are kept; X and the flags may change. */
  predicate KeepsAB(s: State, t: State, sp: int) {
    t.a == s.a && t.b == s.b && t.sp == sp && t.mem == s.mem
  }

  predicate KeepsABButTemps(s: State, t: State, sp: int) {
    t.a == s.a && t.b == s.b && t.sp == sp && SameMem(s.mem, t.mem)
  }

  /**
   The effect each emitter promises its caller.  Nothing here depends on the tracker: this is
   what code that reloads X every time would do.  After `remove_args` X is not specified.
   */
  predicate Does(cfg: Config, fr: Frame, op: Op, s: State, t: State)
  {
    match op
    case OpPush1 => KeepsX(s, t) && t.a == s.a && t.b == s.b && t.sp == Wrap(s.sp - 1) && t.mem == s.mem[s.sp := s.b]
    case OpPush => KeepsX(s, t) && t.a == s.a && t.b == s.b && t.sp == Wrap(s.sp - 2) &&
                   t.mem == s.mem[s.sp := s.b][Wrap(s.sp - 1) := s.a]
    case OpPop1 => KeepsX(s, t) && t.a == s.a && t.b == s.mem[Wrap(s.sp + 1)] && t.sp == Wrap(s.sp + 1) && t.mem == s.mem
    case OpPopA => KeepsX(s, t) && t.a == s.mem[Wrap(s.sp + 1)] && t.b == s.b && t.sp == Wrap(s.sp + 1) && t.mem == s.mem
    case OpPop => KeepsX(s, t) && D(t) == Cat(s.mem[Wrap(s.sp + 1)], s.mem[Wrap(s.sp + 2)]) && t.sp == Wrap(s.sp + 2) && t.mem == s.mem
    case OpPopX => t.x == Cat(s.mem[Wrap(s.sp + 1)], s.mem[Wrap(s.sp + 2)]) && KeepsAB(s, t, Wrap(s.sp + 2))
    case OpIns(n) => KeepsX(s, t) && KeepsAB(s, t, (s.sp + n) % 65536)
    case OpRemoveArgs(n) => KeepsABButTemps(s, t, (s.sp + n) % 65536)
    case OpLdxBp => t.x == fr.bp && KeepsAB(s, t, s.sp)
    case OpLdxNX(off) => t.x == Word16At(s.mem, Wrap(s.x + off)) && KeepsAB(s, t, s.sp)
    case OpLdxBpNX(off) => t.x == Word16At(s.mem, fr.bp + off) && KeepsAB(s, t, s.sp)
    case OpLdxExt(v) => t.x == Word16At(s.mem, cfg.link(v)) && KeepsAB(s, t, s.sp)
    case OpCpxExt(v) => t.f.z == (s.x == Word16At(s.mem, cfg.link(v))) && KeepsX(s, t) && KeepsAB(s, t, s.sp)
    case OpStxExt(v) => KeepsX(s, t) && t.a == s.a && t.b == s.b && t.sp == s.sp && t.mem == Put16(s.mem, cfg.link(v), s.x)
    case OpLdxImm(str) => t.x == cfg.link(str) && KeepsAB(s, t, s.sp)
    case OpInxDex(k) => t.x == (s.x + k) % 65536 && KeepsAB(s, t, s.sp)
    case OpTfrDx => t.x == D(s) && KeepsABButTemps(s, t, s.sp)
    case OpStoreExt(v) => KeepsX(s, t) && t.a == s.a && t.b == s.b && t.sp == s.sp &&
                          t.mem == Put16(s.mem, cfg.link(v), D(s))
    case OpStoreX(off) => KeepsX(s, t) && t.a == s.a && t.b == s.b && t.sp == s.sp &&
                          t.mem == s.mem[Wrap(s.x + off) := s.b]
  }

  predicate KeepsX(s: State, t: State) { t.x == s.x }

  /** The byte at `a` is one of those the guess `ix` says X was loaded from. */
  predicate InSlot(cfg: Config, fr: Frame, ix: Ix, a: int) {
    match ix
    case IxPtr(off) => fr.bp + off <= a <= fr.bp + off + 1
    case IxExt(v) => cfg.link(v) <= a <= cfg.link(v) + 1
    case _ => false
  }

  /**
   What the tracking takes for granted at run time: an indexed store hits neither the slot X was
   loaded from nor the cell @bp, two different globals do not overlap, and a stack grown by
   alloca still ends in the free stack area.
   */
  predicate Assumed(cfg: Config, fr: Frame, k: Tracker, op: Op, s: State) {
    match op
    case OpStoreX(off) => !InSlot(cfg, fr, k.ix, Wrap(s.x + off)) && Wrap(s.x + off) >= LONG + 4
    case OpStoreExt(v) => k.ix.IxExt? && k.ix.name != v ==>
        !InSlot(cfg, fr, k.ix, cfg.link(v)) && !InSlot(cfg, fr, k.ix, cfg.link(v) + 1)
    case OpPush1 => cfg.useAlloca ==> fr.bp - fr.room <= s.sp < fr.bp
    case OpPush => cfg.useAlloca ==> fr.bp - fr.room < s.sp < fr.bp
    case _ => true
  }

  /** The code `seg`, emitted for `op` while the guesses went from `k0` to `k1`, is right. */
  ghost predicate Emits(cfg: Config, op: Op, k0: Tracker, k1: Tracker, seg: seq<Instr>) {
    StraightCode(seg) &&
    forall fr, s :: Tracks(cfg, fr, k0, s) && (!cfg.useAlloca ==> k1.depth <= fr.room) && Assumed(cfg, fr, k0, op, s) ==>
      var t := Exec(seg, s);
      Tracks(cfg, fr, k1, t) && Does(cfg, fr, op, s, t)
  }

  // ----- the code of each emitter -----

  /** The load that the guess says is already done. */
  function Elided(ix: Ix): Op
    requires ix != IxNone
  {
    match ix
    case IxBP => OpLdxBp
    case IxPtr(off) => OpLdxBpNX(off)
    case IxExt(v) => OpLdxExt(v)
    case IxImm(str) => OpLdxImm(str)
  }

  /** A load whose result X already holds needs no code. */
  lemma ElidedLoad(cfg: Config, k: Tracker)
    requires k.ix != IxNone
    ensures Emits(cfg, Elided(k.ix), k, k, [])
  {
  }

  lemma NothingToDrop(cfg: Config, k: Tracker)
    ensures Emits(cfg, OpRemoveArgs(0), k, k, [])
  {
  }

  lemma LdxBpFromStack(cfg: Config, k: Tracker)
    requires k.depth == 0 && !cfg.useAlloca
    ensures Emits(cfg, OpLdxBp, k, k.(ix := IxBP), [Inh(Tsx)])
  {
  }

  lemma LdxBpFromCell(cfg: Config, k: Tracker)
    requires cfg.useBp
    ensures Emits(cfg, OpLdxBp, k, k.(ix := IxBP), [Ldx(M16(Ext(BP)))])
  {
  }

  lemma {:induction false} StepX(up: bool, n: nat, s: State)
    ensures var t := Exec(Rep(n, Inh(if up then Inx else Dex)), s);
      t == s.(x := t.x, f := t.f) && t.x == (if up then s.x + n else s.x - n) % 65536
  {
    if n > 0 {
      var i := Inh(if up then Inx else Dex);
      assert Rep(n, i)[1..] == Rep(n - 1, i);
      StepX(up, n - 1, Step(i, s));
      WrapShift(if up then s.x + 1 else s.x - 1, if up then n - 1 else 1 - n);
    } else {
      SmallMod(s.x);
    }
  }

  lemma LdxBpFromDepth(cfg: Config, k: Tracker)
    requires k.depth >= 0 && !cfg.useAlloca
    ensures Emits(cfg, OpLdxBp, k, k.(ix := IxBP), [Inh(Tsx)] + Rep(k.depth, Inh(Inx)))
  {
    hide Exec;
    var code := [Inh(Tsx)] + Rep(k.depth, Inh(Inx));
    forall fr, s | Tracks(cfg, fr, k, s)
      ensures var t := Exec(code, s); Tracks(cfg, fr, k.(ix := IxBP), t) && Does(cfg, fr, OpLdxBp, s, t)
    {
      ExecAppend([Inh(Tsx)], Rep(k.depth, Inh(Inx)), s);
      Exec1(Inh(Tsx), s);
      StepX(true, k.depth, Step(Inh(Tsx), s));
    }
  }

  lemma LoadIndexed(cfg: Config, k: Tracker, off: Byte)
    ensures Emits(cfg, OpLdxNX(off), k, k.(ix := if k.ix == IxBP then IxPtr(off) else IxNone), [Ldx(M16(Idx(off)))])
  {
  }

  /** Load X with the frame address, then through it. */
  lemma LoadLocal(cfg: Config, k0: Tracker, k1: Tracker, off: Byte, seg: seq<Instr>)
    requires k1.ix == IxBP && k1.depth == k0.depth && Emits(cfg, OpLdxBp, k0, k1, seg)
    ensures Emits(cfg, OpLdxBpNX(off), k0, k1.(ix := IxPtr(off)), seg + [Ldx(M16(Idx(off)))])
  {
    hide Exec;
    var last := [Ldx(M16(Idx(off)))];
    forall fr, s | Tracks(cfg, fr, k0, s)
      ensures var t := Exec(seg + last, s);
        Tracks(cfg, fr, k1.(ix := IxPtr(off)), t) && Does(cfg, fr, OpLdxBpNX(off), s, t)
    {
      ExecAppend(seg, last, s);
      var m := Exec(seg, s);
      Exec1(last[0], m);
      assert Assumed(cfg, fr, k0, OpLdxBp, s);
      assert Tracks(cfg, fr, k1, m) && Does(cfg, fr, OpLdxBp, s, m);
      assert m.mem[fr.bp + off] == s.mem[fr.bp + off] && m.mem[fr.bp + off + 1] == s.mem[fr.bp + off + 1];
    }
  }

  lemma LoadGlobal(cfg: Config, k: Tracker, v: string)
    ensures Emits(cfg, OpLdxExt(v), k, k.(ix := IxExt(v)), [Ldx(M16(Ext(cfg.link(v))))])
  {
  }

  lemma LoadImmediate(cfg: Config, k: Tracker, v: string)
    ensures Emits(cfg, OpLdxImm(v), k, k.(ix := IxImm(v)), [Ldx(Imm16(cfg.link(v)))])
  {
  }

  lemma CompareGlobal(cfg: Config, k: Tracker, v: string)
    ensures Emits(cfg, OpCpxExt(v), k, k, [Cpx(M16(Ext(cfg.link(v))))])
  {
  }

  lemma GlobalStore(cfg: Config, k: Tracker, v: string)
    ensures Emits(cfg, OpStxExt(v), k, k.(ix := IxExt(v)), [Stx(Ext(cfg.link(v)))])
  {
  }

  lemma StoreInvalidates(cfg: Config, k: Tracker, v: string, k1: Tracker, seg: seq<Instr>)
    requires k1 == k.(ix := if k.ix == IxExt(v) then IxNone else k.ix)
    requires seg == [St(B, Ext(Wrap(cfg.link(v) + 1))), St(A, Ext(cfg.link(v)))]
    ensures Emits(cfg, OpStoreExt(v), k, k1, seg)
  {
    var b, a := St(B, Ext(Wrap(cfg.link(v) + 1))), St(A, Ext(cfg.link(v)));
    forall fr, s | Tracks(cfg, fr, k, s) && Assumed(cfg, fr, k, OpStoreExt(v), s)
      ensures var t := Exec([b, a], s); Tracks(cfg, fr, k1, t) && Does(cfg, fr, OpStoreExt(v), s, t)
    {
      Exec2(b, a, s);
      assert Apart(fr, cfg.link(v));
    }
  }

  lemma IndexedStore(cfg: Config, k: Tracker, off: Byte)
    ensures Emits(cfg, OpStoreX(off), k, k, [St(B, Idx(off))])
  {
  }

  lemma PushByteCode(cfg: Config, k: Tracker)
    ensures Emits(cfg, OpPush1, k, k.(depth := k.depth + 1), [Psh(B)])
  {
    hide Exec;
    forall fr, s | Tracks(cfg, fr, k, s) && (!cfg.useAlloca ==> k.depth + 1 <= fr.room) && Assumed(cfg, fr, k, OpPush1, s)
      ensures var t := Exec([Psh(B)], s); Tracks(cfg, fr, k.(depth := k.depth + 1), t) && Does(cfg, fr, OpPush1, s, t)
    {
      Exec1(Psh(B), s);
      OutOfTheWay(cfg, fr, k.ix, s, s.sp, s.b);
    }
  }

  /** Writing into the free stack area disturbs neither @bp nor the slot X came from. */
  lemma OutOfTheWay(cfg: Config, fr: Frame, ix: Ix, s: State, a: Word, v: Byte)
    requires ValidFrame(cfg, fr) && fr.bp - fr.room <= a < fr.bp && IxRight(cfg, fr, ix, s)
    ensures Word16At(s.mem[a := v], BP) == Word16At(s.mem, BP) && IxRight(cfg, fr, ix, s.(mem := s.mem[a := v]))
  {
    match ix
    case IxExt(g) => assert Apart(fr, cfg.link(g));
    case _ =>
  }

  lemma PopByteCode(cfg: Config, k: Tracker, r: Reg)
    requires k.depth >= 1
    ensures Emits(cfg, if r == B then OpPop1 else OpPopA, k, k.(depth := k.depth - 1), [Pul(r)])
  {
    hide Word16At, ValidFrame, Step, Exec;
    var op := if r == B then OpPop1 else OpPopA;
    forall fr, s | Tracks(cfg, fr, k, s)
      ensures var t := Exec([Pul(r)], s); Tracks(cfg, fr, k.(depth := k.depth - 1), t) && Does(cfg, fr, op, s, t)
    {
      Exec1(Pul(r), s);
      StepPull(r, s);
    }
  }

  lemma PushCode(cfg: Config, k: Tracker)
    ensures Emits(cfg, OpPush, k, k.(depth := k.depth + 2), [Psh(B), Psh(A)])
  {
    hide Exec, Word16At;
    forall fr, s | Tracks(cfg, fr, k, s) && (!cfg.useAlloca ==> k.depth + 2 <= fr.room) && Assumed(cfg, fr, k, OpPush, s)
      ensures var t := Exec([Psh(B), Psh(A)], s); Tracks(cfg, fr, k.(depth := k.depth + 2), t) && Does(cfg, fr, OpPush, s, t)
    {
      Exec2(Psh(B), Psh(A), s);
      OutOfTheWay(cfg, fr, k.ix, s, s.sp, s.b);
      OutOfTheWay(cfg, fr, k.ix, s.(mem := s.mem[s.sp := s.b]), s.sp - 1, s.a);
    }
  }

  lemma PopCode(cfg: Config, k: Tracker)
    requires k.depth >= 2
    ensures Emits(cfg, OpPop, k, k.(depth := k.depth - 2), [Pul(A), Pul(B)])
  {
    hide Exec, Step, Word16At, ValidFrame;
    forall fr, s | Tracks(cfg, fr, k, s)
      ensures var t := Exec([Pul(A), Pul(B)], s); Tracks(cfg, fr, k.(depth := k.depth - 2), t) && Does(cfg, fr, OpPop, s, t)
    {
      Exec2(Pul(A), Pul(B), s);
      StepPull(A, s);
      StepPull(B, Step(Pul(A), s));
    }
  }

  lemma PopXCode(cfg: Config, k: Tracker)
    requires k.depth >= 2
    ensures Emits(cfg, OpPopX, k, Tracker(k.depth - 2, IxNone), [Inh(Tsx), Ldx(M16(Idx(0))), Inh(Ins), Inh(Ins)])
  {
    hide Exec, Step, Word16At, ValidFrame;
    var code := [Inh(Tsx), Ldx(M16(Idx(0))), Inh(Ins), Inh(Ins)];
    forall fr, s | Tracks(cfg, fr, k, s)
      ensures var t := Exec(code, s); Tracks(cfg, fr, Tracker(k.depth - 2, IxNone), t) && Does(cfg, fr, OpPopX, s, t)
    {
      PopXExec(s);
    }
  }

  lemma PopXExec(s: State)
    ensures var t := Exec([Inh(Tsx), Ldx(M16(Idx(0))), Inh(Ins), Inh(Ins)], s);
      t == s.(x := Cat(s.mem[Wrap(s.sp + 1)], s.mem[Wrap(s.sp + 2)]), sp := Wrap(s.sp + 2), f := t.f)
  {
    hide Exec, Step, MoveFlags16, Rd16, Cat;
    var s1 := Step(Inh(Tsx), s);
    var s2 := Step(Ldx(M16(Idx(0))), s1);
    StepTsx(s);
    StepLdx(M16(Idx(0)), s1);
    TopWord(s);
    StepIns(s2);
    StepIns(Step(Inh(Ins), s2));
    Exec4(Inh(Tsx), Ldx(M16(Idx(0))), Inh(Ins), Inh(Ins), s);
  }

  lemma TopWord(s: State)
    ensures Rd16(M16(Idx(0)), s.(x := Wrap(s.sp + 1))) == Cat(s.mem[Wrap(s.sp + 1)], s.mem[Wrap(s.sp + 2)])
  {
  }

  lemma InsCode(cfg: Config, k: Tracker, n: nat)
    requires n <= k.depth
    ensures Emits(cfg, OpIns(n), k, k.(depth := k.depth - n), Rep(n, Inh(Ins)))
    ensures Emits(cfg, OpRemoveArgs(n), k, k.(depth := k.depth - n), Rep(n, Inh(Ins)))
  {
    hide Exec, Step, Word16At;
    var k1 := k.(depth := k.depth - n);
    forall fr, s | Tracks(cfg, fr, k, s)
      ensures var t := Exec(Rep(n, Inh(Ins)), s);
        Tracks(cfg, fr, k1, t) && Does(cfg, fr, OpIns(n), s, t) && Does(cfg, fr, OpRemoveArgs(n), s, t)
    {
      InsMany(n, s);
    }
  }

  lemma InxDexCode(cfg: Config, k: Tracker, n: int, k1: Tracker, seg: seq<Instr>)
    requires k1 == if n == 0 then k else k.(ix := IxNone)
    requires seg == if n >= 0 then Rep(n, Inh(Inx)) else Rep(-n, Inh(Dex))
    ensures Emits(cfg, OpInxDex(n), k, k1, seg)
  {
    hide Exec, Step, Word16At;
    forall fr, s | Tracks(cfg, fr, k, s)
      ensures var t := Exec(seg, s); Tracks(cfg, fr, k1, t) && Does(cfg, fr, OpInxDex(n), s, t)
    {
      StepX(n >= 0, if n >= 0 then n else -n, s);
    }
  }

  lemma TransferCode(cfg: Config, k: Tracker)
    ensures Emits(cfg, OpTfrDx, k, k.(ix := IxNone), [St(B, Ext(TMP1 + 1)), St(A, Ext(TMP1)), Ldx(M16(Ext(TMP1)))])
  {
    var i1, i2, i3 := St(B, Ext(TMP1 + 1)), St(A, Ext(TMP1)), Ldx(M16(Ext(TMP1)));
    forall fr, s | Tracks(cfg, fr, k, s)
      ensures var t := Exec([i1, i2, i3], s); Tracks(cfg, fr, k.(ix := IxNone), t) && Does(cfg, fr, OpTfrDx, s, t)
    {
      Exec3(i1, i2, i3, s);
    }
  }

  lemma StepDownThenTxs(left: nat, m: State)
    requires left < m.x
    ensures var t := Exec(Rep(left, Inh(Dex)) + [Inh(Txs)], m);
      t == m.(x := m.x - left, sp := m.x - left - 1, f := t.f)
  {
    hide Step, Exec;
    ExecAppend(Rep(left, Inh(Dex)), [Inh(Txs)], m);
    StepDown(left, m);
    var u := Exec(Rep(left, Inh(Dex)), m);
    Exec1(Inh(Txs), u);
    StepTxs(u);
  }

  lemma StepDown(left: nat, m: State)
    requires left <= m.x
    ensures var t := Exec(Rep(left, Inh(Dex)), m); t == m.(x := m.x - left, f := t.f)
  {
    StepX(false, left, m);
    SmallMod(m.x - left);
  }

  /** Drop arguments by way of the frame address: X := @bp - left, SP := X - 1. */
  lemma DropByFrame(cfg: Config, k0: Tracker, k1: Tracker, n: nat, seg: seq<Instr>)
    requires n <= k0.depth && !cfg.useAlloca
    requires k1 == Tracker(k0.depth, IxBP) && Emits(cfg, OpLdxBp, k0, k1, seg)
    ensures Emits(cfg, OpRemoveArgs(n), k0, Tracker(k0.depth - n, if n == k0.depth then IxBP else IxNone),
                  seg + (Rep(k0.depth - n, Inh(Dex)) + [Inh(Txs)]))
  {
    hide Exec, Step, Word16At;
    var left := k0.depth - n;
    var tail := Rep(left, Inh(Dex)) + [Inh(Txs)];
    forall fr, s | Tracks(cfg, fr, k0, s)
      ensures var t := Exec(seg + tail, s);
        Tracks(cfg, fr, Tracker(left, if n == k0.depth then IxBP else IxNone), t) && Does(cfg, fr, OpRemoveArgs(n), s, t)
    {
      ExecAppend(seg, tail, s);
      var m := Exec(seg, s);
      assert Assumed(cfg, fr, k0, OpLdxBp, s);
      assert Tracks(cfg, fr, k1, m) && Does(cfg, fr, OpLdxBp, s, m);
      StepDownThenTxs(left, m);
    }
  }

  /** The long way: SP through @tmp1, with A kept in @tmp2. */
  function DropBySum(n: nat): seq<Instr> {
    [St(A, Ext(TMP2)), Sts(Ext(TMP1)), Alu(Ld, A, M(Ext(TMP1 + 1))), Alu(Add, A, Imm(Low(n))),
     St(A, Ext(TMP1 + 1))]
    + [Alu(Ld, A, M(Ext(TMP1))), Alu(Adc, A, Imm(High(n))), St(A, Ext(TMP1)), Lds(M16(Ext(TMP1))),
     Alu(Ld, A, M(Ext(TMP2)))]
  }

  lemma {:induction false} DropBySumLow(n: nat, s: State)
    ensures var t := Exec(DropBySum(n)[..5], s);
      var low := s.sp % 256 + n % 256;
      t == s.(a := Wrap8(low), f := t.f, mem := Put16(s.mem[TMP2 := s.a], TMP1, s.sp)[TMP1 + 1 := Wrap8(low)]) &&
      t.f.c == (low >= 256)
  {
    assert DropBySum(n)[..5] ==
      [St(A, Ext(TMP2)), Sts(Ext(TMP1)), Alu(Ld, A, M(Ext(TMP1 + 1))), Alu(Add, A, Imm(Low(n))), St(A, Ext(TMP1 + 1))];
    Exec5(St(A, Ext(TMP2)), Sts(Ext(TMP1)), Alu(Ld, A, M(Ext(TMP1 + 1))), Alu(Add, A, Imm(Low(n))), St(A, Ext(TMP1 + 1)), s);
  }

  lemma {:induction false} DropBySumHigh(n: nat, s: State)
    ensures var t := Exec(DropBySum(n)[5..], s);
      var high := Wrap8(s.mem[TMP1] + (n / 256) % 256 + Carry(s.f.c));
      t == s.(a := s.mem[TMP2], sp := Cat(high, s.mem[TMP1 + 1]), f := t.f, mem := s.mem[TMP1 := high])
  {
    assert DropBySum(n)[5..] ==
      [Alu(Ld, A, M(Ext(TMP1))), Alu(Adc, A, Imm(High(n))), St(A, Ext(TMP1)), Lds(M16(Ext(TMP1))), Alu(Ld, A, M(Ext(TMP2)))];
    Exec5(Alu(Ld, A, M(Ext(TMP1))), Alu(Adc, A, Imm(High(n))), St(A, Ext(TMP1)), Lds(M16(Ext(TMP1))), Alu(Ld, A, M(Ext(TMP2))), s);
  }

  lemma DropBySumCode(cfg: Config, k: Tracker, n: nat)
    requires n <= k.depth
    ensures Emits(cfg, OpRemoveArgs(n), k, k.(depth := k.depth - n), DropBySum(n))
  {
    hide Exec, Step;
    forall fr, s | Tracks(cfg, fr, k, s)
      ensures var t := Exec(DropBySum(n), s);
        Tracks(cfg, fr, k.(depth := k.depth - n), t) && Does(cfg, fr, OpRemoveArgs(n), s, t)
    {
      DropBySumAll(n, s);
    }
  }

  lemma DropBySumAll(n: nat, s: State)
    ensures var t := Exec(DropBySum(n), s); KeepsX(s, t) && KeepsABButTemps(s, t, (s.sp + n) % 65536)
  {
    assert DropBySum(n) == DropBySum(n)[..5] + DropBySum(n)[5..];
    ExecAppend(DropBySum(n)[..5], DropBySum(n)[5..], s);
    DropBySumLow(n, s);
    DropBySumHigh(n, Exec(DropBySum(n)[..5], s));
    HalfWord(s.sp);
    AddBytes(s.sp, n);
  }

  // ----- the emitters -----

  class Emitter {
    const cfg: Config
    var code: seq<Instr>
    var depth: int
    var ix: Ix
    var labels: nat

    function Now(): Tracker reads this { Tracker(depth, ix) }

    /** The code printed since it was `before`. */
    ghost function Since(before: seq<Instr>): seq<Instr>
      requires before <= code
      reads this
    {
      code[|before|..]
    }

    constructor (cfg: Config)
      ensures this.cfg == cfg && code == [] && Now() == Tracker(0, IxNone) && labels == 0
    {
      this.cfg := cfg;
      code, depth, ix, labels := [], 0, IxNone, 0;
    }

    method Println(i: Instr)
      modifies this`code
      ensures code == old(code) + [i]
    {
      code := code + [i];
    }

    method NewLabel() returns (l: nat)
      modifies this`labels
      ensures l == old(labels) && labels == old(labels) + 1
    {
      l := labels;
      labels := labels + 1;
    }

    method IxInvalidate()
      modifies this`ix
      ensures ix == IxNone
    {
      ix := IxNone;
    }

    method Push1()
      modifies this`code, this`depth
      ensures old(code) <= code && Emits(cfg, OpPush1, old(Now()), Now(), Since(old(code)))
      ensures code == old(code) + [Psh(B)] && depth == old(depth) + 1
    {
      Println(Psh(B));
      depth := depth + 1;
      PushByteCode(cfg, old(Now()));
    }

    method Push()
      modifies this`code, this`depth
      ensures old(code) <= code && Emits(cfg, OpPush, old(Now()), Now(), Since(old(code)))
      ensures code == old(code) + [Psh(B), Psh(A)] && depth == old(depth) + 2
    {
      Println(Psh(B));
      Println(Psh(A));
      depth := depth + 2;
      PushCode(cfg, old(Now()));
    }

    method Pop1()
      requires depth >= 1
      modifies this`code, this`depth
      ensures old(code) <= code && Emits(cfg, OpPop1, old(Now()), Now(), Since(old(code)))
      ensures code == old(code) + [Pul(B)] && depth == old(depth) - 1
    {
      Println(Pul(B));
      depth := depth - 1;
      PopByteCode(cfg, old(Now()), B);
    }

    method PopA()
      requires depth >= 1
      modifies this`code, this`depth
      ensures old(code) <= code && Emits(cfg, OpPopA, old(Now()), Now(), Since(old(code)))
      ensures code == old(code) + [Pul(A)] && depth == old(depth) - 1
    {
      Println(Pul(A));
      depth := depth - 1;
      PopByteCode(cfg, old(Now()), A);
    }

    method Pop()
      requires depth >= 2
      modifies this`code, this`depth
      ensures old(code) <= code && Emits(cfg, OpPop, old(Now()), Now(), Since(old(code)))
      ensures depth == old(depth) - 2
    {
      Println(Pul(A));
      Println(Pul(B));
      depth := depth - 2;
      PopCode(cfg, old(Now()));
    }

    method PopX()
      requires depth >= 2
      modifies this`code, this`depth, this`ix
      ensures old(code) <= code && Emits(cfg, OpPopX, old(Now()), Now(), Since(old(code)))
      ensures depth == old(depth) - 2
    {
      Println(Inh(Tsx));
      Println(Ldx(M16(Idx(0))));
      Println(Inh(Ins));
      Println(Inh(Ins));
      IxInvalidate();
      depth := depth - 2;
      assert Since(old(code)) == [Inh(Tsx), Ldx(M16(Idx(0))), Inh(Ins), Inh(Ins)];
      PopXCode(cfg, old(Now()));
    }

    method PrintMany(n: nat, i: Instr)
      modifies this`code
      ensures code == old(code) + Rep(n, i)
    {
      for j := 0 to n
        invariant code == old(code) + Rep(j, i)
      {
        Println(i);
        RepSnoc(j, i);
      }
    }

    method InsN(n: nat)
      requires n <= depth
      modifies this`code, this`depth
      ensures old(code) <= code && Emits(cfg, OpIns(n), old(Now()), Now(), Since(old(code)))
      ensures code == old(code) + Rep(n, Inh(Ins)) && depth == old(depth) - n
    {
      PrintMany(n, Inh(Ins));
      depth := depth - n;
      InsCode(cfg, old(Now()), n);
    }

    method InxDex(n: int)
      modifies this`code, this`ix
      ensures old(code) <= code && Emits(cfg, OpInxDex(n), old(Now()), Now(), Since(old(code)))
    {
      if n >= 0 {
        PrintMany(n, Inh(Inx));
      } else {
        PrintMany(-n, Inh(Dex));
      }
      if n != 0 {
        IxInvalidate();
      }
      InxDexCode(cfg, old(Now()), n, Now(), Since(old(code)));
    }

    method LdxBp()
      requires (depth == 0 && !cfg.useAlloca) || cfg.useBp || (depth >= 0 && !cfg.useAlloca)
      modifies this`code, this`ix
      ensures old(code) <= code && Emits(cfg, OpLdxBp, old(Now()), Now(), Since(old(code)))
      ensures ix == IxBP
    {
      if ix == IxBP {
        ElidedLoad(cfg, old(Now()));
      } else if depth == 0 && !cfg.useAlloca {
        Println(Inh(Tsx));
        LdxBpFromStack(cfg, old(Now()));
      } else if !cfg.useBp {
        Println(Inh(Tsx));
        PrintMany(depth, Inh(Inx));
        LdxBpFromDepth(cfg, old(Now()));
        assert code == old(code) + ([Inh(Tsx)] + Rep(depth, Inh(Inx)));
        assert Since(old(code)) == [Inh(Tsx)] + Rep(depth, Inh(Inx));
      } else {
        Println(Ldx(M16(Ext(BP))));
        LdxBpFromCell(cfg, old(Now()));
      }
      ix := IxBP;
    }

    method LdxNX(off: Byte)
      modifies this`code, this`ix
      ensures code == old(code) + [Ldx(M16(Idx(off)))]
      ensures Emits(cfg, OpLdxNX(off), old(Now()), Now(), Since(old(code)))
      ensures ix == if old(ix) == IxBP then IxPtr(off) else IxNone
    {
      Println(Ldx(M16(Idx(off))));
      if ix != IxBP {
        IxInvalidate();
      } else {
        ix := IxPtr(off);
      }
      LoadIndexed(cfg, old(Now()), off);
    }

    method LdxBpNX(off: Byte)
      requires (depth == 0 && !cfg.useAlloca) || cfg.useBp || (depth >= 0 && !cfg.useAlloca)
      modifies this`code, this`ix
      ensures old(code) <= code && Emits(cfg, OpLdxBpNX(off), old(Now()), Now(), Since(old(code)))
      ensures ix == IxPtr(off)
    {
      if ix == IxPtr(off) {
        ElidedLoad(cfg, old(Now()));
        return;
      }
      LdxBp();
      ghost var k1, c1 := Now(), code;
      LdxNX(off);
      LoadLocal(cfg, old(Now()), k1, off, c1[|old(code)|..]);
      assert Since(old(code)) == c1[|old(code)|..] + [Ldx(M16(Idx(off)))];
    }

    method LdxExt(v: string)
      modifies this`code, this`ix
      ensures old(code) <= code && Emits(cfg, OpLdxExt(v), old(Now()), Now(), Since(old(code)))
      ensures ix == IxExt(v)
    {
      if ix == IxExt(v) {
        ElidedLoad(cfg, old(Now()));
        return;
      }
      Println(Ldx(M16(Ext(cfg.link(v)))));
      ix := IxExt(v);
      LoadGlobal(cfg, old(Now()), v);
    }

    method CpxExt(v: string)
      modifies this`code
      ensures code == old(code) + [Cpx(M16(Ext(cfg.link(v))))]
      ensures Emits(cfg, OpCpxExt(v), old(Now()), Now(), Since(old(code)))
    {
      Println(Cpx(M16(Ext(cfg.link(v)))));
      CompareGlobal(cfg, old(Now()), v);
    }

    method StxExt(v: string)
      modifies this`code, this`ix
      ensures old(code) <= code && Emits(cfg, OpStxExt(v), old(Now()), Now(), Since(old(code)))
    {
      Println(Stx(Ext(cfg.link(v))));
      ix := IxExt(v);
      GlobalStore(cfg, old(Now()), v);
    }

    method LdxImm(str: string)
      modifies this`code, this`ix
      ensures old(code) <= code && Emits(cfg, OpLdxImm(str), old(Now()), Now(), Since(old(code)))
      ensures ix == IxImm(str)
    {
      if ix == IxImm(str) {
        ElidedLoad(cfg, old(Now()));
        return;
      }
      Println(Ldx(Imm16(cfg.link(str))));
      ix := IxImm(str);
      LoadImmediate(cfg, old(Now()), str);
    }

    method TfrDx()
      modifies this`code, this`ix
      ensures old(code) <= code && Emits(cfg, OpTfrDx, old(Now()), Now(), Since(old(code)))
    {
      Println(St(B, Ext(TMP1 + 1)));
      Println(St(A, Ext(TMP1)));
      Println(Ldx(M16(Ext(TMP1))));
      IxInvalidate();
      assert Since(old(code)) == [St(B, Ext(TMP1 + 1)), St(A, Ext(TMP1)), Ldx(M16(Ext(TMP1)))];
      TransferCode(cfg, old(Now()));
    }

    method InvalidateExt(v: string)
      modifies this`ix
      ensures ix == if old(ix) == IxExt(v) then IxNone else old(ix)
    {
      if ix == IxExt(v) {
        IxInvalidate();
      }
    }

    method StoreExt(v: string)
      modifies this`code, this`ix
      ensures old(code) <= code && Emits(cfg, OpStoreExt(v), old(Now()), Now(), Since(old(code)))
    {
      Println(St(B, Ext(Wrap(cfg.link(v) + 1))));
      Println(St(A, Ext(cfg.link(v))));
      InvalidateExt(v);
      StoreInvalidates(cfg, old(Now()), v, Now(), Since(old(code)));
    }

    method StoreX(off: Byte)
      modifies this`code
      ensures old(code) <= code && Emits(cfg, OpStoreX(off), old(Now()), Now(), Since(old(code)))
    {
      Println(St(B, Idx(off)));
      IndexedStore(cfg, old(Now()), off);
    }

    /** Drop by way of the frame address, the body the first two branches of RemoveArgs share. */
    method DropFromFrame(n: nat)
      requires n <= depth && cfg.useBp && !cfg.useAlloca
      modifies this`code, this`depth, this`ix
      ensures old(code) <= code && Emits(cfg, OpRemoveArgs(n), old(Now()), Now(), Since(old(code)))
      ensures depth == old(depth) - n
    {
      LdxBp();
      ghost var c1 := code;
      var left := depth - n;
      PrintMany(left, Inh(Dex));
      if left > 0 {
        IxInvalidate();
      }
      Println(Inh(Txs));
      depth := depth - n;
      DropByFrame(cfg, old(Now()), Tracker(old(depth), IxBP), n, c1[|old(code)|..]);
      assert Since(old(code)) == c1[|old(code)|..] + (Rep(left, Inh(Dex)) + [Inh(Txs)]);
    }

    method PrintDropBySum(n: nat)
      modifies this`code
      ensures code == old(code) + DropBySum(n)
    {
      Println(St(A, Ext(TMP2)));
      Println(Sts(Ext(TMP1)));
      Println(Alu(Ld, A, M(Ext(TMP1 + 1))));
      Println(Alu(Add, A, Imm(Low(n))));
      Println(St(A, Ext(TMP1 + 1)));
      Println(Alu(Ld, A, M(Ext(TMP1))));
      Println(Alu(Adc, A, Imm(High(n))));
      Println(St(A, Ext(TMP1)));
      Println(Lds(M16(Ext(TMP1))));
      Println(Alu(Ld, A, M(Ext(TMP2))));
    }

    /** Removes stack arguments; A and B are kept, whichever way is chosen. */
    method RemoveArgs(n: nat)
      requires n <= depth && (cfg.hasFrame ==> cfg.useBp)
      modifies this`code, this`depth, this`ix
      ensures old(code) <= code && Emits(cfg, OpRemoveArgs(n), old(Now()), Now(), Since(old(code)))
      ensures depth == old(depth) - n
    {
      if n == 0 {
        NothingToDrop(cfg, old(Now()));
        return;
      }
      if cfg.hasFrame && !cfg.useAlloca {
        if depth == n && (n >= 3 || (n >= 2 && cfg.o2)) {
          DropFromFrame(n);
          return;
        }
        if n * 2 > depth + 2 {
          DropFromFrame(n);
          return;
        }
      }
      if n * 4 <= 34 {
        InsN(n);
        InsCode(cfg, old(Now()), n);
        return;
      }
      PrintDropBySum(n);
      depth := depth - n;
      DropBySumCode(cfg, old(Now()), n);
    }

    /** Whether the caller may emit `op` here. */
    predicate MayEmit(op: Op)
      reads this
    {
      match op
      case OpPop1 => depth >= 1
      case OpPopA => depth >= 1
      case OpPop => depth >= 2
      case OpPopX => depth >= 2
      case OpIns(n) => n <= depth
      case OpRemoveArgs(n) => n <= depth
      case _ => true
    }

    method EmitOp(op: Op)
      requires MayEmit(op) && depth >= 0 && (cfg.hasFrame ==> cfg.useBp) && (cfg.useAlloca ==> cfg.useBp)
      modifies this`code, this`depth, this`ix
      ensures old(code) <= code && Emits(cfg, op, old(Now()), Now(), Since(old(code)))
      ensures depth >= 0
    {
      match op
      case OpPush1 => Push1();
      case OpPush => Push();
      case OpPop1 => Pop1();
      case OpPopA => PopA();
      case OpPop => Pop();
      case OpPopX => PopX();
      case OpIns(n) => InsN(n);
      case OpRemoveArgs(n) => RemoveArgs(n);
      case OpLdxBp => LdxBp();
      case OpLdxNX(off) => LdxNX(off);
      case OpLdxBpNX(off) => LdxBpNX(off);
      case OpLdxExt(v) => LdxExt(v);
      case OpCpxExt(v) => CpxExt(v);
      case OpStxExt(v) => StxExt(v);
      case OpLdxImm(str) => LdxImm(str);
      case OpInxDex(k) => InxDex(k);
      case OpTfrDx => TfrDx();
      case OpStoreExt(v) => StoreExt(v);
      case OpStoreX(off) => StoreX(off);
    }
  }

  // ----- whole runs -----

  /** One emitter call: the guesses before and after, and the code it printed. */
  datatype Call = Call(op: Op, k0: Tracker, k1: Tracker, seg: seq<Instr>)

  /** A log of calls, each one right, each starting from the guesses the one before left. */
  ghost predicate GoodLog(cfg: Config, log: seq<Call>) {
    && (forall i :: 0 <= i < |log| ==> Emits(cfg, log[i].op, log[i].k0, log[i].k1, log[i].seg))
    && (forall i :: 0 < i < |log| ==> log[i].k0 == log[i - 1].k1)
  }

  function AllCode(log: seq<Call>): seq<Instr> {
    if log == [] then [] else log[0].seg + AllCode(log[1..])
  }

  /** The stack area suffices, and what the tracking takes for granted holds along this run. */
  ghost predicate RunAssumed(cfg: Config, fr: Frame, log: seq<Call>, s: State) {
    log == [] ||
    (Assumed(cfg, fr, log[0].k0, log[0].op, s) && (!cfg.useAlloca ==> log[0].k1.depth <= fr.room)
     && RunAssumed(cfg, fr, log[1..], Exec(log[0].seg, s)))
  }

  /** From `s` to `t` by doing each call's job in turn, with no tracking at all. */
  ghost predicate Reloading(cfg: Config, fr: Frame, log: seq<Call>, s: State, t: State)
  {
    if log == [] then s == t
    else exists m :: Does(cfg, fr, log[0].op, s, m) && Reloading(cfg, fr, log[1..], m, t)
  }

  /**
   Whatever sequence of emitters is called, the code they print together is a run of the code that
   reloads X every time, and every guess made on the way is right.
   */
  lemma {:induction false} EveryRunIsTracked(cfg: Config, fr: Frame, log: seq<Call>, s: State)
    requires GoodLog(cfg, log) && RunAssumed(cfg, fr, log, s)
    requires log != [] ==> Tracks(cfg, fr, log[0].k0, s)
    ensures var t := Exec(AllCode(log), s);
      log != [] ==> Tracks(cfg, fr, log[|log| - 1].k1, t) && Reloading(cfg, fr, log, s, t)
  {
    if log != [] {
      var m, rest := Exec(log[0].seg, s), log[1..];
      ExecAppend(log[0].seg, AllCode(rest), s);
      assert Emits(cfg, log[0].op, log[0].k0, log[0].k1, log[0].seg);
      assert Tracks(cfg, fr, log[0].k1, m) && Does(cfg, fr, log[0].op, s, m);
      assert GoodLog(cfg, rest) by {
        forall i | 0 <= i < |rest| ensures Emits(cfg, rest[i].op, rest[i].k0, rest[i].k1, rest[i].seg) {
          assert rest[i] == log[i + 1];
        }
        forall i | 0 < i < |rest| ensures rest[i].k0 == rest[i - 1].k1 {
          assert rest[i] == log[i + 1] && rest[i - 1] == log[i];
        }
      }
      if rest != [] {
        assert rest[0] == log[1];
      }
      EveryRunIsTracked(cfg, fr, rest, m);
    }
  }

  lemma LogSnoc(cfg: Config, log: seq<Call>, c: Call)
    requires GoodLog(cfg, log) && Emits(cfg, c.op, c.k0, c.k1, c.seg)
    requires log != [] ==> c.k0 == log[|log| - 1].k1
    ensures GoodLog(cfg, log + [c])
  {
  }

  lemma {:induction false} AllCodeSnoc(log: seq<Call>, c: Call)
    ensures AllCode(log + [c]) == AllCode(log) + c.seg
  {
    if log == [] {
      assert log + [c] == [c];
    } else {
      assert (log + [c])[1..] == log[1..] + [c];
      AllCodeSnoc(log[1..], c);
    }
  }

  /** One call, recorded. */
  method EmitLogged(e: Emitter, op: Op, ghost log: seq<Call>) returns (ghost log': seq<Call>)
    requires e.MayEmit(op) && e.depth >= 0 && (e.cfg.hasFrame ==> e.cfg.useBp) && (e.cfg.useAlloca ==> e.cfg.useBp)
    requires GoodLog(e.cfg, log) && (log != [] ==> log[|log| - 1].k1 == e.Now())
    modifies e
    ensures e.depth >= 0 && old(e.code) <= e.code
    ensures log' == log + [Call(op, old(e.Now()), e.Now(), e.Since(old(e.code)))]
    ensures GoodLog(e.cfg, log')
    ensures AllCode(log') == AllCode(log) + e.Since(old(e.code))
  {
    e.EmitOp(op);
    ghost var c := Call(op, old(e.Now()), e.Now(), e.Since(old(e.code)));
    LogSnoc(e.cfg, log, c);
    AllCodeSnoc(log, c);
    log' := log + [c];
  }

  /** Call emitters until one may not be called; the log is what EveryRunIsTracked speaks about. */
  method EmitAll(e: Emitter, ops: seq<Op>) returns (done: nat, ghost log: seq<Call>)
    requires e.depth >= 0 && (e.cfg.hasFrame ==> e.cfg.useBp) && (e.cfg.useAlloca ==> e.cfg.useBp)
    modifies e
    ensures done <= |ops| && |log| == done && GoodLog(e.cfg, log)
    ensures forall i :: 0 <= i < done ==> log[i].op == ops[i]
    ensures done < |ops| ==> !e.MayEmit(ops[done])
    ensures e.code == old(e.code) + AllCode(log)
    ensures log != [] ==> log[0].k0 == old(e.Now()) && log[|log| - 1].k1 == e.Now()
  {
    done, log := 0, [];
    while done < |ops| && e.MayEmit(ops[done])
      invariant done <= |ops| && |log| == done && GoodLog(e.cfg, log) && e.depth >= 0
      invariant forall i :: 0 <= i < done ==> log[i].op == ops[i]
      invariant e.code == old(e.code) + AllCode(log)
      invariant if log == [] then e.Now() == old(e.Now())
                else log[0].k0 == old(e.Now()) && log[|log| - 1].k1 == e.Now()
    {
      log := EmitLogged(e, ops[done], log);
      done := done + 1;
    }
  }
}
