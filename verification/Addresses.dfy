/**
 Addresses taken apart into a base, an index and an offset (find_addr_off, find_expr_off), and the code
 that puts them together again (gen_base_off in codegen.c).
 */
module Addresses {
  import opened Arith
  import opened Machine
  import opened Muls
  import opened Options

  /** The types that matter here: anything else is `Other`. */
  datatype Ty = Int16 | Ptr | Array | Func | OtherTy

  datatype Node =
    | Num(val: int, ty: Ty)
    | Var(id: nat, ty: Ty)
    | Member(lhs: Node, offset: int, ty: Ty)
    | Deref(lhs: Node, ty: Ty)
    | Addr(lhs: Node, ty: Ty)
    | Plus(lhs: Node, rhs: Node, ty: Ty)
    | Minus(lhs: Node, rhs: Node, ty: Ty)
    | Cast(lhs: Node, ty: Ty)
    | Else(id: nat, ty: Ty)

  /** Everything a 16-bit expression can stand for: where variables are, what memory holds, the values of all else. */
  datatype World = World(place: nat -> Word, mem: Mem, other: Node -> Word)

  predicate Wide(ty: Ty) { ty != OtherTy }
  predicate Decays(ty: Ty) { ty == Array || ty == Func }

  /** A cast that needs no code. */
  predicate Empty(from: Ty, to: Ty) { Wide(from) && Wide(to) }

  /** The address of an lvalue. */
  function Place(n: Node, w: World): Word
    decreases n, 0
  {
    match n
    case Var(id, _) => w.place(id)
    case Member(l, offset, _) => (Place(l, w) + offset) % 65536
    case Deref(l, _) => Value(l, w)
    case _ => w.other(n)
  }

  /** The value of a 16-bit expression; arrays and functions are their addresses. */
  function Value(n: Node, w: World): Word
    decreases n, 1
  {
    match n
    case Num(val, _) => val % 65536
    case Var(_, ty) => if Decays(ty) then Place(n, w) else Word16At(w.mem, Place(n, w))
    case Member(_, _, ty) => if Decays(ty) then Place(n, w) else Word16At(w.mem, Place(n, w))
    case Deref(_, ty) => if Decays(ty) then Place(n, w) else Word16At(w.mem, Place(n, w))
    case Addr(l, _) => Place(l, w)
    case Plus(l, r, _) => (Value(l, w) + Value(r, w)) % 65536
    case Minus(l, r, _) => (Value(l, w) - Value(r, w)) % 65536
    case Cast(l, ty) => if Empty(l.ty, ty) then Value(l, w) else w.other(n)
    case Else(_, _) => w.other(n)
  }

  // ----- taking apart -----

  /** The results: the base, and what the out-parameters have become. */
  datatype Found = Found(base: Option<Node>, off: int, index: Option<Node>)

  /** find_addr_off; `want` says that an index may be split off, `index` what has been split off already. */
  function FindAddrOff(n: Node, off: int, want: bool, index: Option<Node>): Found
    decreases n, 0
  {
    match n
    case Member(l, offset, _) => FindAddrOff(l, off + offset, want, index)
    case Deref(l, _) => FindExprOff(l, off, want, index)
    case _ => Found(Some(Addr(n, Ptr)), off, index)
  }

  function FindExprOff(n: Node, off: int, want: bool, index: Option<Node>): Found
    decreases n, 1
  {
    if !Wide(n.ty) then Found(None, off, index)
    else if n.Plus? && n.rhs.Num? then FindExprOff(n.lhs, off + n.rhs.val, want, index)
    else if n.Minus? && n.rhs.Num? then FindExprOff(n.lhs, off - n.rhs.val, want, index)
    else if n.Plus? && want && index.None? && (n.ty == Ptr || n.ty == Array) && n.lhs.ty == Int16 then
      var i := FindExprOff(n.lhs, off, false, None);
      FindExprOff(n.rhs, i.off, want, i.base)
    else if n.Plus? && want && index.None? && (n.ty == Ptr || n.ty == Array) && n.rhs.ty == Int16 then
      var i := FindExprOff(n.rhs, off, false, None);
      FindExprOff(n.lhs, i.off, want, i.base)
    else if n.Cast? && Empty(n.lhs.ty, n.ty) then FindExprOff(n.lhs, off, want, index)
    else if n.Addr? then FindAddrOff(n.lhs, off, want, index)
    else if Decays(n.ty) && (n.Var? || n.Member? || n.Deref?) then FindAddrOff(n, off, want, index)
    else Found(Some(n), off, index)
  }

  /** The parser's conversions: what 16-bit sums and dereferences work on is 16 bits wide. */
  predicate WellTyped(n: Node) {
    match n
    case Num(_, _) => true
    case Var(_, _) => true
    case Member(l, _, _) => WellTyped(l)
    case Deref(l, _) => WellTyped(l) && Wide(l.ty)
    case Addr(l, _) => WellTyped(l)
    case Plus(l, r, _) => WellTyped(l) && WellTyped(r) && Wide(l.ty) && Wide(r.ty)
    case Minus(l, r, _) => WellTyped(l) && WellTyped(r) && Wide(l.ty) && Wide(r.ty)
    case Cast(l, _) => WellTyped(l)
    case Else(_, _) => true
  }

  /** What the index adds. */
  function Extra(index: Option<Node>, w: World): Word { if index.Some? then Value(index.value, w) else 0 }

  /** A base is found, no index is lost, and base, index and offset add up to `v`. */
  predicate AddsUp(f: Found, v: Word, off: int, want: bool, index: Option<Node>, w: World) {
    && f.base.Some?
    && (index.Some? || !want ==> f.index == index)
    && (v + off + Extra(index, w)) % 65536 == (Value(f.base.value, w) + f.off + Extra(f.index, w)) % 65536
  }

  lemma MovedOff(v: Word, l: int, d: int, off: int, x: int)
    requires v == (l + d) % 65536
    ensures (v + off + x) % 65536 == (l + (off + d) + x) % 65536
  {
    ModPlus(l + d, off + x, 65536);
  }

  lemma {:induction false} FindAddrRight(n: Node, off: int, want: bool, index: Option<Node>, w: World)
    requires WellTyped(n)
    ensures AddsUp(FindAddrOff(n, off, want, index), Place(n, w), off, want, index, w)
    decreases n, 0
  {
    match n
    case Member(l, offset, _) =>
      FindAddrRight(l, off + offset, want, index, w);
      MovedOff(Place(n, w), Place(l, w), offset, off, Extra(index, w));
    case Deref(l, _) => FindExprRight(l, off, want, index, w);
    case _ =>
  }

  lemma {:induction false} FindExprRight(n: Node, off: int, want: bool, index: Option<Node>, w: World)
    requires WellTyped(n) && Wide(n.ty)
    ensures AddsUp(FindExprOff(n, off, want, index), Value(n, w), off, want, index, w)
    decreases n, 1
  {
    var x := Extra(index, w);
    if n.Plus? && n.rhs.Num? {
      FindExprRight(n.lhs, off + n.rhs.val, want, index, w);
      ConstantMoved(Value(n, w), Value(n.lhs, w), n.rhs.val, off, x);
    } else if n.Minus? && n.rhs.Num? {
      FindExprRight(n.lhs, off - n.rhs.val, want, index, w);
      ConstantTaken(Value(n, w), Value(n.lhs, w), n.rhs.val, off, x);
    } else if n.Plus? && want && index.None? && (n.ty == Ptr || n.ty == Array) && n.lhs.ty == Int16 {
      SplitIndex(n, n.lhs, n.rhs, off, w);
    } else if n.Plus? && want && index.None? && (n.ty == Ptr || n.ty == Array) && n.rhs.ty == Int16 {
      SplitIndex(n, n.rhs, n.lhs, off, w);
    } else if n.Cast? && Empty(n.lhs.ty, n.ty) {
      FindExprRight(n.lhs, off, want, index, w);
    } else if n.Addr? {
      FindAddrRight(n.lhs, off, want, index, w);
    } else if Decays(n.ty) && (n.Var? || n.Member? || n.Deref?) {
      FindAddrRight(n, off, want, index, w);
    }
  }

  lemma ConstantMoved(v: Word, l: Word, c: int, off: int, x: int)
    requires v == (l + c % 65536) % 65536
    ensures (v + off + x) % 65536 == (l + (off + c) + x) % 65536
  {
    ModPlus(c, l, 65536);
    MovedOff(v, l, c, off, x);
  }

  lemma ConstantTaken(v: Word, l: Word, c: int, off: int, x: int)
    requires v == (l - c % 65536) % 65536
    ensures (v + off + x) % 65536 == (l + (off - c) + x) % 65536
  {
    ModSub(l, c, 65536);
    MovedOff(v, l, -c, off, x);
  }

  /** The index first, then the base with the offset the index has left. */
  lemma {:induction false} SplitIndex(n: Node, i: Node, b: Node, off: int, w: World)
    requires n.Plus? && WellTyped(n) && WellTyped(i) && WellTyped(b) && Wide(i.ty) && Wide(b.ty)
    requires (i == n.lhs && b == n.rhs) || (i == n.rhs && b == n.lhs)
    ensures var f := FindExprOff(i, off, false, None);
      AddsUp(FindExprOff(b, f.off, true, f.base), Value(n, w), off, true, None, w)
    decreases n, 0
  {
    hide Value, FindExprOff;
    FindExprRight(i, off, false, None, w);
    var f := FindExprOff(i, off, false, None);
    FindExprRight(b, f.off, true, f.base, w);
    PlusValue(n, w);
    SplitSum(Value(n, w), Value(i, w), Value(b, w), Value(f.base.value, w), off, f.off);
  }

  lemma PlusValue(n: Node, w: World)
    requires n.Plus?
    ensures Value(n, w) == (Value(n.lhs, w) + Value(n.rhs, w)) % 65536
  {
  }

  lemma SplitSum(v: Word, vi: Word, vb: Word, vf: Word, off: int, foff: int)
    requires v == (vi + vb) % 65536 && (vi + off) % 65536 == (vf + foff) % 65536
    ensures (v + off) % 65536 == (vb + foff + vf) % 65536
  {
    ModPlus(vi + vb, off, 65536);
    ModPlus(vi + off, vb, 65536);
    ModPlus(vf + foff, vb, 65536);
    assert vi + vb + off == vi + off + vb && vf + foff + vb == vb + foff + vf;
  }

  /** address = base + index + offset modulo 65536. */
  lemma AddressAddsUp(n: Node, w: World)
    requires WellTyped(n)
    ensures var f := FindAddrOff(n, 0, true, None);
      f.base.Some? && Place(n, w) == (Value(f.base.value, w) + Extra(f.index, w) + f.off) % 65536
  {
    FindAddrRight(n, 0, true, None, w);
    SmallMod(Place(n, w));
  }

  predicate WideOption(n: Option<Node>) { n.Some? ==> Wide(n.value.ty) }

  /** What gen_expr is asked for in the end is 16 bits wide. */
  lemma {:induction false} AddrWide(n: Node, off: int, want: bool, index: Option<Node>)
    requires WideOption(index)
    ensures var f := FindAddrOff(n, off, want, index); WideOption(f.base) && WideOption(f.index)
    decreases n, 0
  {
    match n
    case Member(l, offset, _) => AddrWide(l, off + offset, want, index);
    case Deref(l, _) => ExprWide(l, off, want, index);
    case _ =>
  }

  lemma {:induction false} ExprWide(n: Node, off: int, want: bool, index: Option<Node>)
    requires WideOption(index)
    ensures var f := FindExprOff(n, off, want, index); WideOption(f.base) && WideOption(f.index)
    decreases n, 1
  {
    if !Wide(n.ty) {
    } else if n.Plus? && n.rhs.Num? {
      ExprWide(n.lhs, off + n.rhs.val, want, index);
    } else if n.Minus? && n.rhs.Num? {
      ExprWide(n.lhs, off - n.rhs.val, want, index);
    } else if n.Plus? && want && index.None? && (n.ty == Ptr || n.ty == Array) && (n.lhs.ty == Int16 || n.rhs.ty == Int16) {
      var (i, b) := if n.lhs.ty == Int16 then (n.lhs, n.rhs) else (n.rhs, n.lhs);
      ExprWide(i, off, false, None);
      ExprWide(b, FindExprOff(i, off, false, None).off, want, FindExprOff(i, off, false, None).base);
    } else if n.Cast? && Empty(n.lhs.ty, n.ty) {
      ExprWide(n.lhs, off, want, index);
    } else if n.Addr? {
      AddrWide(n.lhs, off, want, index);
    } else if Decays(n.ty) && (n.Var? || n.Member? || n.Deref?) {
      AddrWide(n, off, want, index);
    }
  }

  // ----- putting together -----

  /**
   How the code gets at an operand: the address of a global or of a local, operands that instructions
   can take directly, a word `off` bytes behind what some code loads into X, or code compiled elsewhere.
   */
  datatype Source = Global(link: Word) | Local(offset: int) | Direct(hi: Opnd, lo: Opnd) | Near(load: seq<Instr>, off: nat) | Computed

  /** An operand: its source, and the number of the code that gen_expr would print for it. */
  datatype Item = Item(src: Source, id: nat)

  /** Direct operands are constants or named cells. */
  predicate Plain(o: Opnd) { o.Imm? || o.loc.Ext? }

  /** The free stack lies between `low` and SP; the frame's address is in @bp. */
  predicate Free(low: int, bp: Word, s: State) {
    LONG + 4 <= low && low + 2 <= s.sp && s.sp + 2 < 65536 && Word16At(s.mem, BP) == bp
  }

  /** Cells that no evaluation changes: all but the temporaries and the free stack. */
  predicate Steady(a: Word, low: int, sp: Word) { !(low <= a <= sp) && !(TMP1 <= a < LONG + 4) }

  predicate Quiet(low: int, s: State, t: State) {
    t.sp == s.sp && forall a: Word :: Steady(a, low, s.sp) ==> t.mem[a] == s.mem[a]
  }

  /** The values of the operands, whichever code computes them. */
  type Values = nat -> Word

  predicate Computes(low: int, v: Word, s: State, t: State) { Quiet(low, s, t) && D(t) == v }

  /** Code compiled elsewhere leaves its value in D and nothing else changed. */
  ghost predicate GoodOracle(orc: Oracle, low: int, vals: Values) {
    forall id: nat, s: State :: low <= s.sp ==> Computes(low, vals(id), s, Ask(orc, id, true, s))
  }

  /** A direct operand's bytes are steady and make up the value. */
  predicate DirectIs(o: Opnd, b: Byte, low: int, s: State) {
    Plain(o) && Rd(o, s) == b && (o.M? ==> Steady(o.loc.addr, low, s.sp))
  }

  predicate OnlyX(s: State, t: State) { t == s.(x := t.x, f := t.f) }

  /** The code loads X, changes nothing else, and the word is `off` bytes behind. */
  predicate NearAt(load: seq<Instr>, off: nat, v: Word, t: State) {
    StraightCode(load) && off < 255 &&
    var u := Exec(load, t);
    OnlyX(t, u) && Rd(M(Idx(off)), u) == v / 256 && Rd(M(Idx(off + 1)), u) == v % 256
  }

  /** So it is now, and after anything that only uses the temporaries and the free stack. */
  ghost predicate NearIs(load: seq<Instr>, off: nat, v: Word, low: int, s: State) {
    forall t :: Quiet(low, s, t) ==> NearAt(load, off, v, t)
  }

  /** Two bytes of memory that make up a word, where no evaluation changes them. */
  predicate WordIs(at: int, v: Word, low: int, s: State) {
    && 0 <= at <= 65534 && Steady(at, low, s.sp) && Steady(at + 1, low, s.sp)
    && s.mem[at] == v / 256 && s.mem[at + 1] == v % 256
  }

  const LDX_BP: seq<Instr> := [Ldx(M16(Ext(BP)))]

  /** A local scalar: ldx @bp, then off,x. */
  lemma LocalNear(off: nat, v: Word, low: int, bp: Word, s: State)
    requires off < 255 && Free(low, bp, s) && WordIs(bp + off, v, low, s)
    ensures NearIs(LDX_BP, off, v, low, s)
  {
    hide Exec, Step;
    forall t | Quiet(low, s, t)
      ensures NearAt(LDX_BP, off, v, t)
    {
      Exec1(LDX_BP[0], t);
      StepLdx(M16(Ext(BP)), t);
      assert t.mem[BP] == s.mem[BP] && t.mem[BP + 1] == s.mem[BP + 1];
      assert t.mem[bp + off] == v / 256 && t.mem[bp + off + 1] == v % 256;
    }
  }

  /** What a local pointer points to: ldx @bp, ldx k,x, then off,x. */
  lemma PointedNear(k: nat, p: Word, off: nat, v: Word, low: int, bp: Word, s: State)
    requires k < 255 && off < 255 && Free(low, bp, s) && WordIs(bp + k, p, low, s) && WordIs(p + off, v, low, s)
    ensures NearIs(LDX_BP + [Ldx(M16(Idx(k)))], off, v, low, s)
  {
    hide Exec, Step;
    LocalNear(k, p, low, bp, s);
    var load := LDX_BP + [Ldx(M16(Idx(k)))];
    forall t | Quiet(low, s, t)
      ensures NearAt(load, off, v, t)
    {
      assert NearAt(LDX_BP, k, p, t);
      var u := Exec(LDX_BP, t);
      ExecAppend(LDX_BP, [Ldx(M16(Idx(k)))], t);
      Exec1(Ldx(M16(Idx(k))), u);
      StepLdx(M16(Idx(k)), u);
      assert t.mem[p + off] == v / 256 && t.mem[p + off + 1] == v % 256;
      HalfWord(p);
    }
  }

  ghost predicate ItemIs(i: Item, v: Word, vals: Values, low: int, bp: Word, s: State) {
    && vals(i.id) == v
    && match i.src
       case Global(link) => v == link
       case Local(offset) => v == (bp + offset) % 65536
       case Direct(hi, lo) => DirectIs(hi, v / 256, low, s) && DirectIs(lo, v % 256, low, s)
       case Near(load, off) => NearIs(load, off, v, low, s)
       case Computed => true
  }

  predicate CanBase(i: Item) { !i.src.Computed? }

  /** gen_base: loads, or adds to D, the base; the offset goes into a global's address and comes on top of a local's. */
  function BaseOff(i: Item, off: int): int {
    match i.src
    case Global(_) => 0
    case Local(offset) => off + offset
    case _ => off
  }

  /** What has to be in X first. */
  function LoadOf(i: Item): seq<Instr> { if i.src.Near? then i.src.load else [] }

  function Operands(i: Item, off: int): (Opnd, Opnd) {
    match i.src
    case Global(link) => (Imm(High(link + off)), Imm(Machine.Low(link + off)))
    case Local(_) => (M(Ext(BP)), M(Ext(BP + 1)))
    case Direct(h, l) => (h, l)
    case Near(_, k) => if k < 255 then (M(Idx(k)), M(Idx(k + 1))) else (Imm(0), Imm(0))
    case Computed => (Imm(0), Imm(0))
  }

  function PairCode(i: Item, off: int, adding: bool): seq<Instr> {
    var (hi, lo) := Operands(i, off);
    [Alu(if adding then Add else Ld, B, lo), Alu(if adding then Adc else Ld, A, hi)]
  }

  function BaseCode(i: Item, off: int, adding: bool): seq<Instr> { LoadOf(i) + PairCode(i, off, adding) }

  lemma LoadPair(hi: Opnd, lo: Opnd, v: Word, s: State)
    requires Rd(lo, s) == v % 256 && Rd(hi, s) == v / 256
    ensures var t := Exec([Alu(Ld, B, lo), Alu(Ld, A, hi)], s); OnlyAB(s, t) && D(t) == v
  {
    hide Exec, Step, Rd, MoveFlags;
    Exec2(Alu(Ld, B, lo), Alu(Ld, A, hi), s);
    StepLoad(B, lo, s);
    RdSame(hi, s, Step(Alu(Ld, B, lo), s));
    StepLoad(A, hi, Step(Alu(Ld, B, lo), s));
    HalfWord(v);
  }

  /** What the pair of instructions works with. */
  function Amount(i: Item, v: Word, off: int, bp: Word): Word {
    match i.src
    case Global(link) => (link + off) % 65536
    case Local(_) => bp
    case _ => v
  }

  predicate OnlyABX(s: State, t: State) { t == s.(a := t.a, b := t.b, x := t.x, f := t.f) }

  lemma BaseRuns(orc: Oracle, i: Item, off: int, adding: bool, v: Word, vals: Values, low: int, bp: Word, s: State)
    requires CanBase(i) && Free(low, bp, s) && ItemIs(i, v, vals, low, bp, s)
    ensures Run(orc, BaseCode(i, off, adding), s).Fall?
    ensures var t := Run(orc, BaseCode(i, off, adding), s).s;
      OnlyABX(s, t) && D(t) == ((if adding then D(s) else 0) + Amount(i, v, off, bp)) % 65536
  {
    hide Run, Exec, Step, D, Amount, ItemIs, Operands;
    var load, m := LoadOf(i), Amount(i, v, off, bp);
    var (hi, lo) := Operands(i, off);
    var pair := PairCode(i, off, adding);
    BaseOperands(i, off, v, vals, low, bp, s);
    RunStraight(orc, load + pair, s);
    ExecAppend(load, pair, s);
    var u := Exec(load, s);
    SmallMod(m);
    SameD(s, u);
    if adding {
      AddPair(hi, lo, m, u);
    } else {
      LoadPair(hi, lo, m, u);
    }
  }

  lemma BaseOperands(i: Item, off: int, v: Word, vals: Values, low: int, bp: Word, s: State)
    requires CanBase(i) && Free(low, bp, s) && ItemIs(i, v, vals, low, bp, s)
    ensures StraightCode(LoadOf(i)) && OnlyX(s, Exec(LoadOf(i), s))
    ensures var (hi, lo) := Operands(i, off);
      var u := Exec(LoadOf(i), s);
      Rd(lo, u) == Amount(i, v, off, bp) % 256 && Rd(hi, u) == Amount(i, v, off, bp) / 256
  {
    match i.src {
      case Global(link) => WordSplit(link + off);
      case Local(_) => DivModUnique(bp, s.mem[BP], s.mem[BP + 1], 256);
      case Near(load, k) =>
        hide Exec;
        assert Quiet(low, s, s);
        assert NearAt(load, k, v, s);
      case _ =>
    }
  }

  /** With the offset that is left, the amount is the base. */
  lemma AmountAdds(i: Item, v: Word, vals: Values, off: int, low: int, bp: Word, s: State, d: int)
    requires CanBase(i) && ItemIs(i, v, vals, low, bp, s)
    ensures ((d + Amount(i, v, off, bp)) % 65536 + BaseOff(i, off)) % 65536 == (d + v + off) % 65536
  {
    match i.src {
      case Global(link) =>
        ModPlus(link + off, d, 65536);
        ModPlus(d + (link + off) % 65536, 0, 65536);
      case Local(offset) =>
        ModPlus(bp + offset, d + off, 65536);
        ModPlus(d + bp, off + offset, 65536);
      case Direct(_, _) => ModPlus(d + v, off, 65536);
      case Near(_, _) => ModPlus(d + v, off, 65536);
      case Computed =>
    }
  }

  /** What stays true of an item after quiet code. */
  lemma ItemStays(i: Item, v: Word, vals: Values, low: int, bp: Word, s: State, t: State)
    requires ItemIs(i, v, vals, low, bp, s) && Quiet(low, s, t) && Free(low, bp, s)
    ensures ItemIs(i, v, vals, low, bp, t) && Free(low, bp, t)
  {
    if i.src.Near? {
      forall u | Quiet(low, t, u)
        ensures NearAt(i.src.load, i.src.off, v, u)
      {
        assert Quiet(low, s, u);
      }
    }
  }

  /** D and the offset returned make up base plus index plus offset, and nothing else has changed. */
  predicate Made(base: Word, index: Word, off: int, off2: int, low: int, s: State, t: State) {
    Quiet(low, s, t) && (D(t) + off2) % 65536 == (base + index + off) % 65536
  }

  /** Without an index, 0 is added. */
  ghost predicate IndexIs(index: Option<Item>, v: Word, vals: Values, low: int, bp: Word, s: State) {
    if index.Some? then ItemIs(index.value, v, vals, low, bp, s) else v == 0
  }

  ghost predicate Makes(base: Item, index: Option<Item>, off: int, off2: int, code: seq<Instr>) {
    forall orc: Oracle, low: int, vals: Values, vb: Word, vi: Word, bp: Word, s: State ::
      GoodOracle(orc, low, vals) && Free(low, bp, s) && ItemIs(base, vb, vals, low, bp, s)
      && IndexIs(index, vi, vals, low, bp, s)
      ==> MadeBy(orc, vb, vi, off, off2, low, s, code)
  }

  ghost predicate MadeBy(orc: Oracle, vb: Word, vi: Word, off: int, off2: int, low: int, s: State, code: seq<Instr>) {
    Run(orc, code, s).Fall? && Made(vb, vi, off, off2, low, s, Run(orc, code, s).s)
  }

  lemma OperandRuns(orc: Oracle, id: nat, rest: seq<Instr>, s: State)
    ensures Run(orc, [Operand(id, true)] + rest, s) == Run(orc, rest, Ask(orc, id, true, s))
  {
    assert ([Operand(id, true)] + rest)[1..] == rest;
  }

  lemma OracleComputes(orc: Oracle, low: int, vals: Values, id: nat, s: State)
    requires GoodOracle(orc, low, vals) && low <= s.sp
    ensures Computes(low, vals(id), s, Ask(orc, id, true, s))
  {
  }

  lemma ValueOf(i: Item, v: Word, vals: Values, low: int, bp: Word, s: State)
    requires ItemIs(i, v, vals, low, bp, s)
    ensures vals(i.id) == v
  {
  }

  /** No index: the base alone. */
  lemma BaseAlone(orc: Oracle, base: Item, off: int, low: int, vals: Values, vb: Word, bp: Word, s: State)
    requires GoodOracle(orc, low, vals) && Free(low, bp, s) && ItemIs(base, vb, vals, low, bp, s)
    ensures CanBase(base) ==> MadeBy(orc, vb, 0, off, BaseOff(base, off), low, s, BaseCode(base, off, false))
    ensures MadeBy(orc, vb, 0, off, off, low, s, [Operand(base.id, true)] + [])
  {
    hide Run, D, BaseCode, Amount, BaseOff, ItemIs, GoodOracle;
    if CanBase(base) {
      BaseRuns(orc, base, off, false, vb, vals, low, bp, s);
      AmountAdds(base, vb, vals, off, low, bp, s, 0);
    }
    OperandRuns(orc, base.id, [], s);
    RunNone(orc, Ask(orc, base.id, true, s));
    OracleComputes(orc, low, vals, base.id, s);
    ValueOf(base, vb, vals, low, bp, s);
  }

  /** The index computed, the base added. */
  lemma BaseAdded(orc: Oracle, base: Item, index: Item, off: int, low: int, vals: Values, vb: Word, vi: Word, bp: Word, s: State)
    requires GoodOracle(orc, low, vals) && Free(low, bp, s) && ItemIs(base, vb, vals, low, bp, s) && ItemIs(index, vi, vals, low, bp, s)
    requires CanBase(base)
    ensures MadeBy(orc, vb, vi, off, BaseOff(base, off), low, s, [Operand(index.id, true)] + BaseCode(base, off, true))
  {
    hide Run, D, BaseCode, Amount, BaseOff, GoodOracle, ItemIs;
    OperandRuns(orc, index.id, BaseCode(base, off, true), s);
    var t := Ask(orc, index.id, true, s);
    OracleComputes(orc, low, vals, index.id, s);
    ValueOf(index, vi, vals, low, bp, s);
    ItemStays(base, vb, vals, low, bp, s, t);
    BaseRuns(orc, base, off, true, vb, vals, low, bp, t);
    AmountAdds(base, vb, vals, off, low, bp, t, vi);
    assert vi + vb + off == vb + vi + off;
  }

  /** The base computed, a direct index added. */
  lemma IndexAdded(orc: Oracle, base: Item, index: Item, off: int, low: int, vals: Values, vb: Word, vi: Word, bp: Word, s: State)
    requires GoodOracle(orc, low, vals) && Free(low, bp, s) && ItemIs(base, vb, vals, low, bp, s) && ItemIs(index, vi, vals, low, bp, s)
    requires index.src.Direct? || index.src.Near?
    ensures MadeBy(orc, vb, vi, off, off, low, s, [Operand(base.id, true)] + BaseCode(index, 0, true))
  {
    hide Run, D, BaseCode, GoodOracle, ItemIs;
    OperandRuns(orc, base.id, BaseCode(index, 0, true), s);
    var t := Ask(orc, base.id, true, s);
    OracleComputes(orc, low, vals, base.id, s);
    ValueOf(base, vb, vals, low, bp, s);
    ItemStays(index, vi, vals, low, bp, s, t);
    BaseRuns(orc, index, 0, true, vi, vals, low, bp, t);
    ModPlus(vb + vi, off, 65536);
  }

  const PUSH_D: seq<Instr> := [Psh(B), Psh(A)]
  const ADD_TOP: seq<Instr> := [Inh(Tsx)] + ([Alu(Add, B, M(Idx(1))), Alu(Adc, A, M(Idx(0)))] + [Inh(Ins), Inh(Ins)])

  lemma PushRuns(orc: Oracle, low: int, bp: Word, s: State)
    requires Free(low, bp, s)
    ensures Run(orc, PUSH_D, s).Fall?
    ensures var t := Run(orc, PUSH_D, s).s;
      && t.sp == s.sp - 2 && t.mem[s.sp] == s.b && t.mem[s.sp - 1] == s.a && D(t) == D(s)
      && forall a: Word :: a != s.sp && a != s.sp - 1 ==> t.mem[a] == s.mem[a]
  {
    hide Step, Exec, Run;
    RunStraight(orc, PUSH_D, s);
    Exec2(Psh(B), Psh(A), s);
    StepPush(B, s);
    StepPush(A, Step(Psh(B), s));
  }

  /** tsx; addb 1,x; adca 0,x; ins; ins: the word on top of the stack is added and dropped. */
  lemma TopAdded(orc: Oracle, v: Word, s: State)
    requires s.sp + 2 < 65536 && s.mem[s.sp + 1] == v / 256 && s.mem[s.sp + 2] == v % 256
    ensures Run(orc, ADD_TOP, s).Fall?
    ensures var t := Run(orc, ADD_TOP, s).s; t.sp == s.sp + 2 && t.mem == s.mem && D(t) == (D(s) + v) % 65536
  {
    hide Step, Exec, Run, D;
    var c2, c3 := [Alu(Add, B, M(Idx(1))), Alu(Adc, A, M(Idx(0)))], [Inh(Ins), Inh(Ins)];
    RunStraight(orc, ADD_TOP, s);
    ExecAppend([Inh(Tsx)], c2 + c3, s);
    Exec1(Inh(Tsx), s);
    StepTsx(s);
    var s1 := Step(Inh(Tsx), s);
    ExecAppend(c2, c3, s1);
    AddPair(c2[1].opnd, c2[0].opnd, v, s1);
    SameD(s, s1);
    var s2 := Exec(c2, s1);
    Exec2(Inh(Ins), Inh(Ins), s2);
    StepIns(s2);
    StepIns(Step(Inh(Ins), s2));
    SameD(s2, Step(Inh(Ins), Step(Inh(Ins), s2)));
  }

  /** The index on the stack while the base is computed. */
  lemma IndexPushed(orc: Oracle, base: Item, index: Item, off: int, low: int, vals: Values, vb: Word, vi: Word, bp: Word, s: State)
    requires GoodOracle(orc, low, vals) && Free(low, bp, s) && vals(base.id) == vb && vals(index.id) == vi
    ensures MadeBy(orc, vb, vi, off, off, low, s,
              [Operand(index.id, true)] + (PUSH_D + ([Operand(base.id, true)] + ADD_TOP)))
  {
    hide Run, D, GoodOracle;
    var c3 := [Operand(base.id, true)] + ADD_TOP;
    OperandRuns(orc, index.id, PUSH_D + c3, s);
    var s1 := Ask(orc, index.id, true, s);
    OracleComputes(orc, low, vals, index.id, s);
    QuietFree(low, bp, s, s1);
    PushRuns(orc, low, bp, s1);
    RunAppend(orc, PUSH_D, c3, s1);
    var s2 := Run(orc, PUSH_D, s1).s;
    OperandRuns(orc, base.id, ADD_TOP, s2);
    var s3 := Ask(orc, base.id, true, s2);
    OracleComputes(orc, low, vals, base.id, s2);
    DBytes(s1, vi);
    StackSteady(low, s1, s2, s3);
    TopAdded(orc, vi, s3);
    ModPlus(vb + vi, off, 65536);
  }

  lemma QuietFree(low: int, bp: Word, s: State, t: State)
    requires Free(low, bp, s) && Quiet(low, s, t)
    ensures Free(low, bp, t)
  {
  }

  lemma DBytes(s: State, v: Word)
    requires D(s) == v
    ensures s.a == v / 256 && s.b == v % 256
  {
    DivModUnique(v, s.a, s.b, 256);
  }

  /** What has been pushed is still there, and all that was steady below. */
  lemma StackSteady(low: int, s1: State, s2: State, s3: State)
    requires LONG + 4 <= low && low + 2 <= s1.sp && s2.sp == s1.sp - 2 && Quiet(low, s2, s3)
    requires s2.mem[s1.sp] == s1.b && s2.mem[s1.sp - 1] == s1.a
    requires forall a: Word :: a != s1.sp && a != s1.sp - 1 ==> s2.mem[a] == s1.mem[a]
    ensures s3.mem[s3.sp + 1] == s1.a && s3.mem[s3.sp + 2] == s1.b
    ensures forall a: Word :: Steady(a, low, s1.sp) ==> s3.mem[a] == s1.mem[a]
  {
  }

  method GenBaseOff(base: Item, index: Option<Item>, off: int) returns (code: seq<Instr>, off2: int)
    ensures Makes(base, index, off, off2, code)
  {
    hide GoodOracle, Free, ItemIs, MadeBy, BaseCode, BaseOff;
    if index.None? {
      if CanBase(base) {
        code, off2 := BaseCode(base, off, false), BaseOff(base, off);
      } else {
        code, off2 := [Operand(base.id, true)] + [], off;
      }
      forall orc: Oracle, low: int, vals: Values, vb: Word, bp: Word, s: State
        | GoodOracle(orc, low, vals) && Free(low, bp, s) && ItemIs(base, vb, vals, low, bp, s)
        ensures MadeBy(orc, vb, 0, off, off2, low, s, code)
      {
        BaseAlone(orc, base, off, low, vals, vb, bp, s);
      }
      return;
    }
    var i := index.value;
    if CanBase(base) {
      code, off2 := [Operand(i.id, true)] + BaseCode(base, off, true), BaseOff(base, off);
    } else if i.src.Direct? || i.src.Near? {
      code, off2 := [Operand(base.id, true)] + BaseCode(i, 0, true), off;
    } else {
      code, off2 := [Operand(i.id, true)] + (PUSH_D + ([Operand(base.id, true)] + ADD_TOP)), off;
    }
    forall orc: Oracle, low: int, vals: Values, vb: Word, vi: Word, bp: Word, s: State
      | GoodOracle(orc, low, vals) && Free(low, bp, s) && ItemIs(base, vb, vals, low, bp, s) && ItemIs(i, vi, vals, low, bp, s)
      ensures MadeBy(orc, vb, vi, off, off2, low, s, code)
    {
      if CanBase(base) {
        BaseAdded(orc, base, i, off, low, vals, vb, vi, bp, s);
      } else if i.src.Direct? || i.src.Near? {
        IndexAdded(orc, base, i, off, low, vals, vb, vi, bp, s);
      } else {
        ValueOf(base, vb, vals, low, bp, s);
        ValueOf(i, vi, vals, low, bp, s);
        IndexPushed(orc, base, i, off, low, vals, vb, vi, bp, s);
      }
    }
  }

  // ----- both together -----

  /**
   What the compiler knows of a program's expressions: where each variable lies (`Computed` for one of
   variable length), what can_direct finds, and the number of the code that gen_expr prints.
   */
  datatype Access = Access(site: nat -> Source, direct: Node -> Source, code: Node -> nat)

  function SourceOf(n: Node, ac: Access): Source {
    if n.Addr? && n.lhs.Var? && n.lhs.ty != Func && (ac.site(n.lhs.id).Global? || ac.site(n.lhs.id).Local?) then ac.site(n.lhs.id)
    else if ac.direct(n).Direct? || ac.direct(n).Near? then ac.direct(n)
    else Computed
  }

  function ItemOf(n: Node, ac: Access): Item { Item(SourceOf(n, ac), ac.code(n)) }

  predicate SiteIs(site: Source, a: Word, bp: Word) {
    match site
    case Global(link) => a == link
    case Local(offset) => a == (bp + offset) % 65536
    case _ => true
  }

  /** What the compiler knows is true of the run: places of variables, direct operands, and codes compiled elsewhere. */
  ghost predicate Agrees(ac: Access, w: World, vals: Values, low: int, bp: Word, s: State) {
    && (forall id: nat :: SiteIs(ac.site(id), w.place(id), bp))
    && (forall n: Node :: Wide(n.ty) ==> vals(ac.code(n)) == Value(n, w))
    && (forall n: Node :: DirectlyIs(ac.direct(n), Value(n, w), low, s))
  }

  ghost predicate DirectlyIs(src: Source, v: Word, low: int, s: State) {
    match src
    case Direct(hi, lo) => DirectIs(hi, v / 256, low, s) && DirectIs(lo, v % 256, low, s)
    case Near(load, off) => NearIs(load, off, v, low, s)
    case _ => true
  }

  lemma ItemAgrees(n: Node, ac: Access, w: World, vals: Values, low: int, bp: Word, s: State)
    requires Agrees(ac, w, vals, low, bp, s) && Wide(n.ty)
    ensures ItemIs(ItemOf(n, ac), Value(n, w), vals, low, bp, s)
  {
    hide DirectIs, NearIs;
    assert DirectlyIs(ac.direct(n), Value(n, w), low, s);
    if n.Addr? && n.lhs.Var? {
      assert SiteIs(ac.site(n.lhs.id), w.place(n.lhs.id), bp);
    }
  }

  /** Whatever the variables hold, D and the offset returned make up the address of `n`, and nothing else has changed. */
  ghost predicate Addressed(n: Node, ac: Access, off2: int, code: seq<Instr>) {
    forall orc: Oracle, w: World, vals: Values, low: int, bp: Word, s: State ::
      GoodOracle(orc, low, vals) && Free(low, bp, s) && Agrees(ac, w, vals, low, bp, s)
      ==> AddressedBy(orc, n, w, off2, low, s, code)
  }

  ghost predicate AddressedBy(orc: Oracle, n: Node, w: World, off2: int, low: int, s: State, code: seq<Instr>) {
    var o := Run(orc, code, s);
    o.Fall? && Quiet(low, s, o.s) && (D(o.s) + off2) % 65536 == Place(n, w)
  }

  /** gen_addr_off on `*p` and `s.m`: taken apart and put together, the address is the lvalue's. */
  method GenAddrOff(n: Node, ac: Access) returns (code: seq<Instr>, off2: int)
    requires (n.Deref? || n.Member?) && WellTyped(n)
    ensures Addressed(n, ac, off2, code)
  {
    hide Agrees, GoodOracle, Free, MadeBy, AddressedBy, Makes, ItemOf, FindAddrOff, Value;
    var f := FindAddrOff(n, 0, true, None);
    AddressAddsUp(n, World(_ => 0, seq(65536, _ => 0), _ => 0));
    var base, index := ItemOf(f.base.value, ac), if f.index.Some? then Some(ItemOf(f.index.value, ac)) else None;
    code, off2 := GenBaseOff(base, index, f.off);
    forall orc: Oracle, w: World, vals: Values, low: int, bp: Word, s: State
      | GoodOracle(orc, low, vals) && Free(low, bp, s) && Agrees(ac, w, vals, low, bp, s)
      ensures AddressedBy(orc, n, w, off2, low, s, code)
    {
      PlaceReached(orc, n, ac, w, vals, off2, low, bp, s, code);
    }
  }

  lemma MadeOf(base: Item, index: Option<Item>, off: int, off2: int, code: seq<Instr>,
        orc: Oracle, low: int, vals: Values, vb: Word, vi: Word, bp: Word, s: State)
    requires Makes(base, index, off, off2, code) && GoodOracle(orc, low, vals) && Free(low, bp, s) && ItemIs(base, vb, vals, low, bp, s)
    requires IndexIs(index, vi, vals, low, bp, s)
    ensures MadeBy(orc, vb, vi, off, off2, low, s, code)
  {
    hide GoodOracle, Free, ItemIs, MadeBy;
  }

  lemma MadeAddress(orc: Oracle, n: Node, w: World, vb: Word, vi: Word, off: int, off2: int, low: int, s: State, code: seq<Instr>)
    requires MadeBy(orc, vb, vi, off, off2, low, s, code) && Place(n, w) == (vb + vi + off) % 65536
    ensures AddressedBy(orc, n, w, off2, low, s, code)
  {
    hide Quiet, Run, D, Place;
  }

  lemma PlaceReached(orc: Oracle, n: Node, ac: Access, w: World, vals: Values, off2: int, low: int, bp: Word, s: State, code: seq<Instr>)
    requires WellTyped(n) && GoodOracle(orc, low, vals) && Free(low, bp, s) && Agrees(ac, w, vals, low, bp, s)
    requires var f := FindAddrOff(n, 0, true, None);
      f.base.Some? && Makes(ItemOf(f.base.value, ac), if f.index.Some? then Some(ItemOf(f.index.value, ac)) else None, f.off, off2, code)
    ensures AddressedBy(orc, n, w, off2, low, s, code)
  {
    hide Agrees, GoodOracle, Free, ItemIs, ItemOf, FindAddrOff, Value, Place, Quiet, Run, MadeBy;
    var f := FindAddrOff(n, 0, true, None);
    AddressAddsUp(n, w);
    AddrWide(n, 0, true, None);
    var vb, vi := Value(f.base.value, w), Extra(f.index, w);
    ItemAgrees(f.base.value, ac, w, vals, low, bp, s);
    if f.index.Some? {
      ItemAgrees(f.index.value, ac, w, vals, low, bp, s);
      MadeOf(ItemOf(f.base.value, ac), Some(ItemOf(f.index.value, ac)), f.off, off2, code, orc, low, vals, vb, vi, bp, s);
    } else {
      MadeOf(ItemOf(f.base.value, ac), None, f.off, off2, code, orc, low, vals, vb, vi, bp, s);
    }
    MadeAddress(orc, n, w, vb, vi, f.off, off2, low, s, code);
  }
}
