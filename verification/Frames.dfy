/**
 Calls: the bytes a caller pushes (push_args), the places the callee gives its locals and parameters
 (assign_lvar_offsets), and the code that makes and removes a frame (emit_text in codegen.c).
 */
module Frames {
  import opened Arith
  import opened Bits
  import opened Machine
  import opened Muls

  // ----- offsets -----

  /** A local or parameter; its offset counts from @bp. */
  datatype Var = Var(size: nat, isStruct: bool, offset: int, regParam: bool)

  function Sizes(vs: seq<Var>): nat { if vs == [] then 0 else Sizes(vs[..|vs| - 1]) + vs[|vs| - 1].size }

  lemma {:induction false} SizesMonotonic(vs: seq<Var>, i: nat, j: nat)
    requires i <= j <= |vs|
    ensures Sizes(vs[..i]) <= Sizes(vs[..j])
    decreases j
  {
    if i < j {
      SizesMonotonic(vs, i, j - 1);
      assert vs[..j][..j - 1] == vs[..j - 1];
    }
  }

  lemma SizesNext(vs: seq<Var>, i: nat)
    requires i < |vs|
    ensures Sizes(vs[..i + 1]) == Sizes(vs[..i]) + vs[i].size
  {
    assert vs[..i + 1][..i] == vs[..i];
  }

  /** The first parameter comes in registers unless it is a structure or the result is one. */
  predicate InRegister(vs: seq<Var>, nloc: nat, structReturn: bool, i: nat) {
    i == nloc && i < |vs| && !structReturn && !vs[i].isStruct
  }

  /** The bytes the prologue pushes for what comes in registers: the first parameter, or where the result goes. */
  function RegSize(vs: seq<Var>, nloc: nat, structReturn: bool): nat {
    if structReturn then 2 else if InRegister(vs, nloc, structReturn, nloc) then vs[nloc].size else 0
  }

  /** Locals lie from @bp up, then what came in registers, the old @bp and the return address, then the stack parameters. */
  function Offset(vs: seq<Var>, nloc: nat, structReturn: bool, i: nat): nat
    requires i < |vs| && nloc <= |vs|
  {
    if i < nloc || InRegister(vs, nloc, structReturn, i) then Sizes(vs[..i])
    else if InRegister(vs, nloc, structReturn, nloc) then Sizes(vs[..i]) + 4
    else Sizes(vs[..i]) + 4 + RegSize(vs, nloc, structReturn)
  }

  predicate SameVar(v: Var, w: Var) { w.size == v.size && w.isStruct == v.isStruct }

  predicate SameVars(vs: seq<Var>, ws: seq<Var>) { |ws| == |vs| && forall i :: 0 <= i < |vs| ==> SameVar(vs[i], ws[i]) }

  /** The marks of the first loop: -1 for the register parameter, -2 for those on the stack. */
  predicate Marked(was: seq<Var>, vs: seq<Var>, nloc: nat, structReturn: bool, k: nat) {
    && SameVars(was, vs)
    && forall i :: nloc <= i < k && i < |vs| ==>
         vs[i].offset == (if InRegister(was, nloc, structReturn, i) then -1 else -2) && vs[i].regParam == InRegister(was, nloc, structReturn, i)
  }

  /** The first loop: which parameter comes in registers. */
  method MarkParams(vars: array<Var>, nloc: nat, structReturn: bool)
    requires nloc <= vars.Length
    requires forall i :: 0 <= i < vars.Length ==> vars[i].offset == 0 && !vars[i].regParam
    modifies vars
    ensures Marked(old(vars[..]), vars[..], nloc, structReturn, vars.Length) && forall i :: 0 <= i < nloc ==> vars[i] == old(vars[i])
  {
    var gp := if structReturn then 1 else 0;
    for k := nloc to vars.Length
      invariant gp == (if structReturn then 1 else 0) + (k - nloc)
      invariant forall i :: 0 <= i < nloc || k <= i < vars.Length ==> vars[i] == old(vars[i])
      invariant Marked(old(vars[..]), vars[..], nloc, structReturn, k)
    {
      if vars[k].isStruct {
        gp := gp + 1;
        vars[k] := vars[k].(offset := -2);
      } else {
        if gp < 1 {
          vars[k] := vars[k].(offset := -1, regParam := true);
        } else {
          vars[k] := vars[k].(offset := -2);
        }
        gp := gp + 1;
      }
    }
  }

  /** What the second loop finds at a variable it has not come to. */
  function Mark(was: seq<Var>, nloc: nat, structReturn: bool, i: nat): int
    requires i < |was|
  {
    if i < nloc then 0 else if InRegister(was, nloc, structReturn, i) then -1 else -2
  }

  /** The first `k` variables are placed, the others marked. */
  predicate PlacedTo(was: seq<Var>, vs: seq<Var>, nloc: nat, structReturn: bool, k: nat) {
    && SameVars(was, vs) && nloc <= |was|
    && (forall i :: 0 <= i < |vs| ==> vs[i].regParam == InRegister(was, nloc, structReturn, i))
    && (forall i :: 0 <= i < k && i < |vs| ==> vs[i].offset == Offset(was, nloc, structReturn, i))
    && (forall i :: k <= i < |vs| ==> vs[i].offset == Mark(was, nloc, structReturn, i))
  }

  lemma PlaceNext(was: seq<Var>, vs: seq<Var>, nloc: nat, structReturn: bool, k: nat, v: Var)
    requires k < |vs| && PlacedTo(was, vs, nloc, structReturn, k) && v == vs[k].(offset := Offset(was, nloc, structReturn, k))
    ensures PlacedTo(was, vs[k := v], nloc, structReturn, k + 1)
  {
    hide Offset;
  }

  /** assign_lvar_offsets for one function: `vars` holds its locals, then its parameters. */
  method AssignLvarOffsets(vars: array<Var>, nloc: nat, structReturn: bool) returns (stackSize: nat)
    requires nloc <= vars.Length
    requires forall i :: 0 <= i < vars.Length ==> vars[i].offset == 0 && !vars[i].regParam
    modifies vars
    ensures stackSize == Sizes(old(vars[..nloc]))
    ensures PlacedTo(old(vars[..]), vars[..], nloc, structReturn, vars.Length)
  {
    hide Sizes, Offset, InRegister;
    ghost var was := vars[..];
    MarkParams(vars, nloc, structReturn);
    LocalsUnmarked(was, nloc, structReturn);
    var top := 0;
    var retSkipped := false;
    stackSize := 0;
    SizesStart(was, nloc, structReturn);
    for k := 0 to vars.Length
      invariant PlacedTo(was, vars[..], nloc, structReturn, k)
      invariant k <= nloc ==> top == Sizes(was[..k]) && stackSize == top && !retSkipped
      invariant k > nloc ==> retSkipped && top == Sizes(was[..k]) + Skipped(was, nloc, structReturn) && stackSize == Sizes(was[..nloc])
    {
      ghost var vs := vars[..];
      SizesNext(was, k);
      OffsetIs(was, nloc, structReturn, k);
      assert vars[k].offset == vs[k].offset == Mark(was, nloc, structReturn, k) && vars[k].size == was[k].size;
      // no offset is positive before its turn: the check for one never skips a variable
      if vars[k].offset == -1 {
        stackSize := top;
        vars[k] := vars[k].(offset := top);
        top := top + vars[k].size + 4;
        retSkipped := true;
      } else if vars[k].offset == -2 {
        if !retSkipped {
          stackSize := top;
          top := top + 4 + (if structReturn then 2 else 0);
          retSkipped := true;
        }
        vars[k] := vars[k].(offset := top);
        top := top + vars[k].size;
      } else {
        vars[k] := vars[k].(offset := top);
        top := top + vars[k].size;
        stackSize := top;
      }
      PlaceNext(was, vs, nloc, structReturn, k, vars[k]);
      assert vars[..] == vs[k := vars[k]];
    }
    assert was[..nloc] == old(vars[..nloc]);
    assert was[..vars.Length] == was;
  }

  lemma LocalsUnmarked(vs: seq<Var>, nloc: nat, structReturn: bool)
    ensures forall i :: 0 <= i < nloc ==> !InRegister(vs, nloc, structReturn, i)
    ensures structReturn ==> forall i :: 0 <= i ==> !InRegister(vs, nloc, structReturn, i)
    ensures forall i :: nloc < i ==> !InRegister(vs, nloc, structReturn, i)
  {
  }

  /** What lies between the parameters in registers and those on the stack. */
  function Skipped(vs: seq<Var>, nloc: nat, structReturn: bool): nat { if structReturn then 6 else 4 }

  lemma SizesStart(vs: seq<Var>, nloc: nat, structReturn: bool)
    requires nloc <= |vs|
    ensures Sizes(vs[..0]) == 0
  {
  }

  lemma OffsetIs(vs: seq<Var>, nloc: nat, structReturn: bool, i: nat)
    requires i < |vs| && nloc <= |vs|
    ensures Offset(vs, nloc, structReturn, i) ==
            if i < nloc || InRegister(vs, nloc, structReturn, i) then Sizes(vs[..i]) else Sizes(vs[..i]) + Skipped(vs, nloc, structReturn)
  {
  }

  /** No two slots share a byte, and none touches the old @bp and the return address. */
  lemma SlotsApart(vs: seq<Var>, nloc: nat, structReturn: bool, i: nat, j: nat)
    requires i < j < |vs| && nloc <= |vs|
    ensures Offset(vs, nloc, structReturn, i) + vs[i].size <= Offset(vs, nloc, structReturn, j)
    ensures var saved := Sizes(vs[..nloc]) + RegSize(vs, nloc, structReturn);
      forall k :: k in {i, j} ==> Offset(vs, nloc, structReturn, k) + vs[k].size <= saved || saved + 4 <= Offset(vs, nloc, structReturn, k)
  {
    hide Sizes;
    SizesNext(vs, i);
    SizesMonotonic(vs, i + 1, j);
    SlotClear(vs, nloc, structReturn, i);
    SlotClear(vs, nloc, structReturn, j);
  }

  lemma SlotClear(vs: seq<Var>, nloc: nat, structReturn: bool, k: nat)
    requires k < |vs| && nloc <= |vs|
    ensures var saved := Sizes(vs[..nloc]) + RegSize(vs, nloc, structReturn);
      Offset(vs, nloc, structReturn, k) + vs[k].size <= saved || saved + 4 <= Offset(vs, nloc, structReturn, k)
  {
    hide Sizes;
    SizesNext(vs, k);
    if k < nloc {
      SizesMonotonic(vs, k + 1, nloc);
    } else {
      SizesMonotonic(vs, nloc, k);
      if nloc < k {
        SizesNext(vs, nloc);
        SizesMonotonic(vs, nloc + 1, k);
      }
    }
  }

  // ----- what the caller pushes -----

  /** An argument: its size in the parameter's type, and whether it is a structure. */
  datatype Argument = Argument(size: nat, isStruct: bool)

  predicate ByStack(args: seq<Argument>, retBuffer: bool, i: nat)
    requires i < |args|
  {
    !(i == 0 && !retBuffer && !args[0].isStruct)
  }

  /** An argument beyond the named ones is pushed as an int if it is a byte. */
  function PushedSize(args: seq<Argument>, named: nat, variadic: bool, i: nat): nat
    requires i < |args|
  {
    if !args[i].isStruct && variadic && i >= named && args[i].size == 1 then 2 else args[i].size
  }

  function StackBytes(args: seq<Argument>, named: nat, variadic: bool, retBuffer: bool, k: nat): nat
    requires k <= |args|
  {
    if k == 0 then 0
    else StackBytes(args, named, variadic, retBuffer, k - 1) +
         if ByStack(args, retBuffer, k - 1) then PushedSize(args, named, variadic, k - 1) else 0
  }

  /** The first loop of push_args: which arguments go on the stack, and how many bytes that is. */
  method PassArgs(args: seq<Argument>, named: nat, variadic: bool, retBuffer: bool) returns (byStack: seq<bool>, stack: nat)
    ensures |byStack| == |args| && forall i :: 0 <= i < |args| ==> byStack[i] == ByStack(args, retBuffer, i)
    ensures stack == StackBytes(args, named, variadic, retBuffer, |args|)
  {
    var regPassable := !retBuffer;
    byStack, stack := [], 0;
    for i := 0 to |args|
      invariant |byStack| == i && forall k :: 0 <= k < i ==> byStack[k] == ByStack(args, retBuffer, k)
      invariant regPassable == (!retBuffer && i == 0)
      invariant stack == StackBytes(args, named, variadic, retBuffer, i)
    {
      var isVaArg := i >= named && variadic;
      if args[i].isStruct {
        regPassable := false;
        byStack := byStack + [true];
        stack := stack + args[i].size;
      } else if regPassable {
        regPassable := false;
        byStack := byStack + [false];
      } else {
        byStack := byStack + [true];
        stack := stack + if isVaArg && args[i].size == 1 then 2 else args[i].size;
      }
    }
  }

  /** A call that fits the callee's parameters. */
  predicate Fits(args: seq<Argument>, vs: seq<Var>, nloc: nat) {
    && nloc <= |vs| && |args| >= |vs| - nloc
    && forall i :: nloc <= i < |vs| ==> args[i - nloc].size == vs[i].size && args[i - nloc].isStruct == vs[i].isStruct
  }

  /** Caller and callee agree: a stack parameter's offset is that of its bytes above the return address. */
  lemma {:induction false} OffsetsAgree(args: seq<Argument>, variadic: bool, structReturn: bool, vs: seq<Var>, nloc: nat, i: nat)
    requires Fits(args, vs, nloc) && i <= |vs| - nloc
    ensures i < |vs| - nloc ==> ByStack(args, structReturn, i) == !InRegister(vs, nloc, structReturn, nloc + i)
    ensures Sizes(vs[..nloc + i]) ==
            Sizes(vs[..nloc]) + StackBytes(args, |vs| - nloc, variadic, structReturn, i) +
            (if i > 0 && InRegister(vs, nloc, structReturn, nloc) then vs[nloc].size else 0)
    ensures i < |vs| - nloc && ByStack(args, structReturn, i) ==>
            Offset(vs, nloc, structReturn, nloc + i) ==
            Sizes(vs[..nloc]) + RegSize(vs, nloc, structReturn) + 4 + StackBytes(args, |vs| - nloc, variadic, structReturn, i)
  {
    hide Sizes;
    if i > 0 {
      OffsetsAgree(args, variadic, structReturn, vs, nloc, i - 1);
      SizesNext(vs, nloc + i - 1);
    }
  }

  // ----- pushing -----

  function Push1(b: Byte, s: State): State { s.(mem := s.mem[s.sp := b], sp := Wrap(s.sp - 1)) }

  /** The bytes end up in their order, lowest address first: the last is pushed first. */
  function PushBytes(bs: seq<Byte>, s: State): State
    decreases |bs|
  {
    if bs == [] then s else Push1(bs[0], PushBytes(bs[1..], s))
  }

  lemma {:induction false} Pushed(bs: seq<Byte>, s: State)
    requires |bs| <= s.sp
    ensures var t := PushBytes(bs, s);
      && t == s.(sp := s.sp - |bs|, mem := t.mem)
      && (forall i :: 0 <= i < |bs| ==> t.mem[t.sp + 1 + i] == bs[i])
      && forall a: Word :: a <= t.sp || a > s.sp ==> t.mem[a] == s.mem[a]
    decreases |bs|
  {
    if bs != [] {
      Pushed(bs[1..], s);
      var u := PushBytes(bs[1..], s);
      var t := PushBytes(bs, s);
      forall i | 0 <= i < |bs|
        ensures t.mem[t.sp + 1 + i] == bs[i]
      {
        if i > 0 {
          assert u.mem[u.sp + 1 + (i - 1)] == bs[1..][i - 1];
        }
      }
    }
  }

  /** push1, push and pushl push bytes in this sense. */
  lemma PushesBytes(s: State)
    ensures Exec([Psh(B)], s) == PushBytes([s.b], s)
    ensures Exec([Psh(B), Psh(A)], s) == PushBytes([s.a, s.b], s)
  {
    hide Step, Exec;
    Exec1(Psh(B), s);
    StepPush(B, s);
    Exec2(Psh(B), Psh(A), s);
    StepPush(A, Step(Psh(B), s));
    PushTwo(s.a, s.b, s);
  }

  lemma PushTwo(a: Byte, b: Byte, s: State)
    ensures PushBytes([b], s) == Push1(b, s) && PushBytes([a, b], s) == Push1(a, Push1(b, s))
  {
    assert [a, b][1..] == [b] && [b][1..] == [];
  }

  /** push_args2: the arguments that go on the stack, the last one first. */
  function PushAll(args: seq<seq<Byte>>, s: State): State
    decreases |args|
  {
    if args == [] then s else PushBytes(args[0], PushAll(args[1..], s))
  }

  function Lengths(args: seq<seq<Byte>>): nat { if args == [] then 0 else |args[0]| + Lengths(args[1..]) }

  lemma {:induction false} PushAllShape(args: seq<seq<Byte>>, s: State)
    requires Lengths(args) <= s.sp
    ensures var t := PushAll(args, s);
      t == s.(sp := s.sp - Lengths(args), mem := t.mem) && forall a: Word :: a <= t.sp || a > s.sp ==> t.mem[a] == s.mem[a]
    decreases |args|
  {
    if args != [] {
      PushAllShape(args[1..], s);
      Pushed(args[0], PushAll(args[1..], s));
    }
  }

  lemma {:induction false} LengthsBelow(args: seq<seq<Byte>>, i: nat)
    requires i < |args|
    ensures Lengths(args[..i]) + |args[i]| <= Lengths(args)
    ensures i > 0 ==> Lengths(args[..i]) == |args[0]| + Lengths(args[1..][..i - 1])
    decreases |args|
  {
    if i > 0 {
      assert args[..i][1..] == args[1..][..i - 1] && args[..i][0] == args[0];
      LengthsBelow(args[1..], i - 1);
    } else {
      assert args[..0] == [];
    }
  }

  /** Each argument's bytes lie above those of the ones before it. */
  lemma {:induction false} ArgumentAt(args: seq<seq<Byte>>, s: State, i: nat, k: nat)
    requires Lengths(args) <= s.sp && i < |args| && k < |args[i]|
    ensures Lengths(args[..i]) + k < Lengths(args)
    ensures var t := PushAll(args, s); t.sp == s.sp - Lengths(args) && t.mem[t.sp + 1 + Lengths(args[..i]) + k] == args[i][k]
    decreases |args|
  {
    hide PushBytes;
    var rest := args[1..];
    PushAllShape(args, s);
    PushAllShape(rest, s);
    LengthsBelow(args, i);
    var u, t := PushAll(rest, s), PushAll(args, s);
    Pushed(args[0], u);
    if i == 0 {
      assert args[..0] == [];
      assert t.mem[t.sp + 1 + k] == args[0][k];
    } else {
      ArgumentAt(rest, s, i - 1, k);
      assert t.mem[u.sp + 1 + Lengths(rest[..i - 1]) + k] == u.mem[u.sp + 1 + Lengths(rest[..i - 1]) + k];
    }
  }

  // ----- the prologue -----

  /** At least `n` bytes of stack above the zero page, and the return address in place. */
  predicate Room(s: State, n: nat) { LONG + 4 + n <= s.sp && s.sp + 2 < 65536 }

  const SAVE_BP: seq<Instr> := [Alu(Ld, A, M(Ext(BP + 1))), Psh(A), Alu(Ld, A, M(Ext(BP))), Psh(A)]

  /** The registers' parameter, where there is one: its bytes. */
  function RegBytes(r: nat, s: State): seq<Byte> {
    if r == 1 then [s.b]
    else if r == 2 then [s.a, s.b]
    else if r == 4 then [s.mem[LONG], s.mem[LONG + 1], s.mem[LONG + 2], s.mem[LONG + 3]]
    else []
  }

  /** What a frame of `l` bytes of locals and a register parameter of `r` looks like, entered from `s`. */
  predicate Entered(l: nat, r: nat, s: State, t: State) {
    var bp := s.sp - 1 - r - l;
    && bp > LONG + 4
    && t.sp == bp - 1 && t.x == bp && Word16At(t.mem, BP) == bp
    && t.mem[bp + l + r] == s.mem[BP] && t.mem[bp + l + r + 1] == s.mem[BP + 1]
    && (forall i :: 0 <= i < |RegBytes(r, s)| ==> t.mem[bp + l + i] == RegBytes(r, s)[i])
    && (forall a: Word :: a > s.sp ==> t.mem[a] == s.mem[a])
    && (forall a: Word :: a < bp + l && a != BP && a != BP + 1 && a != TMP1 ==> t.mem[a] == s.mem[a])
  }

  lemma SaveBp(s: State)
    requires Room(s, 2)
    ensures var t := Exec(SAVE_BP, s); t == PushBytes([s.mem[BP], s.mem[BP + 1]], s).(a := t.a, f := t.f)
  {
    hide Step, Exec, MoveFlags;
    Exec4(SAVE_BP[0], SAVE_BP[1], SAVE_BP[2], SAVE_BP[3], s);
    var s1 := Step(SAVE_BP[0], s);
    StepLoad(A, M(Ext(BP + 1)), s);
    var s2 := Step(Psh(A), s1);
    StepPush(A, s1);
    var s3 := Step(SAVE_BP[2], s2);
    StepLoad(A, M(Ext(BP)), s2);
    StepPush(A, s3);
    PushTwo(s.mem[BP], s.mem[BP + 1], s);
  }

  /** The code up to the locals. */
  function EnterCode(r: nat): seq<Instr> {
    if r == 0 then SAVE_BP
    else if r == 1 then SAVE_BP + [Psh(B)]
    else if r == 2 then [St(A, Ext(TMP1))] + (SAVE_BP + ([Alu(Ld, A, M(Ext(TMP1)))] + [Psh(B), Psh(A)]))
    else SAVE_BP + PUSHL
  }

  const PUSHL: seq<Instr> := PUSH_LOW + PUSH_HIGH
  const PUSH_LOW: seq<Instr> := [Alu(Ld, B, M(Ext(LONG + 3))), Psh(B), Alu(Ld, B, M(Ext(LONG + 2))), Psh(B)]
  const PUSH_HIGH: seq<Instr> := [Alu(Ld, B, M(Ext(LONG + 1))), Psh(B), Alu(Ld, B, M(Ext(LONG))), Psh(B)]

  lemma PushWordOf(at: Word, s: State)
    requires at + 1 < 65536 && Room(s, 2) && at + 1 < LONG + 4
    ensures var t := Exec([Alu(Ld, B, M(Ext(at + 1))), Psh(B), Alu(Ld, B, M(Ext(at))), Psh(B)], s);
      t == PushBytes([s.mem[at], s.mem[at + 1]], s).(b := t.b, f := t.f)
  {
    hide Step, Exec, MoveFlags;
    Exec4(Alu(Ld, B, M(Ext(at + 1))), Psh(B), Alu(Ld, B, M(Ext(at))), Psh(B), s);
    var s1 := Step(Alu(Ld, B, M(Ext(at + 1))), s);
    StepLoad(B, M(Ext(at + 1)), s);
    var s2 := Step(Psh(B), s1);
    StepPush(B, s1);
    var s3 := Step(Alu(Ld, B, M(Ext(at))), s2);
    StepLoad(B, M(Ext(at)), s2);
    StepPush(B, s3);
    PushTwo(s.mem[at], s.mem[at + 1], s);
  }

  lemma {:induction false} PushAppend(b1: seq<Byte>, b2: seq<Byte>, s: State)
    ensures PushBytes(b1 + b2, s) == PushBytes(b1, PushBytes(b2, s))
    decreases |b1|
  {
    if b1 == [] {
      assert b1 + b2 == b2;
    } else {
      assert (b1 + b2)[1..] == b1[1..] + b2 && (b1 + b2)[0] == b1[0];
      PushAppend(b1[1..], b2, s);
    }
  }

  /** The accumulators and the flags do not matter. */
  lemma {:induction false} PushSame(bs: seq<Byte>, s: State, t: State)
    requires t == s.(a := t.a, b := t.b, f := t.f)
    ensures PushBytes(bs, t) == PushBytes(bs, s).(a := t.a, b := t.b, f := t.f)
    decreases |bs|
  {
    if bs != [] {
      PushSame(bs[1..], s, t);
      var u := PushBytes(bs[1..], s);
      PushKeeps(bs[1..], t);
      assert PushBytes(bs, t) == Push1(bs[0], PushBytes(bs[1..], t));
      assert PushBytes(bs, s) == Push1(bs[0], u);
    }
  }

  lemma {:induction false} PushKeeps(bs: seq<Byte>, s: State)
    ensures var t := PushBytes(bs, s); t == s.(sp := t.sp, mem := t.mem)
    decreases |bs|
  {
    if bs != [] {
      PushKeeps(bs[1..], s);
    }
  }

  lemma PushedLong(s: State)
    requires Room(s, 4)
    ensures var t := Exec(PUSHL, s); t == PushBytes(RegBytes(4, s), s).(b := t.b, f := t.f)
  {
    hide Exec, PushBytes, Step;
    ExecAppend(PUSH_LOW, PUSH_HIGH, s);
    PushWordOf(LONG + 2, s);
    var s1 := Exec(PUSH_LOW, s);
    var low := [s.mem[LONG + 2], s.mem[LONG + 3]];
    Pushed(low, s);
    PushWordOf(LONG, s1);
    var p := PushBytes(low, s);
    PushSame([s.mem[LONG], s.mem[LONG + 1]], p, s1);
    PushAppend([s.mem[LONG], s.mem[LONG + 1]], low, s);
    assert RegBytes(4, s) == [s.mem[LONG], s.mem[LONG + 1]] + low;
    PushKeeps(RegBytes(4, s), s);
    PushKeeps(low, s);
  }

  /** The old @bp is pushed, then the register parameter. */
  predicate Saved(r: nat, s: State, t: State)
    requires Room(s, 2)
  {
    && t.sp == s.sp - 2 - r && t.x == s.x
    && t.mem[s.sp - 1] == s.mem[BP] && t.mem[s.sp] == s.mem[BP + 1]
    && (forall i :: 0 <= i < |RegBytes(r, s)| ==> t.sp + 1 + i < 65536 && t.mem[t.sp + 1 + i] == RegBytes(r, s)[i])
    && forall a: Word :: (a <= t.sp || a > s.sp) && a != TMP1 ==> t.mem[a] == s.mem[a]
  }

  lemma BpSaved(s: State)
    requires Room(s, 6)
    ensures var t := Exec(SAVE_BP, s); Saved(0, s, t) && t.b == s.b
  {
    hide Exec, PushBytes, Step;
    var saved := [s.mem[BP], s.mem[BP + 1]];
    SaveBp(s);
    Pushed(saved, s);
    var p := PushBytes(saved, s);
    assert p.mem[p.sp + 1 + 0] == saved[0] && p.mem[p.sp + 1 + 1] == saved[1];
    assert RegBytes(0, s) == [];
  }

  /** Pushing the parameter on top. */
  lemma SavedMore(r: nat, s: State, u: State, t: State)
    requires Room(s, 6) && Saved(0, s, u) && r in {1, 4} && RegBytes(r, u) == RegBytes(r, s) && |RegBytes(r, s)| == r
    requires t == PushBytes(RegBytes(r, s), u).(a := t.a, b := t.b, f := t.f)
    ensures Saved(r, s, t)
  {
    hide PushBytes, RegBytes;
    Pushed(RegBytes(r, s), u);
  }

  lemma EnterRuns(r: nat, s: State)
    requires r in {0, 1, 2, 4} && Room(s, 6)
    ensures StraightCode(EnterCode(r)) && Saved(r, s, Exec(EnterCode(r), s))
  {
    hide Exec, PushBytes, Step, Saved;
    if r == 2 {
      EnterWord(s);
    } else {
      BpSaved(s);
      var u := Exec(SAVE_BP, s);
      if r == 1 {
        ExecAppend(SAVE_BP, [Psh(B)], s);
        PushesBytes(u);
        SavedMore(1, s, u, Exec(EnterCode(1), s));
      } else if r == 4 {
        ExecAppend(SAVE_BP, PUSHL, s);
        RoomLeft(s, u);
        PushedLong(u);
        SavedMore(4, s, u, Exec(EnterCode(4), s));
      }
    }
  }

  lemma RoomLeft(s: State, u: State)
    requires Room(s, 6) && Saved(0, s, u)
    ensures Room(u, 4) && RegBytes(4, u) == RegBytes(4, s)
  {
  }

  lemma EnterWord(s: State)
    requires Room(s, 6)
    ensures Saved(2, s, Exec(EnterCode(2), s))
  {
    hide Exec, PushBytes, Step, MoveFlags;
    var c2, c3 := [Alu(Ld, A, M(Ext(TMP1)))], [Psh(B), Psh(A)];
    ExecAppend([St(A, Ext(TMP1))], SAVE_BP + (c2 + c3), s);
    Exec1(St(A, Ext(TMP1)), s);
    StoreA(s);
    var s1 := Step(St(A, Ext(TMP1)), s);
    ExecAppend(SAVE_BP, c2 + c3, s1);
    SaveBp(s1);
    var saved := [s.mem[BP], s.mem[BP + 1]];
    Pushed(saved, s1);
    var s2 := Exec(SAVE_BP, s1);
    var p := PushBytes(saved, s1);
    assert p.mem[p.sp + 1 + 0] == saved[0] && p.mem[p.sp + 1 + 1] == saved[1];
    ExecAppend(c2, c3, s2);
    Exec1(c2[0], s2);
    StepLoad(A, M(Ext(TMP1)), s2);
    var s3 := Step(c2[0], s2);
    PushesBytes(s3);
    Pushed([s3.a, s3.b], s3);
    var t := Exec(c3, s3);
    assert t.mem[t.sp + 1 + 0] == [s3.a, s3.b][0] && t.mem[t.sp + 1 + 1] == [s3.a, s3.b][1];
    assert RegBytes(2, s) == [s.a, s.b];
  }

  lemma StoreA(s: State)
    ensures Step(St(A, Ext(TMP1)), s) == s.(mem := s.mem[TMP1 := s.a], f := MoveFlags(s.a, s.f))
  {
  }

  // ----- room for the locals -----

  lemma StepDes(s: State)
    ensures Step(Inh(Des), s) == s.(sp := Wrap(s.sp - 1)) && Step(Inh(Ins), s) == s.(sp := Wrap(s.sp + 1))
  {
  }

  lemma {:induction false} DesMany(n: nat, s: State)
    requires n <= s.sp
    ensures StraightCode(Rep(n, Inh(Des))) && Exec(Rep(n, Inh(Des)), s) == s.(sp := s.sp - n)
  {
    hide Step, Exec;
    if n == 0 {
      ExecNone(s);
    } else {
      DesMany(n - 1, s);
      RepSnoc(n - 1, Inh(Des));
      ExecAppend(Rep(n - 1, Inh(Des)), [Inh(Des)], s);
      Exec1(Inh(Des), s.(sp := s.sp - (n - 1)));
      StepDes(s.(sp := s.sp - (n - 1)));
    }
  }

  /** X and @bp at the lowest byte of the frame, SP just below it. */
  predicate Based(l: nat, s: State, t: State) {
    var bp := s.sp + 1 - l;
    && bp > LONG + 4 && t.sp == bp - 1 && t.x == bp && Word16At(t.mem, BP) == bp
    && forall a: Word :: a != BP && a != BP + 1 ==> t.mem[a] == s.mem[a]
  }

  const SET_BP: seq<Instr> := [Inh(Tsx), Stx(Ext(BP))]

  lemma SmallFrame(l: nat, s: State)
    requires LONG + 4 + l <= s.sp && s.sp + 2 < 65536
    ensures StraightCode(Rep(l, Inh(Des)) + SET_BP) && Based(l, s, Exec(Rep(l, Inh(Des)) + SET_BP, s))
  {
    hide Step, Exec, MoveFlags16;
    DesMany(l, s);
    var s1 := s.(sp := s.sp - l);
    ExecAppend(Rep(l, Inh(Des)), SET_BP, s);
    Exec2(Inh(Tsx), Stx(Ext(BP)), s1);
    StepTsx(s1);
    StoreX(Ext(BP), Step(Inh(Tsx), s1));
    WordStored(s1.mem, BP, s1.sp + 1);
  }

  lemma StoreX(to: Loc, s: State)
    ensures Step(Stx(to), s) == s.(mem := Put16(s.mem, Addr(to, s), s.x), f := MoveFlags16(s.x, s.f))
    ensures Step(Sts(to), s) == s.(mem := Put16(s.mem, Addr(to, s), s.sp), f := MoveFlags16(s.sp, s.f))
  {
    hide MoveFlags16;
  }

  lemma WordStored(m: Mem, at: Word, w: Word)
    requires at + 1 < 65536
    ensures Word16At(Put16(m, at, w), at) == w
    ensures forall a: Word :: a != at && a != at + 1 ==> Put16(m, at, w)[a] == m[a]
  {
  }

  const LOAD_BP: seq<Instr> := [Sts(Ext(BP)), Alu(Ld, B, M(Ext(BP + 1))), Alu(Ld, A, M(Ext(BP)))]
  const KEEP_BP: seq<Instr> := [St(B, Ext(BP + 1)), St(A, Ext(BP)), Ldx(M16(Ext(BP))), Inh(Txs)]

  function BigFrameCode(l: nat): seq<Instr>
    requires l > 0
  {
    LOAD_BP + ([Alu(Sub, B, Imm(Machine.Low(l - 1))), Alu(Sbc, A, Imm(High(l - 1)))] + KEEP_BP)
  }

  lemma BpLoaded(s: State)
    ensures StraightCode(LOAD_BP)
    ensures var t := Exec(LOAD_BP, s); t == s.(a := t.a, b := t.b, f := t.f, mem := Put16(s.mem, BP, s.sp)) && D(t) == s.sp
  {
    hide Step, Exec, MoveFlags, MoveFlags16;
    Exec3(LOAD_BP[0], LOAD_BP[1], LOAD_BP[2], s);
    StoreX(Ext(BP), s);
    var s1 := Step(LOAD_BP[0], s);
    StepLoad(B, M(Ext(BP + 1)), s1);
    StepLoad(A, M(Ext(BP)), Step(LOAD_BP[1], s1));
  }

  lemma BpKept(s: State)
    requires D(s) > 0
    ensures StraightCode(KEEP_BP)
    ensures var t := Exec(KEEP_BP, s); t.x == D(s) && t.sp == D(s) - 1 && Word16At(t.mem, BP) == D(s) && t.mem == Put16(s.mem, BP, D(s))
  {
    hide Step, Exec, MoveFlags, MoveFlags16;
    Exec4(KEEP_BP[0], KEEP_BP[1], KEEP_BP[2], KEEP_BP[3], s);
    StepStore(B, Ext(BP + 1), s);
    var s1 := Step(KEEP_BP[0], s);
    StepStore(A, Ext(BP), s1);
    var s2 := Step(KEEP_BP[1], s1);
    StepLdx(M16(Ext(BP)), s2);
    StepTxs(Step(KEEP_BP[2], s2));
    DivModUnique(D(s), s.a, s.b, 256);
    PutBytes(s.mem, D(s));
  }

  lemma PutBytes(m: Mem, w: Word)
    ensures m[BP + 1 := w % 256][BP := w / 256] == Put16(m, BP, w) && Word16At(Put16(m, BP, w), BP) == w
  {
  }

  lemma Lowered(l: nat, s: State)
    requires 0 < l <= D(s)
    ensures StraightCode([Alu(Sub, B, Imm(Machine.Low(l - 1))), Alu(Sbc, A, Imm(High(l - 1)))])
    ensures var t := Exec([Alu(Sub, B, Imm(Machine.Low(l - 1))), Alu(Sbc, A, Imm(High(l - 1)))], s);
      OnlyAB(s, t) && D(t) == D(s) - (l - 1)
  {
    hide Exec, Step, D;
    WordSplit(l - 1);
    SmallMod(l - 1);
    SubPair(Imm(High(l - 1)), Imm(Machine.Low(l - 1)), l - 1, s);
    SmallMod(D(s) - (l - 1));
  }

  lemma BigFrame(l: nat, s: State)
    requires l > 0 && LONG + 4 + l <= s.sp && s.sp + 2 < 65536
    ensures StraightCode(BigFrameCode(l)) && Based(l, s, Exec(BigFrameCode(l), s))
  {
    hide Step, Exec, D, Put16, Word16At, Machine.Low, High;
    var sub := [Alu(Sub, B, Imm(Machine.Low(l - 1))), Alu(Sbc, A, Imm(High(l - 1)))];
    BpLoaded(s);
    var s1 := Exec(LOAD_BP, s);
    ExecAppend(LOAD_BP, sub + KEEP_BP, s);
    ExecAppend(sub, KEEP_BP, s1);
    Lowered(l, s1);
    BpKept(Exec(sub, s1));
    WordStored(s.mem, BP, s.sp);
    WordStored(s1.mem, BP, D(Exec(sub, s1)));
  }

  ghost predicate Enters(l: nat, r: nat, code: seq<Instr>) {
    StraightCode(code) && forall s :: Room(s, 6 + l) ==> Entered(l, r, s, Exec(code, s))
  }

  /** The prologue of a function that uses @bp; the -Os helpers aside. */
  method EmitPrologue(l: nat, r: nat) returns (code: seq<Instr>)
    requires r in {0, 1, 2, 4}
    ensures Enters(l, r, code)
  {
    hide Exec, Entered;
    code := EnterCode(r);
    ghost var enter := code;
    if l <= 5 {
      var n := 0;
      while n < l
        invariant 0 <= n <= l && code == enter + Rep(n, Inh(Des))
      {
        code := code + [Inh(Des)];
        n := n + 1;
      }
      code := code + SET_BP;
      assert code == enter + (Rep(l, Inh(Des)) + SET_BP);
    } else {
      code := code + BigFrameCode(l);
    }
    ghost var base := if l <= 5 then Rep(l, Inh(Des)) + SET_BP else BigFrameCode(l);
    forall s | Room(s, 6 + l)
      ensures StraightCode(code) && Entered(l, r, s, Exec(code, s))
    {
      EnteredAll(l, r, enter, base, s);
    }
    PrologueStraight(l, r, base);
  }

  lemma EnteredAll(l: nat, r: nat, enter: seq<Instr>, base: seq<Instr>, s: State)
    requires r in {0, 1, 2, 4} && Room(s, 6 + l) && enter == EnterCode(r)
    requires base == if l <= 5 then Rep(l, Inh(Des)) + SET_BP else BigFrameCode(l)
    ensures StraightCode(enter + base) && Entered(l, r, s, Exec(enter + base, s))
  {
    hide Exec, EnterCode, BigFrameCode, Word16At, Based, Entered;
    EnterRuns(r, s);
    var u := Exec(enter, s);
    ExecAppend(enter, base, s);
    if l <= 5 {
      SmallFrame(l, u);
    } else {
      BigFrame(l, u);
    }
    SavedAndBased(l, r, s, u, Exec(base, u));
  }

  lemma SavedAndBased(l: nat, r: nat, s: State, u: State, t: State)
    requires r in {0, 1, 2, 4} && Room(s, 6 + l) && Saved(r, s, u) && Based(l, u, t)
    ensures Entered(l, r, s, t)
  {
    hide Word16At;
    RegLength(r, s);
  }

  lemma RegLength(r: nat, s: State)
    requires r in {0, 1, 2, 4}
    ensures |RegBytes(r, s)| == r
  {
  }

  lemma BigStraight(l: nat)
    requires l > 0
    ensures StraightCode(BigFrameCode(l))
  {
  }

  lemma PrologueStraight(l: nat, r: nat, base: seq<Instr>)
    requires r in {0, 1, 2, 4} && base == if l <= 5 then Rep(l, Inh(Des)) + SET_BP else BigFrameCode(l)
    ensures StraightCode(EnterCode(r) + base)
  {
    hide Exec, EnterCode, BigFrameCode;
    var s := State(0, 0, 0, 65000, Flags(false, false, false, false), seq(65536, i => 0));
    EnterRuns(r, s);
    if l <= 5 {
      SmallFrame(l, s);
    } else {
      BigStraight(l);
    }
  }

  // ----- the epilogue -----

  /** Before it: @bp holds the frame's address, the old @bp lies above locals and register parameter, SP below the frame. */
  predicate Leaving(l: nat, r: nat, bp: Word, s: State) {
    && Word16At(s.mem, BP) == bp && LONG + 4 < bp && bp + l + r + 1 < 65536
    && LONG + 4 <= s.sp < bp
  }

  /** After it, but for the `rts`: SP and @bp are the caller's, A and B are kept where a value is returned in them. */
  predicate Left(l: nat, r: nat, bp: Word, inD: bool, s: State, t: State)
    requires bp + l + r + 1 < 65536
  {
    && t.sp == bp + l + r + 1
    && t.mem[BP] == s.mem[bp + l + r] && t.mem[BP + 1] == s.mem[bp + l + r + 1]
    && (inD ==> t.a == s.a && t.b == s.b)
    && forall a: Word :: a != BP && a != BP + 1 && a != s.sp ==> t.mem[a] == s.mem[a]
  }

  /** SP just below the old @bp; A and B as they should be. */
  predicate AtSaved(l: nat, r: nat, bp: Word, inD: bool, s: State, t: State)
    requires bp + l + r + 1 < 65536
  {
    && t.sp + 1 == bp + l + r
    && (inD ==> t.a == s.a && t.b == s.b)
    && forall a: Word :: a != BP && a != BP + 1 && a != s.sp ==> t.mem[a] == s.mem[a]
  }

  lemma StepLds(s: State)
    ensures Step(Lds(M16(Ext(BP))), s) == s.(sp := Word16At(s.mem, BP), f := MoveFlags16(Word16At(s.mem, BP), s.f))
  {
    hide MoveFlags16;
  }

  function SmallUnwind(n: nat): seq<Instr> {
    if n > 0 then [Lds(M16(Ext(BP)))] + Rep(n - 1, Inh(Ins)) else [Ldx(M16(Ext(BP))), Inh(Txs)]
  }

  lemma SmallUnwound(l: nat, r: nat, bp: Word, inD: bool, s: State)
    requires Leaving(l, r, bp, s)
    ensures StraightCode(SmallUnwind(l + r)) && AtSaved(l, r, bp, inD, s, Exec(SmallUnwind(l + r), s))
  {
    hide Step, Exec, MoveFlags16, Word16At;
    var n := l + r;
    if n > 0 {
      var i := Lds(M16(Ext(BP)));
      ExecAppend([i], Rep(n - 1, Inh(Ins)), s);
      Exec1(i, s);
      StepLds(s);
      InsMany(n - 1, Step(i, s));
      SmallMod(bp + n - 1);
    } else {
      Exec2(Ldx(M16(Ext(BP))), Inh(Txs), s);
      StepLdx(M16(Ext(BP)), s);
      BpRead(s);
      StepTxs(Step(Ldx(M16(Ext(BP))), s));
    }
  }

  lemma BpRead(s: State)
    ensures Rd16(M16(Ext(BP)), s) == Word16At(s.mem, BP)
  {
  }

  function SumLow(k: nat): seq<Instr> { [Alu(Ld, B, M(Ext(BP + 1))), Alu(Add, B, Imm(Machine.Low(k))), St(B, Ext(BP + 1))] }
  function SumHigh(k: nat): seq<Instr> { [Alu(Ld, B, M(Ext(BP))), Alu(Adc, B, Imm(High(k))), St(B, Ext(BP))] }

  lemma AddCarry(x: Byte, y: Byte, c: bool)
    ensures AddFlags(x, y, c).c == (x + y + Carry(c) >= 256)
  {
    hide Sgn8;
  }

  lemma LowSummed(k: nat, s: State)
    ensures StraightCode(SumLow(k))
    ensures var t := Exec(SumLow(k), s); var x := s.mem[BP + 1] + Machine.Low(k);
      t == s.(b := t.b, f := t.f, mem := s.mem[BP + 1 := Wrap8(x)]) && t.f.c == (x >= 256)
  {
    hide Step, Exec, MoveFlags, AddFlags, Wrap8, Machine.Low;
    var c := SumLow(k);
    Exec3(c[0], c[1], c[2], s);
    StepLoad(B, M(Ext(BP + 1)), s);
    var s1 := Step(c[0], s);
    StepAlu(Add, B, Imm(Machine.Low(k)), s1);
    AddCarry(s1.b, Machine.Low(k), false);
    StepStore(B, Ext(BP + 1), Step(c[1], s1));
    MovesKeepCarry();
  }

  lemma MovesKeepCarry()
    ensures forall r, f :: MoveFlags(r, f).c == f.c
  {
  }

  lemma HighSummed(k: nat, s: State)
    ensures StraightCode(SumHigh(k))
    ensures var t := Exec(SumHigh(k), s); var x := s.mem[BP] + High(k) + Carry(s.f.c);
      t == s.(b := t.b, f := t.f, mem := s.mem[BP := Wrap8(x)])
  {
    hide Step, Exec, MoveFlags, AddFlags;
    var c := SumHigh(k);
    Exec3(c[0], c[1], c[2], s);
    StepLoad(B, M(Ext(BP)), s);
    var s1 := Step(c[0], s);
    MovesKeepCarry();
    StepAlu(Adc, B, Imm(High(k)), s1);
    StepStore(B, Ext(BP), Step(c[1], s1));
  }

  /** The frame's height added to @bp in B alone. */
  lemma BpSummed(k: nat, bp: Word, s: State)
    requires Word16At(s.mem, BP) == bp && bp + k < 65536
    ensures StraightCode(SumLow(k) + SumHigh(k))
    ensures var t := Exec(SumLow(k) + SumHigh(k), s);
      && t == s.(b := t.b, f := t.f, mem := t.mem) && Word16At(t.mem, BP) == bp + k
      && forall a: Word :: a != BP && a != BP + 1 ==> t.mem[a] == s.mem[a]
  {
    hide Step, Exec;
    LowSummed(k, s);
    var u := Exec(SumLow(k), s);
    HighSummed(k, u);
    ExecAppend(SumLow(k), SumHigh(k), s);
    AddBytesTo(s.mem[BP], s.mem[BP + 1], k);
  }

  lemma AddBytesTo(hi: Byte, lo: Byte, k: nat)
    requires Cat(hi, lo) + k < 65536
    ensures var x := lo + Machine.Low(k); Cat(Wrap8(hi + High(k) + Carry(x >= 256)), Wrap8(x)) == Cat(hi, lo) + k
  {
    SmallMod(k);
    AddedWord(hi, lo, k);
    SmallMod(Cat(hi, lo) + k);
    WordSplit(k);
  }

  function BigUnwind(n: nat, inD: bool): seq<Instr>
    requires n > 0
  {
    (if inD then [Psh(B)] else []) + ((SumLow(n - 1) + SumHigh(n - 1)) + ((if inD then [Pul(B)] else []) + [Lds(M16(Ext(BP)))]))
  }

  lemma BigUnwound(l: nat, r: nat, bp: Word, inD: bool, s: State)
    requires Leaving(l, r, bp, s) && l + r > 0
    ensures StraightCode(BigUnwind(l + r, inD)) && AtSaved(l, r, bp, inD, s, Exec(BigUnwind(l + r, inD), s))
  {
    hide Step, Exec, MoveFlags16, SumLow, SumHigh;
    var k := l + r - 1;
    var c1, c2, c3, c4 := if inD then [Psh(B)] else [], SumLow(k) + SumHigh(k), if inD then [Pul(B)] else [], [Lds(M16(Ext(BP)))];
    ExecAppend(c1, c2 + (c3 + c4), s);
    var s1 := Exec(c1, s);
    ExecAppend(c2, c3 + c4, s1);
    var s2 := Exec(c2, s1);
    ExecAppend(c3, c4, s2);
    var s3 := Exec(c3, s2);
    if inD {
      Exec1(Psh(B), s);
      StepPush(B, s);
      Exec1(Pul(B), s2);
      StepPull(B, s2);
    } else {
      ExecNone(s);
      ExecNone(s2);
    }
    BpSummed(k, bp, s1);
    Exec1(c4[0], s3);
    StepLds(s3);
  }

  /** pulb; stab; pulb; stab: where the value is not in B. */
  const RESTORE_B: seq<Instr> := [Pul(B), St(B, Ext(BP))] + [Pul(B), St(B, Ext(BP + 1))]
  /** popx; stx @bp */
  const RESTORE_X: seq<Instr> := [Inh(Tsx), Ldx(M16(Idx(0)))] + ([Inh(Ins), Inh(Ins)] + [Stx(Ext(BP))])

  lemma PulledTo(at: Word, s: State)
    ensures var t := Exec([Pul(B), St(B, Ext(at))], s);
      t == s.(b := t.b, f := t.f, sp := Wrap(s.sp + 1), mem := s.mem[at := s.mem[Wrap(s.sp + 1)]])
  {
    hide Step, Exec, MoveFlags;
    Exec2(Pul(B), St(B, Ext(at)), s);
    StepPull(B, s);
    StepStore(B, Ext(at), Step(Pul(B), s));
  }

  lemma RestoredByB(l: nat, r: nat, bp: Word, s: State, u: State)
    requires bp + l + r + 1 < 65536 && bp > LONG + 4 && LONG + 4 <= s.sp < bp && AtSaved(l, r, bp, false, s, u)
    ensures StraightCode(RESTORE_B) && Left(l, r, bp, false, s, Exec(RESTORE_B, u))
  {
    hide Step, Exec;
    ExecAppend([Pul(B), St(B, Ext(BP))], [Pul(B), St(B, Ext(BP + 1))], u);
    PulledTo(BP, u);
    PulledTo(BP + 1, Exec([Pul(B), St(B, Ext(BP))], u));
  }

  lemma RestoredByX(l: nat, r: nat, bp: Word, s: State, u: State)
    requires bp + l + r + 1 < 65536 && bp > LONG + 4 && LONG + 4 <= s.sp < bp && AtSaved(l, r, bp, true, s, u)
    ensures StraightCode(RESTORE_X) && Left(l, r, bp, true, s, Exec(RESTORE_X, u))
  {
    hide Step, Exec, MoveFlags16;
    var c1, c2, c3 := [Inh(Tsx), Ldx(M16(Idx(0)))], [Inh(Ins), Inh(Ins)], [Stx(Ext(BP))];
    ExecAppend(c1, c2 + c3, u);
    Exec2(c1[0], c1[1], u);
    StepTsx(u);
    StepLdx(M16(Idx(0)), Step(Inh(Tsx), u));
    var s1 := Exec(c1, u);
    ExecAppend(c2, c3, s1);
    Exec2(Inh(Ins), Inh(Ins), s1);
    StepDes(s1);
    StepDes(Step(Inh(Ins), s1));
    var s2 := Exec(c2, s1);
    Exec1(c3[0], s2);
    StoreX(Ext(BP), s2);
    CatBytes(u.mem[bp + l + r], u.mem[bp + l + r + 1]);
  }

  ghost predicate Leaves(l: nat, r: nat, inD: bool, code: seq<Instr>) {
    StraightCode(code) && forall s, bp: Word :: Leaving(l, r, bp, s) ==> Left(l, r, bp, inD, s, Exec(code, s))
  }

  /** The epilogue before its `rts`. */
  method EmitEpilogue(l: nat, r: nat, inD: bool) returns (code: seq<Instr>)
    ensures Leaves(l, r, inD, code)
  {
    hide Exec, Leaving, Left, AtSaved;
    if l + r <= 10 {
      var npops := l + r - 1;
      if npops >= 0 {
        code := [Lds(M16(Ext(BP)))];
        for i := 0 to npops
          invariant code == [Lds(M16(Ext(BP)))] + Rep(i, Inh(Ins))
        {
          code := code + [Inh(Ins)];
        }
      } else {
        code := [Ldx(M16(Ext(BP))), Inh(Txs)];
      }
    } else {
      code := BigUnwind(l + r, inD);
    }
    ghost var unwind := code;
    assert unwind == if l + r <= 10 then SmallUnwind(l + r) else BigUnwind(l + r, inD);
    code := code + if inD then RESTORE_X else RESTORE_B;
    forall s, bp: Word | Leaving(l, r, bp, s)
      ensures bp + l + r + 1 < 65536 && Left(l, r, bp, inD, s, Exec(code, s))
    {
      LeftAll(l, r, bp, inD, unwind, s);
    }
    EpilogueStraight(l, r, inD, unwind);
  }

  lemma LeftAll(l: nat, r: nat, bp: Word, inD: bool, unwind: seq<Instr>, s: State)
    requires Leaving(l, r, bp, s) && unwind == if l + r <= 10 then SmallUnwind(l + r) else BigUnwind(l + r, inD)
    ensures bp + l + r + 1 < 65536 && Left(l, r, bp, inD, s, Exec(unwind + if inD then RESTORE_X else RESTORE_B, s))
  {
    hide Exec, Left, AtSaved, SmallUnwind, BigUnwind, Word16At;
    var last := if inD then RESTORE_X else RESTORE_B;
    ExecAppend(unwind, last, s);
    var u := Exec(unwind, s);
    if l + r <= 10 {
      SmallUnwound(l, r, bp, inD, s);
    } else {
      BigUnwound(l, r, bp, inD, s);
    }
    if inD {
      RestoredByX(l, r, bp, s, u);
    } else {
      RestoredByB(l, r, bp, s, u);
    }
  }

  lemma EpilogueStraight(l: nat, r: nat, inD: bool, unwind: seq<Instr>)
    requires unwind == if l + r <= 10 then SmallUnwind(l + r) else BigUnwind(l + r, inD)
    ensures StraightCode(unwind + if inD then RESTORE_X else RESTORE_B)
  {
  }

  // ----- a whole call -----

  /** What a body owes its frame: @bp and the saved @bp and the return address are as it found them, the stack is empty again. */
  predicate Behaved(bp: Word, from: int, t: State, u: State) {
    && Word16At(u.mem, BP) == bp && LONG + 4 <= u.sp < bp
    && forall a: Word :: from <= a < from + 4 ==> u.mem[a] == t.mem[a]
  }

  /** Prologue, any body that behaves, epilogue: the caller's SP and @bp are back, and the return address is where it was. */
  lemma CallReturns(l: nat, r: nat, inD: bool, enter: seq<Instr>, leave: seq<Instr>, s: State, u: State)
    requires Enters(l, r, enter) && Leaves(l, r, inD, leave)
    requires Room(s, 6 + l) && r in {0, 1, 2, 4} && Behaved(s.sp - 1 - r - l, s.sp - 1, Exec(enter, s), u)
    ensures Returned(inD, s, u, Exec(leave, u))
  {
    hide Exec, Entered, Leaving, Left, Behaved, Returned;
    var bp: Word := s.sp - 1 - r - l;
    var t := Exec(enter, s);
    assert Entered(l, r, s, t);
    ReadyToLeave(l, r, s, t, u);
    assert Leaving(l, r, bp, u);
    LeftReturns(l, r, inD, s, t, u, Exec(leave, u));
  }

  /** What the caller sees after the `rts`, but for the popped return address. */
  predicate Returned(inD: bool, s: State, u: State, t: State)
    requires Room(s, 6)
  {
    && t.sp == s.sp && t.mem[BP] == s.mem[BP] && t.mem[BP + 1] == s.mem[BP + 1]
    && t.mem[s.sp + 1] == s.mem[s.sp + 1] && t.mem[s.sp + 2] == s.mem[s.sp + 2]
    && (inD ==> t.a == u.a && t.b == u.b)
  }

  lemma ReadyToLeave(l: nat, r: nat, s: State, t: State, u: State)
    requires Room(s, 6 + l) && r <= 4 && Entered(l, r, s, t) && Behaved(s.sp - 1 - r - l, s.sp - 1, t, u)
    ensures Leaving(l, r, s.sp - 1 - r - l, u)
  {
    hide Word16At;
  }

  lemma LeftReturns(l: nat, r: nat, inD: bool, s: State, t: State, u: State, v: State)
    requires Room(s, 6 + l) && r <= 4 && Entered(l, r, s, t) && Behaved(s.sp - 1 - r - l, s.sp - 1, t, u)
    requires Left(l, r, s.sp - 1 - r - l, inD, u, v)
    ensures Returned(inD, s, u, v)
  {
    hide Word16At;
  }

  /** The bytes of a call, above those of its return address and of the frame. */
  lemma ArgumentsFound(args: seq<seq<Byte>>, l: nat, r: nat, enter: seq<Instr>, s: State, ret: seq<Byte>, i: nat, k: nat)
    requires Enters(l, r, enter)
    requires |ret| == 2 && r in {0, 1, 2, 4} && s.sp + 2 < 65536
    requires Lengths(args) + 2 <= s.sp && Room(PushBytes(ret, PushAll(args, s)), 6 + l)
    requires i < |args| && k < |args[i]|
    ensures var called := PushBytes(ret, PushAll(args, s));
      var t := Exec(enter, called);
      var at := t.x + l + r + 4 + Lengths(args[..i]) + k;
      at < 65536 && t.mem[at] == args[i][k]
  {
    hide Exec, PushBytes, PushAll, Lengths;
    var u := PushAll(args, s);
    var called := PushBytes(ret, u);
    PushAllShape(args, s);
    Pushed(ret, u);
    ArgumentAt(args, s, i, k);
    assert Entered(l, r, called, Exec(enter, called));
  }

  /** The argument that goes in registers is not pushed. */
  function InRegs(args: seq<Argument>, retBuffer: bool): nat { if |args| > 0 && !ByStack(args, retBuffer, 0) then 1 else 0 }

  /** `pushed` are the bytes of the stack arguments, in order, each as long as push_args2 makes it. */
  predicate IsPushed(args: seq<Argument>, named: nat, variadic: bool, retBuffer: bool, pushed: seq<seq<Byte>>) {
    var regs := InRegs(args, retBuffer);
    |pushed| + regs == |args| &&
    forall j :: 0 <= j < |pushed| ==> |pushed[j]| == PushedSize(args, named, variadic, j + regs)
  }

  lemma {:induction false} LengthsNext(args: seq<seq<Byte>>, n: nat)
    requires n < |args|
    ensures Lengths(args[..n + 1]) == Lengths(args[..n]) + |args[n]|
  {
    if n == 0 {
      assert args[..1][1..] == [] && args[..0] == [];
    } else {
      LengthsNext(args[1..], n - 1);
      assert args[..n + 1][1..] == args[1..][..n] && args[..n][1..] == args[1..][..n - 1];
    }
  }

  /** What the caller counts before an argument is what it has pushed for the arguments before it. */
  lemma {:induction false} PushedLengths(args: seq<Argument>, named: nat, variadic: bool, retBuffer: bool, pushed: seq<seq<Byte>>, i: nat)
    requires IsPushed(args, named, variadic, retBuffer, pushed)
    requires InRegs(args, retBuffer) <= i <= |args|
    ensures Lengths(pushed[..i - InRegs(args, retBuffer)]) == StackBytes(args, named, variadic, retBuffer, i)
  {
    hide PushedSize, Lengths;
    var regs := InRegs(args, retBuffer);
    if i > regs {
      PushedLengths(args, named, variadic, retBuffer, pushed, i - 1);
      LengthsNext(pushed, i - 1 - regs);
    } else {
      assert pushed[..0] == [];
      NoLengths();
      if regs == 1 {
        assert StackBytes(args, named, variadic, retBuffer, 0) == 0;
      }
    }
  }

  lemma NoLengths()
    ensures Lengths([]) == 0
  {
  }

  /**
   Caller and callee agree in memory: in the body of the callee, byte `k` of each stack argument lies at
   @bp plus the offset that assign_lvar_offsets gave its parameter, plus `k`.
   */
  lemma ArgumentsAtOffsets(args: seq<Argument>, variadic: bool, structReturn: bool, vs: seq<Var>, nloc: nat,
                           pushed: seq<seq<Byte>>, enter: seq<Instr>, s: State, ret: seq<Byte>, i: nat, k: nat)
    requires Fits(args, vs, nloc) && IsPushed(args, |vs| - nloc, variadic, structReturn, pushed)
    requires RegSize(vs, nloc, structReturn) in {0, 1, 2, 4}
    requires Enters(Sizes(vs[..nloc]), RegSize(vs, nloc, structReturn), enter)
    requires |ret| == 2 && s.sp + 2 < 65536 && Lengths(pushed) + 2 <= s.sp
    requires Room(PushBytes(ret, PushAll(pushed, s)), 6 + Sizes(vs[..nloc]))
    requires i < |vs| - nloc && ByStack(args, structReturn, i) && k < vs[nloc + i].size
    ensures var t := Exec(enter, PushBytes(ret, PushAll(pushed, s)));
      var at := t.x + Offset(vs, nloc, structReturn, nloc + i) + k;
      at < 65536 && t.mem[at] == pushed[i - InRegs(args, structReturn)][k]
  {
    hide Exec, PushBytes, PushAll, Lengths, Sizes, Offset, StackBytes, Enters, RegSize, Room;
    var j := i - InRegs(args, structReturn);
    PushedLengths(args, |vs| - nloc, variadic, structReturn, pushed, i);
    OffsetsAgree(args, variadic, structReturn, vs, nloc, i);
    ArgumentsFound(pushed, Sizes(vs[..nloc]), RegSize(vs, nloc, structReturn), enter, s, ret, j, k);
  }

  // ----- structures as arguments -----

  /** The bytes of a structure that X points to, up to 8 of them, the last first; its address came in D. */
  method PushStruct(size: nat) returns (code: seq<Instr>)
    requires size <= 8
    ensures StraightCode(code) && forall s :: StructApart(size, s) ==> StructPushed(size, s, Exec(code, s))
  {
    hide Exec, StructApart, StructPushed, StructFrom;
    code := [];
    assert forall s :: StructApart(size, s) ==> StructFrom(size, size, s, Exec(code, s)) by {
      forall s | StructApart(size, s)
        ensures StructFrom(size, size, s, Exec([], s))
      {
        StructNone(size, s);
      }
    }
    var i: nat := size;
    while i > 0
      invariant i <= size && StraightCode(code)
      invariant forall s :: StructApart(size, s) ==> StructFrom(size, i, s, Exec(code, s))
    {
      i := i - 1;
      ghost var before := code;
      code := code + [Alu(Ld, B, M(Idx(i))), Psh(B)];
      forall s | StructApart(size, s)
        ensures StructFrom(size, i, s, Exec(code, s))
      {
        ExecAppend(before, [Alu(Ld, B, M(Idx(i))), Psh(B)], s);
        assert StructFrom(size, i + 1, s, Exec(before, s));
        StructNext(size, i, s, Exec(before, s));
      }
    }
    forall s | StructApart(size, s)
      ensures StructPushed(size, s, Exec(code, s))
    {
      StructAll(size, s, Exec(code, s));
    }
  }

  /** The structure lies where pushing it does not reach. */
  predicate StructApart(size: nat, s: State) {
    s.x + size <= 65536 && size <= s.sp && (s.x + size <= s.sp + 1 - size || s.sp < s.x)
  }

  predicate StructPushed(size: nat, s: State, t: State)
    requires StructApart(size, s)
  {
    t == PushBytes(s.mem[s.x..s.x + size], s).(b := t.b, f := t.f)
  }

  predicate StructFrom(size: nat, i: nat, s: State, t: State)
    requires i <= size && StructApart(size, s)
  {
    t == PushBytes(s.mem[s.x + i..s.x + size], s).(b := t.b, f := t.f)
  }

  lemma StructNone(size: nat, s: State)
    requires StructApart(size, s)
    ensures StructFrom(size, size, s, Exec([], s))
  {
    assert s.mem[s.x + size..s.x + size] == [];
  }

  lemma StructNext(size: nat, i: nat, s: State, t: State)
    requires i < size <= 8 && StructApart(size, s) && StructFrom(size, i + 1, s, t)
    ensures StructFrom(size, i, s, Exec([Alu(Ld, B, M(Idx(i))), Psh(B)], t))
  {
    hide Exec, Step, PushBytes;
    var bs, more := s.mem[s.x + i + 1..s.x + size], s.mem[s.x + i..s.x + size];
    assert more[0] == s.mem[s.x + i] && more[1..] == bs;
    Pushed(bs, s);
    assert t.mem[s.x + i] == s.mem[s.x + i];
    Exec2(Alu(Ld, B, M(Idx(i))), Psh(B), t);
    StepLoad(B, M(Idx(i)), t);
    StepPush(B, Step(Alu(Ld, B, M(Idx(i))), t));
    PushMore(more, s);
    PushedMore(more[0], t, PushBytes(bs, s));
  }

  lemma PushMore(bs: seq<Byte>, s: State)
    requires bs != []
    ensures PushBytes(bs, s) == Push1(bs[0], PushBytes(bs[1..], s))
  {
  }

  lemma PushedMore(x: Byte, t: State, u: State)
    requires t == u.(b := t.b, f := t.f)
    ensures Push1(x, t) == Push1(x, u).(b := t.b, f := t.f)
  {
  }

  lemma StructAll(size: nat, s: State, t: State)
    requires StructApart(size, s) && StructFrom(size, 0, s, t)
    ensures StructPushed(size, s, t)
  {
    hide PushBytes;
  }
}
