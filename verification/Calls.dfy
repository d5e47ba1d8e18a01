/** The code that pushes the arguments of a call (push_args2 in codegen.c), and how many bytes it pushes. */
module Calls {
  import opened Arith
  import opened Machine
  import opened Muls
  import opened Frames

  /** Code that only computes and pushes. */
  predicate OnlyPushes(code: seq<Instr>) {
    forall i :: i in code ==> i.Psh? || i.Alu? || i.St? || i.Un? || i.Ldx?
  }

  function Pushes(code: seq<Instr>): nat {
    if code == [] then 0 else (if code[0].Psh? then 1 else 0) + Pushes(code[1..])
  }

  lemma {:induction false} PushesAppend(a: seq<Instr>, b: seq<Instr>)
    ensures Pushes(a + b) == Pushes(a) + Pushes(b)
  {
    if a == [] {
      assert a + b == b;
    } else {
      assert (a + b)[1..] == a[1..] + b;
      PushesAppend(a[1..], b);
    }
  }

  lemma StepLowers(i: Instr, s: State)
    requires i.Psh? || i.Alu? || i.St? || i.Un? || i.Ldx?
    ensures Step(i, s).sp == if i.Psh? then Wrap(s.sp - 1) else s.sp
  {
    hide MoveFlags, MoveFlags16, AddFlags, SubFlags, UnFlags, UnValue, Rd, Rd16;
  }

  /** SP falls by one for each push. */
  lemma {:induction false} Lowered(code: seq<Instr>, s: State)
    requires OnlyPushes(code) && Pushes(code) <= s.sp
    ensures StraightCode(code) && Exec(code, s).sp == s.sp - Pushes(code)
  {
    hide Step;
    if code != [] {
      assert code[0] in code && forall i :: i in code[1..] ==> i in code;
      StepLowers(code[0], s);
      Lowered(code[1..], Step(code[0], s));
    }
  }

  // ----- one argument -----

  /** The sizes a value can have, and a structure that is pushed byte by byte. */
  predicate Pushable(a: Argument) { if a.isStruct then a.size <= 8 else a.size in {1, 2, 4} }

  const TO_X: seq<Instr> := [St(B, Ext(TMP1 + 1)), St(A, Ext(TMP1)), Ldx(M16(Ext(TMP1)))]

  function StructCode(size: nat): seq<Instr>
    requires size <= 8
  {
    if size == 0 then [] else [Alu(Ld, B, M(Idx(size - 1))), Psh(B)] + StructCode(size - 1)
  }

  /** The cast of a byte to int, in B and then in D. */
  function Widen(unsigned: bool): seq<Instr> { if unsigned then [Un(Clr, A)] else EXTEND }

  /** What is printed behind the code that computes the argument; `beyond` the named parameters a byte becomes an int. */
  function ArgumentCode(a: Argument, unsigned: bool, beyond: bool): seq<Instr>
    requires Pushable(a)
  {
    if a.isStruct then (if a.size == 0 then [] else TO_X + StructCode(a.size))
    else if a.size == 1 then (if beyond then Widen(unsigned) + [Psh(B), Psh(A)] else [Psh(B)])
    else if a.size == 2 then [Psh(B), Psh(A)]
    else PUSHL
  }

  lemma {:induction false} StructPushes(size: nat)
    requires size <= 8
    ensures OnlyPushes(StructCode(size)) && Pushes(StructCode(size)) == size
  {
    if size > 0 {
      StructPushes(size - 1);
      var c := [Alu(Ld, B, M(Idx(size - 1))), Psh(B)];
      PushesAppend(c, StructCode(size - 1));
      assert c[1..] == [Psh(B)] && c[1..][1..] == [];
    }
  }

  lemma Counted(code: seq<Instr>)
    ensures |code| == 0 ==> Pushes(code) == 0
    ensures |code| == 1 ==> Pushes(code) == if code[0].Psh? then 1 else 0
    ensures |code| == 2 ==> Pushes(code) == (if code[0].Psh? then 1 else 0) + (if code[1].Psh? then 1 else 0)
  {
    if |code| == 2 {
      assert code[1..][1..] == [];
    }
  }

  lemma {:induction false} NonePushed(code: seq<Instr>)
    requires forall i :: i in code ==> !i.Psh?
    ensures Pushes(code) == 0
  {
    if code != [] {
      NonePushed(code[1..]);
    }
  }

  /** The code pushes as many bytes as push_args counts for the argument. */
  lemma ArgumentPushes(a: Argument, unsigned: bool, beyond: bool)
    requires Pushable(a)
    ensures OnlyPushes(ArgumentCode(a, unsigned, beyond))
    ensures Pushes(ArgumentCode(a, unsigned, beyond)) == if !a.isStruct && beyond && a.size == 1 then 2 else a.size
  {
    Counted([Psh(B)]);
    Counted([Psh(B), Psh(A)]);
    if a.isStruct {
      StructPushes(a.size);
      NonePushed(TO_X);
      PushesAppend(TO_X, StructCode(a.size));
    } else if a.size == 1 {
      NonePushed(Widen(unsigned));
      PushesAppend(Widen(unsigned), [Psh(B), Psh(A)]);
    } else if a.size == 4 {
      LongPushes();
    }
  }

  lemma LongPushes()
    ensures OnlyPushes(PUSHL) && Pushes(PUSHL) == 4
  {
    var h := [Alu(Ld, B, M(Ext(LONG + 3))), Psh(B)];
    var l := [Alu(Ld, B, M(Ext(LONG + 2))), Psh(B)];
    var g := [Alu(Ld, B, M(Ext(LONG + 1))), Psh(B)];
    var f := [Alu(Ld, B, M(Ext(LONG))), Psh(B)];
    assert PUSH_LOW == h + l && PUSH_HIGH == g + f;
    Counted(h);
    Counted(l);
    Counted(g);
    Counted(f);
    PushesAppend(h, l);
    PushesAppend(g, f);
    PushesAppend(PUSH_LOW, PUSH_HIGH);
  }

  /** A byte beyond the named parameters arrives as the int of its value. */
  lemma ByteBeyond(unsigned: bool, s: State)
    requires s.sp >= 2
    ensures var t := Exec(ArgumentCode(Argument(1, false), unsigned, true), s);
      && t.sp == s.sp - 2
      && Word16At(t.mem, t.sp + 1) == (if unsigned then s.b else Sgn8(s.b)) % 65536
  {
    hide Exec, Step, Sgn8, PushBytes, D;
    var w, push := Widen(unsigned), [Psh(B), Psh(A)];
    ExecAppend(w, push, s);
    if unsigned {
      Exec1(Un(Clr, A), s);
      StepClear(s);
    } else {
      ExtendedD(s);
    }
    var u := Exec(w, s);
    PushesBytes(u);
    Pushed([u.a, u.b], u);
    var bs, t := [u.a, u.b], Exec(push, u);
    assert t.mem[t.sp + 1 + 0] == bs[0] && t.mem[t.sp + 1 + 1] == bs[1];
    WordOf(u);
    SmallMod(s.b);
  }

  lemma StepClear(s: State)
    ensures Step(Un(Clr, A), s) == s.(a := 0, f := Step(Un(Clr, A), s).f)
  {
  }

  lemma WordOf(s: State)
    ensures D(s) == 256 * (s.a as int) + s.b
  {
  }

  // ----- all of them -----

  /** Code compiled elsewhere leaves the stack as it was. */
  ghost predicate Balanced(orc: Oracle) { forall id: nat, wide: bool, s: State :: Ask(orc, id, wide, s).sp == s.sp }

  /** The code falls through with SP lower by `n`. */
  ghost predicate Lowers(n: int, code: seq<Instr>) {
    forall orc, s: State :: Balanced(orc) && 0 <= n <= s.sp ==> LowersAt(orc, n, code, s)
  }

  predicate LowersAt(orc: Oracle, n: int, code: seq<Instr>, s: State) { Run(orc, code, s).Fall? && Run(orc, code, s).s.sp == s.sp - n }

  /** The bytes counted for argument `i`. */
  function BytesOf(args: seq<Argument>, named: nat, variadic: bool, retBuffer: bool, i: nat): nat
    requires i < |args|
  {
    if ByStack(args, retBuffer, i) then PushedSize(args, named, variadic, i) else 0
  }

  lemma OneArgument(args: seq<Argument>, named: nat, variadic: bool, retBuffer: bool, unsigned: bool, i: nat)
    requires i < |args| && Pushable(args[i])
    ensures var code := [Operand(i, args[i].size > 1)] +
              (if ByStack(args, retBuffer, i) then ArgumentCode(args[i], unsigned, variadic && i >= named) else []);
      Lowers(BytesOf(args, named, variadic, retBuffer, i), code)
  {
    hide Run, Exec;
    var push := if ByStack(args, retBuffer, i) then ArgumentCode(args[i], unsigned, variadic && i >= named) else [];
    var n, code := BytesOf(args, named, variadic, retBuffer, i), [Operand(i, args[i].size > 1)] + push;
    ArgumentPushes(args[i], unsigned, variadic && i >= named);
    Counted([]);
    forall orc, s: State | Balanced(orc) && 0 <= n <= s.sp
      ensures LowersAt(orc, n, code, s)
    {
      AskedFirst(orc, i, args[i].size > 1, push, s);
      var t := Ask(orc, i, args[i].size > 1, s);
      Lowered(push, t);
      RunStraight(orc, push, t);
    }
  }

  lemma AskedFirst(orc: Oracle, id: nat, wide: bool, rest: seq<Instr>, s: State)
    ensures Run(orc, [Operand(id, wide)] + rest, s) == Run(orc, rest, Ask(orc, id, wide, s))
  {
    assert ([Operand(id, wide)] + rest)[1..] == rest;
  }

  lemma LowersBoth(m: nat, n: nat, c: seq<Instr>, d: seq<Instr>)
    requires Lowers(m, c) && Lowers(n, d)
    ensures Lowers(m + n, c + d)
  {
    hide Run, Balanced;
    forall orc, s: State | Balanced(orc) && 0 <= m + n <= s.sp
      ensures LowersAt(orc, m + n, c + d, s)
    {
      assert LowersAt(orc, m, c, s);
      assert LowersAt(orc, n, d, Run(orc, c, s).s);
      RunAppend(orc, c, d, s);
    }
  }

  /** push_args2 on the arguments from `i` on, the last first: it pushes exactly the bytes that push_args counts for them. */
  method PushArgs(args: seq<Argument>, unsigned: seq<bool>, named: nat, variadic: bool, retBuffer: bool, i: nat) returns (code: seq<Instr>)
    requires |unsigned| == |args| && i <= |args| && forall k :: 0 <= k < |args| ==> Pushable(args[k])
    ensures StackBytes(args, named, variadic, retBuffer, i) <= StackBytes(args, named, variadic, retBuffer, |args|)
    ensures Lowers(StackBytes(args, named, variadic, retBuffer, |args|) - StackBytes(args, named, variadic, retBuffer, i), code)
    decreases |args| - i
  {
    hide Lowers, ArgumentCode, PushedSize, ByStack;
    if i == |args| {
      NothingLowers();
      return [];
    }
    var rest := PushArgs(args, unsigned, named, variadic, retBuffer, i + 1);
    var push := [Operand(i, args[i].size > 1)] + if ByStack(args, retBuffer, i) then ArgumentCode(args[i], unsigned[i], variadic && i >= named) else [];
    OneArgument(args, named, variadic, retBuffer, unsigned[i], i);
    LowersBoth(StackBytes(args, named, variadic, retBuffer, |args|) - StackBytes(args, named, variadic, retBuffer, i + 1),
      BytesOf(args, named, variadic, retBuffer, i), rest, push);
    code := rest + push;
  }

  lemma NothingLowers()
    ensures Lowers(0, [])
  {
    forall orc, s: State | Balanced(orc)
      ensures LowersAt(orc, 0, [], s)
    {
      RunNone(orc, s);
    }
  }

  /** The whole call: as many bytes are pushed as `push_args` returns, which is what the caller removes afterwards. */
  method PushCall(args: seq<Argument>, unsigned: seq<bool>, named: nat, variadic: bool, retBuffer: bool) returns (code: seq<Instr>, stack: nat)
    requires |unsigned| == |args| && forall k :: 0 <= k < |args| ==> Pushable(args[k])
    ensures Lowers(stack, code) && stack == StackBytes(args, named, variadic, retBuffer, |args|)
  {
    hide Lowers;
    var byStack;
    byStack, stack := PassArgs(args, named, variadic, retBuffer);
    code := PushArgs(args, unsigned, named, variadic, retBuffer, 0);
  }
}
