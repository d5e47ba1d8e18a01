# The MC6800 C compiler: model and proofs

A C compiler for the 8-bit MC6800 and two pieces of its C runtime, modelled in Dafny and proved.
The model follows the source branch by branch. Code that updates state is a method or a class
(the emitters, the heap allocator, the hash table, the sort, the layouts); queries and rewrites
are functions. Three groups of modules:

**Generated code on a machine.** `Machine` is a small 6800: A, B, X, SP, the flags N, Z, V, C,
65536 bytes and the instructions the compiler prints, with forward labels. The code of an operand
that is compiled elsewhere is an oracle: any change of state that keeps SP. `Emitters` is the
compile-time cache of what X holds and of the stack depth; `Conditions`, `Branches`, `Jumps` and
`GenJump` compile conditions to branches on top of it. `Shifts`, `GenShifts` and `Muls` hold the shift,
multiply and halving sequences, `LongChains` the 32-bit byte chains, `Switches` the dispatch of `switch`,
`Fields`, `Layouts` and `BitFields` the bit-fields, `Frames` and `Calls` the calling convention and `Addresses`
the decomposition of addresses. What is proved is about running the printed instructions, for every
machine state the caller may be in.

**Rewrites of expressions.** `CTypes` and `Exprs` give expressions the value that the compiler's own constant
evaluator gives them, for all environments; `EvalLaws` says what these values are without the evaluator's own
operators. `Optimizer`, `Promotions`, `Strength`, `Divisions`, `Comparisons` and `Retyping` model the rules of
`optimize_expr` one by one and prove that each keeps that value, or exactly when it does. `Rules` names them;
`Rewriting` gives each its guard and closes them under subexpressions and sequences; `Traversal` is the recursion of
`optimize_expr` and `optimize_condition` with the rules in their order. It keeps a trail of what was applied: every
step in it is proved to be one of the rule recorded with it, so the value is kept always if those rules ask for
nothing, and otherwise wherever their guards hold. A guard is a condition on literals and types, or one of these on
values: the sum does not overflow where a 1 is dropped, what is shifted out is not negative, a shift count is a byte,
and what is cast in an arm of `?:` fits where its type is changed.

**Data structures and algorithms.** `Heap` is the first-fit allocator over raw memory, `HashMaps` the
tombstone table, `QSorts` the three-way quicksort, `Macros` the expander of object-like macros and
`StringLits` quoting and reading of string literals.

`Arith` and `Bits` hold the arithmetic all of them use; `Options` one datatype.

Where the code does not keep what it promises, the code is modelled as it is, a lemma names an input, and
another states exactly when the promise holds:

- `Traversal.ShiftIsLost`: in `a ? c >> 8 : 0` with a signed `char` c the arm becomes `(int)(c >> 8)`, is optimized
  again because it is a cast, and is 0 then, where -1 is due for a negative c. `Divisions.ShiftOutExact`
  says when a shift by the width or more may be replaced by 0.
- `Traversal.OneIsLost`: in `a ? (b ? (char)(x - 1) < y : 0) : 0` the comparison is narrowed to chars by the first
  visit and becomes `x <= y` by the second, although the subtraction in `char` may wrap without being an overflow
  of the source program. `Comparisons.DropOneLeftExact` and `DropOneRightExact` say when a 1 may be dropped.
- `Traversal.SignIsLost`: `(int)(unsigned char)(c + (a < b))` with a signed `char` c is -1 where 255 is due, as the
  sum takes the type of c and the cast to `unsigned char` goes. `Retyping.RetypeSumExact` says when that rule is
  right: where the byte has the very type of the cast. `Retyping.BoolOfTruthExact` and `RetypeArmExact` say it of
  the other rules that change a type in place.
- `Switches.BitfieldRangeMissed`: a case range of all 65536 values, on an unsigned bit-field narrower than
  16 bits, is never taken. `Switches.GenSwitch` dispatches if and only if no label is of that kind, and
  `Switches.MissedExactly` says which switches those are: the one label -32768 ... 32767 on such a bit-field.
- `Macros.DirectivesLostAndFound`: the first token of an expansion takes over the line-start mark of the
  macro name, so a directive that follows a macro with an empty body is missed, and a `#` out of a macro
  at the start of a line is taken for a directive, against ISO/IEC 9899:2011 section 6.10.3.4 paragraph 3.
  `Macros.EndingInNothing` shows that a body need not be empty for the loss, only end in nothing.
  `Macros.DirectiveMet` says for every table and every source exactly when the loop meets the source's first
  directive.
- `CTypes.RedundantIsExact`: `is_redundant_cast` says no although the inner cast could go, when both casts
  are to `_Bool`, and only then.

## Model

| member | source | states |
|---|---|---|
| `Emitters.Emitter.Push1` | codegen.c:80-83 | stores B on top of the stack, keeps X, A and B, and leaves both guesses (depth, X) right |
| `Emitters.Emitter.Push` | codegen.c:85-89 | stores D on the stack, low byte first pushed, keeps X and D; the depth guess grows by 2 |
| `Emitters.Emitter.Pop1` | codegen.c:91-94 | takes the top byte into B and keeps the rest |
| `Emitters.Emitter.PopA` | codegen.c:95-98 | takes the top byte into A and keeps the rest |
| `Emitters.Emitter.Pop` | codegen.c:99-103 | takes the word that `push` stored back into D |
| `Emitters.Emitter.PopX` | codegen.c:105-116 | takes the top word into X with A and B kept, and the guess about X is dropped |
| `Emitters.Emitter.InsN` | codegen.c:118-126 | raises SP by exactly n and changes nothing else |
| `Emitters.Emitter.RemoveArgs` | codegen.c:139-202 | on every path (through X, by `ins`, by the sum in the temporaries) SP rises by exactly n and A and B are kept |
| `Emitters.DropBySumCode` | codegen.c:190-201 | the byte-wise sum over @tmp1 adds n to SP with its carry, and restores A |
| `Emitters.DropByFrame` | codegen.c:151-170 | X moved down from the frame address by depth - n gives SP + n, and X is guessed to be the frame only when nothing is left |
| `Emitters.Emitter.InxDex` | codegen.c:353-364 | X moves by n modulo 65536; the guess about X survives only n = 0 |
| `Emitters.Emitter.LdxBp` | codegen.c:378-401 | X becomes the frame address, whether loaded, computed from SP and the depth, or guessed to be there already |
| `Emitters.Emitter.LdxNX` | codegen.c:403-412 | X becomes the word X points to; the guess is a local exactly when X was the frame address |
| `Emitters.Emitter.LdxBpNX` | codegen.c:425-435 | X becomes the local at the offset, with the load left out when X holds it |
| `Emitters.Emitter.LdxExt` | codegen.c:437-452 | X becomes the global, with the load left out when X holds it |
| `Emitters.Emitter.CpxExt` | codegen.c:454-461 | Z says whether X equals the global; nothing but flags changes |
| `Emitters.Emitter.StxExt` | codegen.c:463-472 | the global becomes X and X is guessed to hold it |
| `Emitters.Emitter.LdxImm` | codegen.c:486-505 | X becomes the address, with the load left out when X holds it |
| `Emitters.Emitter.TfrDx` | codegen.c:507-511 | X becomes D, through the temporaries only, and the guess about X is dropped |
| `Emitters.Emitter.InvalidateExt` | codegen.c:474-484 | the guess is dropped exactly when it is about this variable |
| `Emitters.Emitter.StoreExt` | codegen.c:474-484 | a store to a global with its invalidation leaves the guess about X right |
| `Emitters.StoreInvalidates` | codegen.c:474-484 | why: a guess about another global stays right, one about this global goes |
| `Emitters.Emitter.IxInvalidate` | ix_tracking.c:13-16 | the guess about X is dropped |
| `Emitters.Emitter.EmitOp` | codegen.c:80-511 | each emitter, chosen by an operation: the printed code does what the emitter is for, with X loaded or not, and both guesses stay right |
| `Emitters.EmitAll` | ix_tracking.c:7-16 | any sequence of emitter calls gives a log from which the printed code and all guesses can be read off |
| `Emitters.EveryRunIsTracked` | codegen.c:80-511 | over every run of the emitters every guess made is right, and the code with elided loads does what code that always reloads would do |
| `GenJump.GenJumpIfFalse` | gen_jump.c:641-991 | for every condition tree: the code evaluates it once in C order and leaves to the label exactly when it is zero, else falls through; SP, pushed temporaries and @bp are the same at both exits (sections 6.5.13 and 6.5.14 of ISO/IEC 9899:2011) |
| `GenJump.GenJumpIfTrue` | gen_jump.c:1544-1894 | the dual: it leaves exactly when the condition is not zero |
| `GenJump.GenEitherFalse` | gen_jump.c:701-709 | logical and: the right side runs only when the left is not zero, and either side may leave to the label |
| `GenJump.GenPastFalse` | gen_jump.c:690-700 | logical or: the right side is jumped over, unevaluated, when the left is not zero |
| `GenJump.GenEitherTrue` | gen_jump.c:1593-1601 | logical or in the dual: either side may leave, the right one runs only when the left is zero |
| `GenJump.GenPastTrue` | gen_jump.c:1602-1612 | logical and in the dual: the right side is jumped over, unevaluated, when the left is zero |
| `GenJump.GenCompareFalse` | gen_jump.c:724-985 | a comparison of bytes or words leaves exactly when it does not hold, for both signs and all six operators |
| `GenJump.GenCompareTrue` | gen_jump.c:1627-1889 | the dual for comparisons |
| `GenJump.GenComparison` | gen_jump.c:738-928 | the operands are evaluated once, in the order of the chosen path, and leave registers and flags ready for the branches |
| `GenJump.GenByteComparison` | gen_jump.c:126-197 | the byte operands end in B or as the flags of their difference |
| `GenJump.GenWideComparison` | gen_jump.c:738-928 | the word operands end as the flags of their difference, in X against a word, or in D against zero |
| `GenJump.GenSubtractPushed` | gen_jump.c:917-928 | the right operand pushed first, its word subtracted from the left one through X, the stack as before |
| `GenJump.GenMinusArray` | gen_jump.c:900-911 | the address of a local array is subtracted, so that D is zero exactly when both addresses are equal |
| `GenJump.GenCpx` | gen_jump.c:838-899 | a word in X compared by `cpx` with a constant, a global or an address |
| `GenJump.GenMasked` | gen_jump.c:108-124 | a byte under a constant mask is tested, with the mask applied directly or through the shortcut for 0 and 255 |
| `GenJump.GenValueCondition` | gen_jump.c:674-722 | a value that is no comparison leaves by whether it is zero, through X or through the registers |
| `GenJump.GenConstant` | gen_jump.c:651-656 | a constant condition is one jump or none |
| `Jumps.NotCondition` | gen_jump.c:658-660 | `!` compiles to the dual, with no code of its own |
| `Jumps.EitherSide` | gen_jump.c:701-709 | two conditions compiled to the same label make the logical and (or the logical or) with short circuit |
| `Jumps.PastTheRight` | gen_jump.c:690-700 | a condition that jumps past the second one makes the other connective, and X is unknown where both paths meet |
| `Jumps.CompareDone` | gen_jump.c:929-984 | operands made ready, then branches that decide from there, compile the comparison |
| `Jumps.SubtractPushed` | gen_jump.c:917-928 | subtracting through the stack gives the flags of left minus right |
| `Jumps.LoadIfElse` | codegen.c:5178-5193 | `c ? x : y` as an operand evaluates one arm only |
| `Branches.EqualByDifference` | gen_jump.c:930-939 | A+B with both carries is zero exactly when D is |
| `Branches.LessByDifference` | gen_jump.c:940-953 | C, or N against V, after the 16-bit subtraction orders the operands |
| `Branches.GreaterByDifference` | gen_jump.c:954-983 | Z covers the high byte alone: `>` and `<=` need the low byte tested as well |
| `Branches.ByTest` | gen_jump.c:199-235 | after an 8-bit compare one branch decides each operator, for both signs |
| `Branches.ByZeroInX` | gen_jump.c:742-792 | after `cpx #0` the branches decide each comparison with zero; N is the sign of X |
| `Branches.ByByteInB` | gen_jump.c:133-183 | a byte in B against zero |
| `Branches.WordBySubtractingOne` | gen_jump.c:827-831 | int <= 0 is int < 1, exact even where the subtraction overflows |
| `Branches.WordBySum` | gen_jump.c:807-833 | unsigned > 0 and <= 0 turned into != and == |
| `Branches.DifferenceFalse` | gen_jump.c:929-984 | the printed branches leave exactly when the comparison fails |
| `Branches.DifferenceTrue` | gen_jump.c:1833-1888 | and exactly when it holds |
| `Branches.TestedFalse` | gen_jump.c:199-235 | the 8-bit branches leave exactly when the comparison fails |
| `Branches.TestedTrue` | gen_jump.c:1090-1126 | and exactly when it holds |
| `Branches.ZeroXFalse` | gen_jump.c:742-792 | the branches on X against zero leave exactly when the comparison fails |
| `Branches.ZeroXTrue` | gen_jump.c:1647-1696 | and exactly when it holds |
| `Branches.WordZeroFalse` | gen_jump.c:794-834 | the branches on D against zero leave exactly when the comparison fails |
| `Branches.WordZeroTrue` | gen_jump.c:1698-1738 | and exactly when it holds |
| `Branches.ByteZeroFalse` | gen_jump.c:133-183 | the branches on B against zero leave exactly when the comparison fails |
| `Branches.ByteZeroTrue` | gen_jump.c:1025-1072 | and exactly when it holds |
| `Heap.Allocator.Malloc` | clibs/malloc.c:39-82 | refused exactly for a size of 0 or over 0xFFFB or where neither a free block nor room below SP - 1024 is left; else a pointer not in use, one new string of that size, no other string and no byte outside the heap changed |
| `Heap.Allocator.FindFree` | clibs/malloc.c:50-61 | the walk stops at the first free block that is large enough, or at the sentinel |
| `Heap.Allocator.Append` | clibs/malloc.c:63-81 | a block at the end moves the sentinel and keeps the margin under SP, without a wrapping sum |
| `Heap.Allocator.Calloc` | clibs/malloc.c:84-101 | a product over 0xFFFF is refused, else the string is all zero |
| `Heap.TooManyExact` | clibs/malloc.c:89-93 | the overflow guard refuses exactly the products that do not fit 16 bits |
| `Heap.Allocator.Realloc` | clibs/malloc.c:103-125 | null allocates, size 0 frees, refusal changes nothing, else the common prefix moves and all other strings stay |
| `Heap.Allocator.Free` | clibs/malloc.c:127-148 | one string goes, only the block header is written, null and a free block are let be |
| `Heap.Allocator.Merge` | clibs/malloc.c:141-147 | the run of free blocks behind is absorbed, total bytes and live strings unchanged |
| `Heap.AbsorbRun` | clibs/malloc.c:141-147 | exactly the maximal run of free blocks behind goes into one block of their summed size |
| `Heap.ReleaseConserves` | clibs/malloc.c:127-148 | freeing conserves the total bytes; what leaves the used blocks enters the free ones |
| `Heap.PayloadInside` | clibs/malloc.c:39-82 | every live string lies in its block, inside the heap, and its header says its capacity |
| `Heap.PayloadsApart` | clibs/malloc.c:39-82 | live blocks do not overlap, and a header lies between any two |
| `Heap.MallocEffect` | clibs/malloc.c:39-82 | what `malloc` writes, from any sound chain, leaves a sound chain and acts on the map of live strings as promised: refused, or one new string |
| `Heap.FreeEffect` | clibs/malloc.c:127-148 | what `free` writes leaves a sound chain without the string and with all others |
| `Heap.CallocEffect` | clibs/malloc.c:84-101 | what `calloc` writes leaves a sound chain with one new string of zeros, or nothing new |
| `Heap.ReallocEffect` | clibs/malloc.c:103-125 | what `realloc` writes leaves a sound chain with the string moved, freed, new or as it was, in all four branches |
| `Heap.CallEffect` | clibs/malloc.c:39-148 | every allowed call or client write leads from a sound chain to a sound chain |
| `Heap.Allocator.PerformAll` | clibs/malloc.c:39-148 | a list of calls made on the allocator goes through exactly the views of the trace, with the results the trace says, and ends valid |
| `Heap.OneCall` | clibs/malloc.c:39-148 | no call changes a string it is not about |
| `Heap.EveryRunIsSafe` | clibs/malloc.c:39-148 | over every trace of calls and client writes, each given by what it writes alone, a heap that starts as a chain of even blocks with its sentinel stays one, strings not written stay as they are, and the heap never grows into the margin under the highest SP |
| `Heap.WrittenByte` | clibs/malloc.c:39-82 | a client that writes inside a string changes that string and nothing else |
| `HashMaps.FnvHash` | hashmap.c:17-26 | the loop computes the FNV hash modulo 2^64 |
| `HashMaps.HashAppend` | hashmap.c:17-26 | one byte more multiplies the hash by the FNV prime modulo 2^64 and changes only its low digits, by exclusive or with the byte |
| `HashMaps.HashOfA` | hashmap.c:17-26 | the hash of "a" is the published 0xaf63bd4c8601b7be |
| `HashMaps.HashMap.Get` | hashmap.c:112-119 | the value the map holds for the key, null when it holds none |
| `HashMaps.HashMap.GetEntry` | hashmap.c:60-74 | found exactly when the key is in the map, at the entry with its value; the probe always ends and `unreachable` is never reached |
| `HashMaps.HashMap.Probe` | hashmap.c:84-102 | the entry that holds the key, or the first tombstone or empty slot, with the key then proved absent from every later slot |
| `HashMaps.HashMap.GetOrInsertEntry` | hashmap.c:76-110 | the key has an entry afterwards, with its old value if there was one, after a rehash when the table is crowded |
| `HashMaps.HashMap.Insert` | hashmap.c:84-107 | without a rehash, at most one more slot is used and tombstones do not grow |
| `HashMaps.HashMap.Put` | hashmap.c:121-128 | the map updated at the key, for new keys, known keys and reused tombstones |
| `HashMaps.HashMap.Delete` | hashmap.c:130-138 | the map without the key; every other key is still found |
| `HashMaps.HashMap.Rehash` | hashmap.c:28-53 | the map is the same, no tombstone is left, and the table is under the low watermark |
| `HashMaps.HashMap.Rebuilt` | hashmap.c:40-52 | the copy never calls `rehash` again: the new table has room for all keys |
| `HashMaps.HashMap.CopyTo` | hashmap.c:45-49 | the loop of puts carries over exactly the live entries |
| `HashMaps.HashMap.CountKeys` | hashmap.c:30-33 | the count of live entries is the size of the map |
| `HashMaps.HashMap.NewCapacity` | hashmap.c:35-38 | doubling stops at a power of two under the low watermark, without overflow of int |
| `HashMaps.LiveIsCardinality` | hashmap.c:30-33 | each key has one live entry, so the live entries are as many as the keys |
| `HashMaps.WrapIsHarmless` | hashmap.c:66-67 | the sum of hash and probe number may wrap at 2^64 without changing the slot, as the capacity divides it |
| `HashMaps.ProbeOf` | hashmap.c:66-67 | the cyclic probe reaches every slot |
| `HashMaps.Stops` | hashmap.c:66-73 | an empty slot stops every probe, so no probe runs through the whole table |
| `HashMaps.NotThere` | hashmap.c:66-71 | an empty slot on the way proves the key absent, tombstones or not |
| `HashMaps.CapacityFits` | hashmap.c:35-37 | one doubling step stays in int for as many keys as the model allows |
| `HashMaps.StillRoomy` | hashmap.c:80-82 | a table under the low watermark is not crowded, so the copy never rehashes |
| `HashMaps.NoMoreThanKeys` | hashmap.c:45-51 | while copying, the new table holds no tombstones |
| `QSorts.QSort` | clibs/qsort.c:85-94 | a sorted permutation for every array and every total preorder; a permutation even when `compar` is none |
| `QSorts.QSort3` | clibs/qsort.c:12-83 | sorts its range, touches nothing outside, and its recursion depth d has 2^d <= n |
| `QSorts.Round` | clibs/qsort.c:37-82 | one round of the loop shrinks the range, keeps what is settled and deepens only through a half |
| `QSorts.SmallerSide` | clibs/qsort.c:63-81 | only a side of at most half the elements is sorted by recursion |
| `QSorts.Partition` | clibs/qsort.c:37-61 | less, equal and greater parts around the pivot, as a permutation of the range |
| `QSorts.PartRest` | clibs/qsort.c:43-58 | the three pointers meet with every element placed |
| `QSorts.PartOne` | clibs/qsort.c:47-57 | one element goes to its part |
| `QSorts.SortFew` | clibs/qsort.c:16-35 | two and three elements sorted by exchanges |
| `QSorts.PermutedParted` | clibs/qsort.c:37-81 | sorting one side keeps the partition |
| `QSorts.MiddlePivot` | clibs/qsort.c:6-10 | the pivot lies inside a range of four elements or more |
| `CTypes.Fit` | parse.c:2143-2158 | the value lies in the range of its type |
| `CTypes.FitCong` | parse.c:2143-2158 | and is congruent to the value given, modulo the width (section 6.3.1.3 of ISO/IEC 9899:2011) |
| `CTypes.FitTwice` | parse.c:2143-2158 | cutting to a wider type first changes nothing |
| `CTypes.RedundantIsSafe` | type.c:121-149 | when the inner cast is called redundant, (T)(T2)x equals (T)x for every x of the source type |
| `CTypes.RedundantIsExact` | type.c:121-149 | when it is not, some x of the source type tells the two apart, except where both casts are to `_Bool`, where nothing does |
| `CTypes.ZeroKept` | optimize.c:1504-1559 | a cast to no smaller a type keeps being zero or not |
| `Exprs.Ranged` | parse.c:2180-2293 | the value of every typed expression lies in the range of its type |
| `Exprs.ComparesValues` | parse.c:2180-2293 | comparing as unsigned 64-bit numbers compares the values |
| `Exprs.RingCong` | parse.c:2180-2293 | plus, minus, times, and, or, xor respect congruence modulo the widths |
| `Exprs.RingNarrows` | parse.c:2180-2293 | their low bits need only the low bits of the operands |
| `Exprs.BitwiseLow` | parse.c:2180-2293 | the low k digits of a bit operation are those of the low digits |
| `EvalLaws.BitOperationDigits` | parse.c:2221-2226 | digit k of x & y, x ^ y and their like is 1 exactly where the digits k of both, of one or of either operand are, in every type |
| `EvalLaws.BitOperationSums` | parse.c:2221-2226 | inclusive or is x + y less x & y, and exclusive or x + y less twice that, modulo the width |
| `EvalLaws.BitOperationUnits` | parse.c:2221-2226 | x or 0, x or x, x ^ 0 and x & x are x; x & 0 and x ^ x are 0 |
| `EvalLaws.SumsAndProducts` | parse.c:2189-2196 | x + y, x - y and x * y lie in the range of the type and are what they are modulo the width; -x and ~x are what cancels x and what fills it up to -1 |
| `EvalLaws.Quotients` | parse.c:2197-2220 | x is y times the quotient plus the remainder, which is smaller than y and has the sign of x; the one quotient that does not fit wraps; by 0 there is none |
| `EvalLaws.ShiftsMean` | parse.c:2227-2232 | x << n is x * 2^n modulo the width; x >> n is the greatest number that, times 2^n, is not above x |
| `EvalLaws.ComparisonsMean` | parse.c:2233-2259 | comparisons compare the values, whatever the host compares, and `!` is 1 for 0 alone |
| `EvalLaws.ConnectivesMean` | parse.c:2262-2265 | and and or are 1 or 0, and the right side does not count where the left one decides |
| `EvalLaws.ConversionsMean` | parse.c:2266-2269 | a conversion to `_Bool` asks whether the value is 0; any other keeps the number modulo the width, in the range of the type |
| `EvalLaws.FoldedValue` | optimize.c:338-351 | the literal that a constant expression folds to has these values, in every environment |
| `EvalLaws.KnownBits` | optimize.c:338-351 | 5 and 1 fold to 1 under and, 5 under inclusive or, 4 under exclusive or |
| `EvalLaws.KnownQuotients` | optimize.c:338-351 | -7 / 2, -7 % 2 and -7 >> 1 fold to -3, -1 and -4 |
| `Optimizer.NewCastRight` | parse.c:274-298 | a built cast, dropped, retyped or made, has the value of the cast |
| `Optimizer.CastSameRight` | optimize.c:586-591 | a cast to a type of the same size and sign may go |
| `Optimizer.CastLogicRight` | optimize.c:602-610 | the results 0 and 1 of the logical operators need no conversion to a byte |
| `Optimizer.CastOfCastRight` | optimize.c:611-620 | (char)(int)x is (char)x |
| `Optimizer.CastUnaryRight` | optimize.c:621-630 | minus and complement may be done in bytes |
| `Optimizer.CastBitsToIntRight` | optimize.c:631-643 | bit operations of promoted bytes of one sign may be done in bytes |
| `Optimizer.CastBitsToCharRight` | optimize.c:644-656 | the same under a cast to char, for any signs |
| `Optimizer.CastPromotedRight` | optimize.c:658-670 | the cast to char goes below + - * of promoted bytes |
| `Optimizer.CastUintsRight` | optimize.c:671-680 | and below + - of bytes made unsigned |
| `Optimizer.CastNumLeftRight` | optimize.c:715-728 | and below + - with a literal on the left |
| `Optimizer.CastNumRightRight` | optimize.c:729-742 | and below + - * with a literal on the right |
| `Optimizer.CastShlRight` | optimize.c:743-753 | and below << |
| `Optimizer.CastRingRight` | optimize.c:754-774 | and below plus, minus, times and the bit operations of anything |
| `Optimizer.CastNarrowBitsRight` | optimize.c:807-819 | a cast to a smaller type, not `_Bool`, goes below bit operations |
| `Optimizer.CastCondRight` | optimize.c:820-826 | and into both arms of ?: |
| `Divisions.CastQuotientRight` | optimize.c:775-784 | and below / of bytes of one sign: -128 / -1 overflows to the byte the cast leaves |
| `Promotions.PromoteRight` | optimize.c:364-497 | every branch of the promotion remover keeps the value, with values in the range of their types |
| `Promotions.BothSigned` | optimize.c:454-481 | bit operations on sign-extended bytes give sign-extended bytes |
| `Promotions.NarrowIfFits` | optimize.c:364-497 | a bit operation may be done in a byte exactly because its value fits there |
| `Promotions.BitsOfUcharsRight` | optimize.c:1240-1279 | bit operations of operands known to be unsigned bytes |
| `Promotions.MaskByteRight` | optimize.c:1255-1264 | only the low byte counts under a mask of 0 to 255 |
| `Strength.ExactLog2` | optimize.c:145-156 | the exponent for exactly the powers of two, -1 for all other values |
| `Strength.AndPredecessor` | optimize.c:145-156 | v & (v - 1) is 0 exactly for powers of two |
| `Strength.MergeSumsRight` | optimize.c:968-1081 | (x +- c2) +- c merges, modulo the width |
| `Strength.ZeroMinusRight` | optimize.c:1056-1065 | 0 - x is -x |
| `Strength.MergeProductsRight` | optimize.c:1125-1134 | (x * c2) * c merges, the product wrapped to the type |
| `Strength.DistributeRight` | optimize.c:1135-1147 | (x +- c2) * c distributes |
| `Strength.SwapOperandsRight` | optimize.c:328-336 | operands that commute change places |
| `Strength.WhatCounts` | optimize.c:1148-1157 | literals in the range of their type, and those at least as wide as the operation, count as their value field |
| `Divisions.MulShiftRight` | optimize.c:1148-1157 | x * 2^k is x << k wherever the literal counts as 2^k modulo the width, whatever its own type |
| `Divisions.DivShiftRight` | optimize.c:1170-1180 | unsigned x / 2^k is x >> k |
| `Divisions.ModMaskRight` | optimize.c:1181-1192 | x % 2^k is x & (2^k - 1) for values that are not negative, also where the type of the literal makes it -2^k |
| `Divisions.DivideUcharsRight` | optimize.c:1193-1236 | / and % of unsigned bytes may be done in bytes, with the divisor not zero |
| `Divisions.ModCharsRight` | optimize.c:1204-1215 | % of signed bytes, the literal -1 and the value -128 included |
| `Divisions.ShiftZeroRight` | optimize.c:1392-1394 | a shift by 0 is none |
| `Divisions.ShiftOutExact` | optimize.c:1395-1400 | a shift by the width or more is 0 if and only if it is to the left or the value is not negative |
| `Divisions.ShiftOutRight` | optimize.c:1395-1400 | so it keeps the value for << and for unsigned operands |
| `Divisions.ShrPromotedRight` | optimize.c:1413-1424 | (int)c >> n is (int)(c >> n) |
| `Comparisons.SwapCompareRight` | optimize.c:244-262 | swapped operands with the mirrored operator |
| `Comparisons.SwapInOrder` | optimize.c:244-262 | the mirrored operator is right in every order of the operands, unordered included |
| `Comparisons.CanNegateExact` | optimize.c:158-171 | a comparison may be negated exactly when the negated operator is right in every order that can occur: with floating operands, which may be unordered, only for == and != |
| `Comparisons.NarrowBothRight` | optimize.c:1334-1339 | promotions of bytes of one sign dropped on both sides |
| `Comparisons.NarrowConstRight` | optimize.c:1340-1355 | a promoted byte against a literal that fits it |
| `Comparisons.NarrowUintRight` | optimize.c:1356-1365 | a byte made unsigned against a literal that fits it |
| `Comparisons.NextConstRight` | optimize.c:1366-1374 | x <= c is x < c + 1, x > c is x >= c + 1, below the maximum of the type |
| `Comparisons.DropOneLeftExact` | optimize.c:1294-1313 | the four rules on the left keep the truth value if and only if x +- 1 does not overflow the type of the sum |
| `Comparisons.DropOneRightExact` | optimize.c:1314-1332 | the four rules on the right likewise |
| `Comparisons.DeMorganRight` | optimize.c:199-262 | the negation pushed inward has the opposite truth value, for every tree, in the order of evaluation |
| `Comparisons.NotRuleValue` | optimize.c:865-904 | every rule for `!` gives its value |
| `Comparisons.LogicSkipRight` | optimize.c:909-912 | promotions of the operands of a logical and or or may go |
| `Comparisons.LogicConstRight` | optimize.c:913-945 | a constant on the left decides, or leaves the truth value of the right |
| `Comparisons.ConditionRight` | optimize.c:1504-1559 | the simplified condition has the same truth value, at every depth |
| `Retyping.BoolOfTruthExact` | optimize.c:598-601 | (_Bool)(a < b) without the cast always has its value, and keeps the type exactly where that of the comparison belongs to `_Bool` |
| `Retyping.RetypeSumExact` | optimize.c:681-713 | (char)((int)c + (a < b)) as a sum in the type of c keeps value and type if and only if that is the type of the cast |
| `Retyping.SumOfTruthsRight` | optimize.c:955-963 | (a < b) + (c < d) may be done in unsigned bytes |
| `Retyping.ShiftOfTruthRight` | optimize.c:1402-1412 | (a < b) << n for n up to 7 may be done in an unsigned byte |
| `Retyping.NotAsEqRight` | optimize.c:895-902 | !x is x == 0 |
| `Retyping.RetypeArmExact` | optimize.c:843-854 | an arm of `?:` that is a cast or a `?:` may get the type of the whole if and only if what is cast, converted to that type, is a value of its own |
| `Rewriting.FoldRight` | optimize.c:338-351 | a constant expression has its folded value in every environment; `EvalLaws.FoldedValue` says which one |
| `Rewriting.RuleRight` | optimize.c:499-1427 | each of the fifty rules keeps value and type of every typed expression for all values that meet its guard |
| `Rewriting.AskingNothing` | optimize.c:499-1427 | the rules without a guard keep them for all values |
| `Rewriting.StepRight` | optimize.c:499-1427 | one rule applied anywhere in an expression keeps its value and type where its guard holds |
| `Rewriting.EveryRunPreservesAt` | optimize.c:499-1427 | any sequence of steps keeps the value in the environment where the guards hold |
| `Rewriting.EveryRunPreserves` | optimize.c:499-1427 | any sequence of steps whose guards hold for all values keeps the value in every environment |
| `Traversal.TraversalKeeps` | optimize.c:499-1427 | for every typed integer expression each step of optimize_expr, second visits included, applies the rule recorded with it when its option or cost asks for it, and where the guards of those rules hold the result has value and type of the expression |
| `Traversal.TraversalPreserves` | optimize.c:499-1427 | where only rules without a guard were applied it has them for all values |
| `Traversal.ConditionTraversalKeeps` | optimize.c:1504-1559 | optimize_condition keeps the truth in both ways, with its calls of optimize_expr between the steps |
| `Traversal.WrapsWithFwrapv` | optimize.c:1293-1332 | with -fwrapv no 1 is ever dropped from a comparison, at any depth |
| `Traversal.ConstVisited` | optimize.c:338-351 | a constant expression is folded at once, to its value, and nothing else is done to it |
| `Traversal.VisitKeeps` | optimize.c:499-1427 | each visit extends the trail by applications of rules, and keeps value and type if their guards hold |
| `Traversal.VisitConditionKeeps` | optimize.c:1504-1559 | each condition likewise, for its truth |
| `Traversal.AtCastKeeps` | optimize.c:579-836 | all rules for a cast in their order, and what is optimized again |
| `Traversal.ArmKeeps` | optimize.c:843-854 | an arm that is a cast or a `?:` is retyped and optimized again, and keeps its value in the type of the whole |
| `Traversal.PromoteAllKeeps` | optimize.c:364-497 | the promotion remover, nested operations first |
| `Traversal.AtCompareKeeps` | optimize.c:1280-1385 | the chain of rules for a comparison, each on what the one before has left |
| `Traversal.AtShiftKeeps` | optimize.c:1386-1426 | the count made a byte and optimized, then the rules for shifts |
| `Traversal.FuelOnlyEnds` | optimize.c:499-1559 | the bound on the depth decides whether a visit ends, never what it makes |
| `Traversal.ShiftIsLost` | optimize.c:839-855 | an input whose arm is optimized twice and loses its sign, with the step that is wrong and its guard that fails |
| `Traversal.OneIsLost` | optimize.c:839-855 | an input whose comparison is optimized twice and loses its 1 although the subtraction wraps, with that step |
| `Traversal.SignIsLost` | optimize.c:681-713 | an input whose sum of a signed byte and a comparison is to be read unsigned and keeps its sign, with that step |
| `Macros.AddHideset` | preprocess.c:138-152 | every token of the body is copied with the hideset added and nothing else changed |
| `Macros.ExpandMacro` | preprocess.c:646-671 | expanded exactly when the token names a macro not hidden from it |
| `Macros.ExpandedOnce` | preprocess.c:646-671 | one expansion lowers the weight of the whole list by exactly 1 and keeps what the list stands for |
| `Macros.Preprocess` | preprocess.c:855-871 | the loop ends for every macro table, recursive or not; its output stands for what the input stands for, every name left of a macro is hidden (section 6.10.3.4 of ISO/IEC 9899:2011), and with what is left it is token by token what each token by itself comes to; a source with nothing to expand and no directive comes out equal to itself |
| `Macros.ExpandedEmits` | preprocess.c:646-671 | one expansion changes nothing of what comes out, token by token |
| `Macros.Untouched` | preprocess.c:855-871 | where nothing is to be expanded every token comes out equal to itself |
| `Macros.EmittedOrigin` | preprocess.c:646-671 | each token that comes out is, but for its marks, a token of the source or of a body, by a chain in which each next token stands in the body of the macro before |
| `Macros.InBody` | preprocess.c:138-152 | a token of a body has its own names, those of the macro and the name of the macro in its hideset, in that order |
| `Macros.HidesetOf` | preprocess.c:138-152 | so what comes out carries the names of all the macros it came out of |
| `Macros.FirstTakesMarks` | preprocess.c:661-670 | the first token that comes out takes line mark and space of the name, and nothing else about the output depends on them; if nothing comes out the token behind does |
| `Macros.SettledMeaning` | preprocess.c:855-871 | a list with no macro left to expand stands for its own texts |
| `Macros.DirectiveKept` | preprocess.c:646-671 | one expansion leaves the tokens behind it untouched if and only if its body is not empty or the marks of the next token agree with its own |
| `Macros.DirectiveMet` | preprocess.c:646-871 | over a whole run: the loop stops at the first directive of the source if and only if no expansion ending in nothing has overwritten the line mark of a `#` up to there and no macro reached at the start of a line expands to a leading `#` |
| `Macros.Passed` | preprocess.c:855-871 | tokens whose full expansion does not begin with `#` at the start of a line are passed as a whole, and what they do to the rest is to hand on the marks of the last name in them that stands for nothing |
| `Macros.EndingInNothing` | preprocess.c:646-671 | an input where a macro with a body that is not empty loses the directive on the next line |
| `Macros.DirectivesLostAndFound` | preprocess.c:646-671 | an input where a directive is lost and one where a directive is found |
| `StringLits.QuoteString` | preprocess.c:200-219 | the buffer has exactly the computed size and holds the quoted string and a NUL |
| `StringLits.StringLiteralEnd` | tokenize.c:233-242 | the first quote not escaped, or an error before a newline or the end |
| `StringLits.ReadEscapedChar` | tokenize.c:179-230 | octal, hexadecimal, letter and other escapes with the position behind them |
| `StringLits.DigitsMean` | tokenize.c:134-140 | a hexadecimal digit is one of 0123456789abcdef in either case and counts as its place there |
| `StringLits.HexRunMeans` | tokenize.c:192-203 | a hexadecimal run goes as far as it can and is the number it spells, in an int of the host |
| `StringLits.OctalRunMeans` | tokenize.c:180-190 | up to three octal digits, as many as there are, and the number they spell |
| `StringLits.HostIntMeans` | tokenize.c:198-200 | an int of the host keeps a number modulo 2^32 and lies in its range |
| `StringLits.EscapeMeans` | tokenize.c:179-230 | every escape: octal and hexadecimal numbers, BEL, BS, HT, LF, VT, FF, CR and ESC for a, b, t, n, v, f, r and e, and otherwise the byte itself |
| `StringLits.ReadStringLiteral` | tokenize.c:244-260 | the bytes of the literal, never more than the buffer holds |
| `StringLits.EscapeStaysInside` | tokenize.c:179-230 | an escape never runs over the closing quote |
| `StringLits.InsideReads` | tokenize.c:233-260 | the reader gives back a quoted string |
| `StringLits.QuotedReads` | tokenize.c:233-260 | `quote_string` and then the reader is the identity for every string without newline or NUL, whatever is around it, and the scanner stops at the closing quote |
| `GenShifts.GenShl` | codegen.c:714-794 | for every count, however large, the code leaves x * 2^n modulo the width, for every A, B and carry |
| `GenShifts.GenShr` | codegen.c:796-951 | for every count the logical or the arithmetic shift, saturating at 0 or -1 |
| `GenShifts.SignFilled` | codegen.c:920-931 | the high byte moved down with its sign over it |
| `GenShifts.LowToHigh` | codegen.c:778-785 | a shift by 8 or more is one of the low byte alone |
| `GenShifts.HighToLow` | codegen.c:871-882 | and to the right one of the high byte alone |
| `Shifts.RegExecRight` | codegen.c:714-951 | code without memory and index depends on A, B and the carry alone |
| `Shifts.DoubledD` | codegen.c:786-790 | n times aslb, rola multiply D by 2^n modulo 65536 |
| `Shifts.HalvedD` | codegen.c:848-852 | n times lsra, rorb divide D by 2^n |
| `Shifts.SignedHalvedD` | codegen.c:901-905 | n times asra, rorb divide D by 2^n as a signed number, rounding down |
| `Shifts.ShlB6Right` | codegen.c:732-737 | a byte rotated right through the carry instead of shifted left by 6, for either carry, A untouched |
| `Shifts.ShlB7Right` | codegen.c:738-742 | a byte rotated right twice through the carry instead of shifted left by 7, for either carry |
| `Shifts.ShlD6Right` | codegen.c:750-760 | a word shifted left by 6 by exchanging its bytes and rotating right |
| `Shifts.ShlD7Right` | codegen.c:761-767 | D becomes 128 D modulo 65536 by five instructions, whatever the carry was |
| `Shifts.ShlD14Right` | codegen.c:768-776 | D becomes 16384 D modulo 65536: the two low bits at the top |
| `Shifts.ShlD15Right` | codegen.c:768-776 | D becomes 32768 D modulo 65536: the low bit at the top |
| `Shifts.ShrD6Right` | codegen.c:853-863 | the digits of D / 64 end in A and the low two bits of B, before the exchange and the mask |
| `Shifts.ShrD7Right` | codegen.c:864-870 | D becomes D / 128 |
| `Shifts.ShrD14Right` | codegen.c:883-891 | D becomes D / 16384: the two top bits at the bottom |
| `Shifts.ShrD15Right` | codegen.c:883-891 | D becomes D / 32768: the top bit at the bottom |
| `Shifts.SarD7Right` | codegen.c:906-912 | D becomes D / 128 rounded down, as a signed number; the borrow spreads the sign |
| `Shifts.SarD14Right` | codegen.c:932-939 | D becomes D / 16384 rounded down, as a signed number |
| `Shifts.SarD15Right` | codegen.c:940-945 | D becomes -1 or 0, its sign |
| `Muls.GenMul16` | gen_mul.c:284-755 | the inlined sequence for a constant leaves the product modulo 65536, from memory or from D, and touches only the temporaries; inlined exactly for the constants listed |
| `Muls.GenMul8u` | gen_mul.c:6-189 | the product of an unsigned byte, as a byte or as a word |
| `Muls.GenMul8s` | gen_mul.c:191-271 | the product of a signed byte as a word |
| `Muls.MovesRight` | gen_mul.c:284-755 | doubling, adding, subtracting and negating in any order multiply by the factor they spell, modulo 65536 |
| `Muls.Moves16` | gen_mul.c:597-735 | the sequence of each constant spells that constant |
| `Muls.Moves8` | gen_mul.c:16-97 | the byte sequences of doublings and additions spell their constants |
| `Muls.MovesU` | gen_mul.c:98-176 | the sequences that widen an unsigned byte spell their constants |
| `Muls.MovesS` | gen_mul.c:200-258 | the sequences that widen a signed byte spell their constants |
| `Muls.Negated` | codegen.c:346-351 | nega, negb, sbca #0 negates D, zero and 0x8000 included |
| `Muls.Extended` | codegen.c:128-134 | the sign of B extended into A, for every A and carry |
| `Muls.HalveRight` | codegen.c:6109-6120 | signed division by 2 truncates toward zero |
| `Muls.GenDiv16` | codegen.c:6087-6124 | division by the inlined constants, both signs |
| `LongChains.ChainNext` | gen_direct_long.c:319-342 | one more byte extends the sum (or the bit operation) of the low bytes, carry included, for any number of bytes |
| `LongChains.ChainTotal` | gen_direct_long.c:319-342 | n bytes give the result modulo 256^n |
| `LongChains.SkipZero` | gen_direct_long.c:173-175 | leaving out leading zero bytes of an immediate loses no carry |
| `LongChains.ChainKeep` | gen_direct_long.c:218-220 | a byte that keeps its operand needs no code |
| `LongChains.ChainWhole` | gen_direct_long.c:221-224 | a byte that overwrites or complements its operand has the short form |
| `LongChains.Shortcuts` | gen_direct_long.c:208-213 | 0, 255 and complement are what the operation gives |
| `LongChains.AddSubImm` | gen_direct_long.c:164-187 | 32-bit + and - of an immediate, exactly modulo 2^32, in @long or at an index |
| `LongChains.BitopImm` | gen_direct_long.c:208-229 | 32-bit and, or, xor of an immediate, exactly, with the kept and whole bytes in their short forms |
| `LongChains.Direct2` | gen_direct_long.c:288-344 | 32-bit sum, difference, and, or, xor of two operands into @long, also where @long is one of them |
| `LongChains.ClearOfLong` | gen_direct_long.c:362-392 | an operand that is @long itself, or lies elsewhere, is read before it is overwritten |
| `Switches.CheckCases` | parse.c:1784-1813 | accepts exactly when every range fits the promoted type and no two converted labels overlap; a single label then lies in the range of that type and is congruent to the written one modulo its width, and nothing else changes |
| `Switches.NormalizedConverts` | parse.c:1801-1807 | a constant becomes the number of the type congruent to it, and stays as it is if it is one of the type |
| `Switches.CoversWhatIsMeant` | parse.c:1801-1807 | for every value of the type the label covers it if and only if the written constant converts to it or the written range holds it |
| `Switches.ChosenAsWritten` | parse.c:1799-1813 | of an accepted list the label chosen for a value is the one whose written constant converts to it or whose range holds it, and none otherwise |
| `Switches.LabelTypeHolds` | parse.c:1784-1798 | the type of the labels holds every value of the promoted type or bit-field |
| `Switches.ChosenUniquely` | parse.c:1809-1813 | in an accepted list the label that covers a value is the only one |
| `Switches.ChosenNowhere` | codegen.c:6866-6869 | no label covers it: default or break |
| `Switches.TestB` | codegen.c:6784-6787 | cmpb decides a byte label, negative ones included |
| `Switches.TestX` | codegen.c:6797-6800 | cpx decides a word label |
| `Switches.TestD` | codegen.c:6789-6796 | two byte compares decide a word label and keep the value |
| `Switches.TestFull` | codegen.c:6819-6824 | a range as wide as the type needs no test |
| `Switches.TestByteRange` | codegen.c:6826-6831 | subtract and borrow decide a byte range, signed or unsigned |
| `Switches.TestWordRange` | codegen.c:6832-6842 | and a word range; the flags survive the pulls |
| `Switches.GenCase` | codegen.c:6779-6864 | each label's code jumps exactly when its range covers the value and keeps the value otherwise, but for a range of 65536 values that is not the whole type, whose code is the test that never jumps |
| `Switches.GenSwitch` | codegen.c:6736-6870 | for every accepted switch: the chain ends at the label whose range covers the promoted value, else at default, else at break, for every value of the type, if and only if no label is a range of 65536 values that is not the whole type; with one, control always goes to default or break (section 6.8.4.2 of ISO/IEC 9899:2011) |
| `Switches.ChainMore` | codegen.c:6779-6864 | a test appended sends on only what no earlier label took |
| `Switches.BytesAgreeWithWords` | codegen.c:6741-6760 | the chain on bytes and the chain on promoted words go to the same label |
| `Switches.MissedExactly` | codegen.c:6819-6824 | an accepted switch has such a label if and only if it is on an unsigned bit-field of 1 to 15 bits in an int and its one label is -32768 ... 32767 |
| `Switches.MissedFails` | codegen.c:6832-6842 | its code does not dispatch: the value 0 should have gone to the label |
| `Switches.LongRangeNeverTaken` | codegen.c:6832-6842 | the count of such a range wraps to 0, and its test never jumps |
| `Switches.BitfieldRangeMissed` | codegen.c:6819-6842 | an accepted switch on an unsigned bit-field whose range covers every value and is never taken |
| `Fields.PutThenField` | gen_bitfield.c:51-85 | a field stored reads back its low digits |
| `Fields.PutElsewhere` | gen_bitfield.c:51-85 | a field that does not overlap is unchanged |
| `Fields.MergePuts` | gen_bitfield.c:68-79 | xor, and with the mask, xor stores the field |
| `Fields.OrPuts` | parse.c:1602-1609 | or stores into a field that is 0 |
| `Fields.StoredThenLoaded` | gen_bitfield.c:3-85 | storing and loading wraps to width and sign |
| `Fields.CutKeeps` | gen_bitfield.c:3-27 | a value in range survives |
| `Layouts.StructDecl` | parse.c:3360-3415 | for every member list: each member inside the struct, bit-fields in one 16-bit unit, members in order with no common bit, bytes aligned, and packed: each member at the first place behind the others that it may have; the size is exactly the end of the last unit or member (section 6.7.2.1 of ISO/IEC 9899:2011) |
| `Layouts.PlaceField` | parse.c:3378-3389 | a bit-field takes the next bits of the open unit if there are enough left and else begins the next unit at bit 0 |
| `Layouts.PlaceBytes` | parse.c:3390-3403 | any other member goes to the least aligned offset behind all others |
| `Layouts.FieldsInARow` | parse.c:3378-3390 | of two fields in a row the second has the next bit of the same unit if there is room, and else bit 0 of the next unit |
| `Layouts.FieldsSeparated` | parse.c:3372-3378 | a zero-width field between them makes the second begin the next unit |
| `Layouts.FirstMember` | parse.c:3360-3403 | the first member has offset 0, and a field bit 0 |
| `Layouts.BesideBytes` | parse.c:3390-3403 | next to bytes a field begins a unit right behind them, and bytes are at the least aligned offset |
| `Layouts.SizeIsEnd` | parse.c:3410-3413 | the size is where the last member ends, a field with its unit |
| `Layouts.StoredHeld` | parse.c:1568-1616 | a stored member reads back, cut to its size |
| `Layouts.StoredElsewhere` | parse.c:1568-1616 | every member laid out before or behind it is unchanged |
| `Layouts.AssignedHeld` | parse.c:1591-1616 | after storing all initializers each member holds its own, or what it held |
| `Layouts.ReadBuf` | parse.c:1568-1573 | the big-endian number in the bytes |
| `Layouts.WriteBuf` | parse.c:1575-1580 | the big-endian digits of the value, nothing else touched |
| `Layouts.OrStores` | parse.c:1601-1609 | read, or and write is an assignment while the field is 0 |
| `Layouts.WriteGvarData` | parse.c:1591-1616 | the static image equals the struct after assigning every initializer in order |
| `Layouts.ImageReads` | parse.c:1591-1616 | every member of the image reads its initializer, or 0 |
| `BitFields.AndI` | codegen.c:243-251 | and with a word constant, with its shortcuts for 0 and 255 |
| `BitFields.ExtractBitfield` | gen_bitfield.c:3-27 | from the unit in D the field's value, sign or zero extended, for every offset and width |
| `BitFields.AssignToBitfield` | gen_bitfield.c:51-85 | the unit gets the low bits of D at the field and keeps all others, and D ends as the value of the assignment |
| `BitFields.SignRuns` | gen_bitfield.c:8-25 | the test and fill of the sign bit, for widths below and above 8 |
| `BitFields.MergedUnit` | gen_bitfield.c:68-79 | the merged unit is the unit with the field stored |
| `Frames.MarkParams` | codegen.c:6954-6985 | exactly the first parameter is marked for a register, if it is no struct and no struct is returned |
| `Frames.AssignLvarOffsets` | codegen.c:6949-7014 | the offset of every local and parameter, and the stack size as the sum of the locals |
| `Frames.SlotsApart` | codegen.c:6949-7014 | no two slots overlap, and none covers the saved @bp and the return address |
| `Frames.PassArgs` | codegen.c:2504-2552 | which arguments go by stack, and how many bytes are pushed |
| `Frames.OffsetsAgree` | codegen.c:2504-2552 | the bytes a caller pushes before an argument are the distance the callee counts, for every signature |
| `Frames.ArgumentAt` | codegen.c:2425-2502 | pushed last to first, each byte of each argument is where the sum of the sizes before it says |
| `Calls.ArgumentPushes` | codegen.c:2425-2502 | the code for one argument pushes as many bytes as are counted for it, two for a byte beyond the named parameters |
| `Calls.ByteBeyond` | codegen.c:2425-2502 | such a byte arrives as the int of its value, sign- or zero-extended |
| `Calls.PushArgs` | codegen.c:2425-2502 | the recursion over the arguments, last first: from every state the code lowers SP by exactly the bytes counted for the arguments it pushes |
| `Calls.PushCall` | codegen.c:2504-2552 | the whole call pushes exactly the number of bytes returned, for prototyped and variadic calls, with and without a buffer for a structure result |
| `Frames.EmitPrologue` | codegen.c:7186-7239 | saves @bp and the register argument, makes room, points @bp and X at the lowest local, and keeps all memory above |
| `Frames.EmitEpilogue` | codegen.c:7297-7370 | SP and @bp as before the call, with the result kept in D or in @long, for every frame size |
| `Frames.BpSummed` | codegen.c:7327-7332 | the frame size added to the cell @bp byte by byte |
| `Frames.CallReturns` | codegen.c:7186-7370 | prologue, any well-behaved body and epilogue restore SP and @bp and keep the result |
| `Frames.ArgumentsFound` | codegen.c:7186-7239 | after the pushes, the call and the prologue each byte of each stack argument is at X plus locals, register argument, saved words and the arguments before it |
| `Frames.ArgumentsAtOffsets` | codegen.c:6949-7014 | caller and callee agree in memory: in the body of the callee byte k of each stack argument lies at @bp plus the offset assigned to its parameter plus k, for every fitting call and frame |
| `Frames.PushStruct` | codegen.c:2307-2330 | the loop pushes the bytes of a structure of up to 8 bytes in memory order, wherever it lies apart from the stack |
| `Frames.PushesBytes` | codegen.c:80-89 | push1 and push are pushes of one and two bytes in memory order |
| `Frames.PushedLong` | codegen.c:297-309 | the inlined push of @long is a push of its four bytes in memory order |
| `Addresses.FindAddrRight` | codegen.c:1036-1055 | the address of a node is base + index + offset, modulo 65536 |
| `Addresses.FindExprRight` | codegen.c:1058-1114 | the value of a node likewise, through casts, + and - on either side |
| `Addresses.AddressAddsUp` | codegen.c:1036-1114 | for every address expression a base is found and the three parts add up to it |
| `Addresses.GenBaseOff` | codegen.c:1116-1152 | for a global, local, direct or computed base and any index the code leaves D with D plus the returned offset equal to base + index + offset |
| `Addresses.GenAddrOff` | codegen.c:1184-1190 | for `*p` and `s.m` of any shape: taken apart and put together, the printed code leaves D with D plus the returned offset the address of the lvalue, and nothing else changed |
| `Addresses.LocalNear` | gen_direct.c:789-816 | a scalar local: ldx @bp, then off,x reads it, whatever was computed before |
| `Addresses.PointedNear` | gen_direct.c:847-877 | what a local pointer points to: ldx @bp, ldx k,x, then off,x reads it |
| `Addresses.BaseRuns` | codegen.c:982-1034 | loading or adding a base the code can name |
| `Addresses.TopAdded` | codegen.c:1141-1149 | an index kept on the stack is added and dropped |

## Left out

- Everything under -Os that calls a helper routine (`__popx`, `__ins_i`, `__sub_bp_b`, `__add_bp_b`, `__pulbp_rts`, `op32x`): the routines are assembly that is not part of this model.
- All other `jsr __...` helpers: 32-bit multiply, divide, compare and shift, floating point, `__mul16x16`, `__mul100`, `__inc32` and `__dec32`, the 32-bit forms without -O2, and `pushl` without -O2.
- The self-modifying sequences of -O3, alloca and variable-length frames outside the emitters, inline assembly.
- Conditions on long and float, floating code generation and folding: they need the hidden helpers and rounding.
- Double free of a block that has been merged away, and any other pointer the allocator did not give out: `free` has no defined meaning there.
- GenJump.GenJumpIfFalse: an operand that is not a literal, variable, address, promotion, `?:` or byte mask is `Other`, whose code is an oracle that computes a value and balances the stack; locals beyond offset 252 are reached by code of that kind. The stack has room for the pushed temporaries. Where the source pushes the right operand first the model's meaning does too, as C leaves that order open.
- Emitters.Emitter.TfrDx: the source prints `jsr __tfr_dx`, a helper that is not part of this model; its effect, D to X through a temporary, is modelled by three instructions, here and before a structure is pushed.
- GenJump.GenWideComparison: an operand that can be reached with X pointing to it (`test_addr_x_off`) and a structure member go through the oracle.
- GenJump.GenCpx: likewise.
- GenJump.GenValueCondition: likewise.
- Frames.ArgumentAt: constant longs and floats pushed at once, longs pushed through X and structures of more than 8 bytes go through sequences and helpers that are not modelled; their bytes are taken to be pushed in memory order.
- Emitters.EveryRunIsTracked: an indexed store is assumed not to hit the slot X was loaded from or the cell @bp, and two differently named globals not to overlap, as the tracking itself takes for granted.
- HashMaps.HashMap.Put: fewer than 2^23 keys, so that `used * 100` fits the host's int; the table works on key bytes, not on pointers to them.
- QSorts.QSort: elements are array positions, not byte addresses; a base lower than the element size, or an array ending at the last address, where pointer arithmetic wraps, is not covered.
- Divisions.ShiftOutRight: only for << and unsigned operands, as `ShiftOutExact` says.
- Strength.MergeSumsRight: the inner and outer sum have types of the same size and sign and the literals are of no smaller a type; the source tests neither and the parser builds nothing else.
- Strength.MergeProductsRight: the inner product is of no smaller a type than the outer one, and so are the literals.
- Strength.DistributeRight: likewise.
- Divisions.ModMaskRight: a literal of type `_Bool` is 0 or 1, as in `DivShiftRight`.
- Divisions.MulShiftRight: the value field is below 2^64, as the host's integers are.
- Promotions.MaskByteRight: the literal lies in the range of its type, here and in the rules on bytes and comparisons.
- Optimizer.CastNumLeftRight: a literal of type `_Bool` is 0 or 1; no other value would survive the retyping.
- Optimizer.CastNumRightRight: likewise.
- Divisions.ShiftZeroRight: the left operand is of no larger a type than the shift, as promotion leaves it.
- Comparisons.NextConstRight: the type of the literal reaches as far as that of the other side, as the usual arithmetic conversions leave it.
- Comparisons.LogicConstRight: the node is of type int, as C gives it.
- Comparisons.NotRuleValue: `!literal` becomes a literal of type `_Bool`; the value is kept, but its guard in `Rewriting` fails where the type is not that of the node.
- Retyping.BoolOfTruthExact: the value is always kept, but `Rewriting` asks for the type as well, as what stands around an expression reads it in its type; so the guard fails for `(_Bool)(a < b)` with a comparison of type int.
- Comparisons.ConditionRight: the calls of `optimize_expr` between the steps are in `Traversal`.
- Comparisons.DropOneLeftExact: -fwrapv not given, as the rule demands; operands fit the type of the sum.
- Comparisons.DropOneRightExact: likewise.
- Rewriting.EveryRunPreserves: the rules are applied in any order and place; their order is in `Traversal`.
- Traversal.TraversalKeeps: nodes are copied where the source updates them in place, so sharing of nodes is not modelled; pointers, floats, assignments, calls and the other kinds of nodes are left out; node_cost and what X can reach are parameters. That some depth is enough for every expression is not proved, nor that no rule that could be applied is missed.
- The reassociation of array bases and pointers in `optimize_expr`. Floating operands appear only as the outcome of a comparison.
- Macros.Preprocess: object-like macros from a fixed table; function-like macros, `#` and `##`, the dynamic macros and the directives themselves are not modelled, and the loop stops at a directive.
- StringLits.ReadStringLiteral: hexadecimal escapes wrap as 32-bit host integers do; wide and UTF literals are left out.
- Muls.GenMul8u: the constants without an inlined sequence, 100 among them, go to a helper.
- LongChains.AddSubImm: the constants 1 and -1 in @long go to a helper instead.
- Switches.GenSwitch: no 32-bit switch; that the code fails on a missed label is stated for case labels other than those of default and break, as new names are; `suba #n` with a negative n is taken as its low byte.
- Layouts.StructDecl: no unions and no flexible members; nested structs count as bytes; the alignment of the structure itself is left out.
- Layouts.WriteGvarData: integer members only; relocations, floats and nested initializers are left out, and the value of an initializer is given.
- BitFields.AssignToBitfield: the address is in X and the value in D when it starts, and the word on top of the stack does not overlap the unit.
- Calls.PushArgs: structures of more than 8 bytes, constant longs and floats pushed at once and longs pushed through X are left out; the code that computes an argument is an oracle that balances the stack.
- Frames.CallReturns: the body is any code that leaves @bp, its saved copy and the return address alone and balances the stack; interrupts are left out.
- Frames.OffsetsAgree: the arguments have the sizes of the parameters; unprototyped calls with other sizes are not covered.
- Frames.EmitPrologue: SP stays above the zero page with room for the frame; helpers of -Os are left out.
- Addresses.GenBaseOff: X is loaded even where it is known to hold the frame address already, which `EveryRunIsTracked` shows to be the same; the code of base and index computes a value without side effects on each other; the values behind the address of a variable-length array come from code of that kind.
- Addresses.GenAddrOff: the cases for `*p` and members; the values of base and index are those the operands have when the code starts.
- The grammar, error messages, I/O, options and the dump of the syntax tree: they would add easy members only.
