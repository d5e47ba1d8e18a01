/** The names of the rules of optimize_expr (optimize.c) on integers, as a trail of rewriting steps records them. */
module Rules {
  import opened CTypes

  datatype Rule =
    // on casts
    | CastSame | CastOfCast | CastUnary | CastBitsToInt | CastBitsToChar | CastPromoted | CastUints | CastNumLeft | CastNumRight
    | CastRing | CastShl | CastNarrowBits | CastCond | CastLogic | CastQuotient
    // on bit operations, sums, products, quotients and shifts
    | SwapOperands | Promote | BitsOfUchars | MaskByte | MergeSums | ZeroMinus | MergeProducts | Distribute
    | MulShift | DivShift | ModMask | DivideUchars | ModChars | ShiftZero | ShrPromoted
    // on comparisons and truth values
    | SwapCompare | NarrowBoth | NarrowConst | NarrowUint | NextConst | NotRule | NotAsEq | LogicSkip | LogicConst | Fold
    // right only where the variables have the right values
    | DropOneLeft | DropOneRight | ShiftOut | CountCast | SimplerCondition
    // those that give a node another type
    | BoolOfTruth | RetypeSum | SumOfTruths | ShiftOfTruth | RetypeArm(ty: Type)
}
