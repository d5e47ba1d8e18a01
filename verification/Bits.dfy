/** Numbers as strings of binary digits: powers of two and the bitwise operations. */
module Bits {
  import opened Arith

  function Pow2(n: nat): (p: nat)
    ensures p >= 1
  {
    if n == 0 then 1 else 2 * Pow2(n - 1)
  }

  lemma {:induction false} Pow2Add(m: nat, n: nat)
    ensures Pow2(m + n) == Pow2(m) * Pow2(n)
  {
    if m > 0 {
      Pow2Add(m - 1, n);
      assert Pow2(m + n) == 2 * Pow2(m - 1 + n);
      assert 2 * (Pow2(m - 1) * Pow2(n)) == 2 * Pow2(m - 1) * Pow2(n);
    }
  }

  lemma {:induction false} Pow2Monotonic(m: nat, n: nat)
    requires m <= n
    ensures Pow2(m) <= Pow2(n)
  {
    if m < n {
      Pow2Monotonic(m, n - 1);
    }
  }

  lemma Pow2Values()
    ensures Pow2(8) == 256 && Pow2(16) == 65536 && Pow2(32) == 0x1_0000_0000 && Pow2(64) == 0x1_0000_0000_0000_0000
  {
    assert Pow2(4) == 16;
    Pow2Add(4, 4);
    Pow2Add(8, 8);
    Pow2Add(16, 16);
    Pow2Add(32, 32);
  }

  datatype BitOp = BitAnd | BitOr | BitXor

  function Digit(op: BitOp, x: int, y: int): (d: nat)
    ensures d <= 1
  {
    match op
    case BitAnd => if x % 2 == 1 && y % 2 == 1 then 1 else 0
    case BitOr => if x % 2 == 1 || y % 2 == 1 then 1 else 0
    case BitXor => if x % 2 != y % 2 then 1 else 0
  }

  function Abs(x: int): nat { if x < 0 then -x else x }

  /** The bitwise operation on the low `n` binary digits, two's complement if negative. */
  function Bitwise(op: BitOp, x: int, y: int, n: nat): (r: nat)
    ensures r < Pow2(n)
    decreases Abs(x) + Abs(y) + n
  {
    if n == 0 then 0 else Digit(op, x, y) + 2 * Bitwise(op, x / 2, y / 2, n - 1)
  }

  /** A value which, combined with, keeps every digit: ones for `and`, zeros for `or` and `xor`. */
  function Neutral(op: BitOp, n: nat): nat { if op == BitAnd then Pow2(n) - 1 else 0 }

  lemma {:induction false} WithNeutral(op: BitOp, x: int, n: nat)
    requires 0 <= x < Pow2(n)
    ensures Bitwise(op, x, Neutral(op, n), n) == x
  {
    if n > 0 {
      assert Neutral(op, n) / 2 == Neutral(op, n - 1);
      WithNeutral(op, x / 2, n - 1);
    }
  }

  lemma {:induction false} AndZero(x: int, n: nat)
    ensures Bitwise(BitAnd, x, 0, n) == 0
    decreases n
  {
    if n > 0 {
      AndZero(x / 2, n - 1);
    }
  }

  lemma {:induction false} OrOnes(x: int, n: nat)
    ensures Bitwise(BitOr, x, Pow2(n) - 1, n) == Pow2(n) - 1
    decreases n
  {
    if n > 0 {
      assert (Pow2(n) - 1) / 2 == Pow2(n - 1) - 1;
      OrOnes(x / 2, n - 1);
    }
  }

  lemma {:induction false} XorOnes(x: int, n: nat)
    requires 0 <= x < Pow2(n)
    ensures Bitwise(BitXor, x, Pow2(n) - 1, n) == Pow2(n) - 1 - x
  {
    if n > 0 {
      assert (Pow2(n) - 1) / 2 == Pow2(n - 1) - 1;
      XorOnes(x / 2, n - 1);
    }
  }

  lemma DigitStep(d: nat, b: nat, p: nat)
    requires d <= 1 && p > 0
    ensures (d + 2 * b) % (2 * p) == d + 2 * (b % p)
  {
    var q, r := b / p, b % p;
    assert b == q * p + r;
    assert q * (2 * p) == 2 * (q * p);
    DivModUnique(d + 2 * b, q, d + 2 * r, 2 * p);
  }

  lemma {:induction false} AndMask(x: int, n: nat, k: nat)
    requires x >= 0 && k <= n
    ensures Bitwise(BitAnd, x, Pow2(k) - 1, n) == x % Pow2(k)
    decreases n
  {
    hide Bitwise;
    if k == 0 {
      AndZero(x, n);
    } else {
      AndMask(x / 2, n - 1, k - 1);
      AndMaskStep(x, Pow2(k - 1), n);
    }
  }

  lemma AndMaskStep(x: int, p: nat, n: nat)
    requires x >= 0 && n > 0 && p > 0 && Bitwise(BitAnd, x / 2, p - 1, n - 1) == (x / 2) % p
    ensures Bitwise(BitAnd, x, 2 * p - 1, n) == x % (2 * p)
  {
    DivModUnique(2 * p - 1, p - 1, 1, 2);
    DigitStep(x % 2, x / 2, p);
  }

  /** `x` with what is below `p` cleared. */
  function BelowCleared(x: int, p: nat): int
    requires p > 0
  {
    x - x % p
  }

  lemma {:induction false} AndUpper(x: int, n: nat, k: nat)
    requires 0 <= x < Pow2(n) && k <= n
    ensures Bitwise(BitAnd, x, Pow2(n) - Pow2(k), n) == BelowCleared(x, Pow2(k))
    decreases n
  {
    hide Bitwise, BelowCleared;
    if k == 0 {
      AndAll(x, n);
    } else {
      HalfBelow(x, Pow2(n - 1));
      Pow2Monotonic(k - 1, n - 1);
      AndUpper(x / 2, n - 1, k - 1);
      AndUpperStep(x, Pow2(n - 1), Pow2(k - 1), n, Pow2(n), Pow2(k));
    }
  }

  lemma AndAll(x: int, n: nat)
    requires 0 <= x < Pow2(n)
    ensures Bitwise(BitAnd, x, Pow2(n) - Pow2(0), n) == BelowCleared(x, Pow2(0))
  {
    WithNeutral(BitAnd, x, n);
  }

  lemma HalfBelow(x: int, p: nat)
    requires 0 <= x < 2 * p
    ensures 0 <= x / 2 < p
  {
  }

  lemma AndUpperStep(x: int, p: nat, q: nat, n: nat, p2: nat, q2: nat)
    requires x >= 0 && n > 0 && 0 < q <= p && p2 == 2 * p && q2 == 2 * q
    requires Bitwise(BitAnd, x / 2, p - q, n - 1) == BelowCleared(x / 2, q)
    ensures Bitwise(BitAnd, x, p2 - q2, n) == BelowCleared(x, q2)
  {
    DivModUnique(p2 - q2, p - q, 0, 2);
    DigitStep(x % 2, x / 2, q);
  }

  lemma NoDigits(op: BitOp, x: int, y: int)
    ensures Bitwise(op, x, y, 0) == 0
  {
  }

  /** Digit by digit is on the whole. */
  lemma {:induction false} BitwiseSplit(op: BitOp, x: int, y: int, k: nat, n: nat)
    ensures Bitwise(op, x, y, k + n) == Bitwise(op, x, y, k) + Pow2(k) * Bitwise(op, x / Pow2(k), y / Pow2(k), n)
    decreases k
  {
    hide Bitwise;
    if k == 0 {
      NoDigits(op, x, y);
    } else {
      BitwiseSplit(op, x / 2, y / 2, k - 1, n);
      SplitStep(op, x, y, k, n, Pow2(k - 1), Pow2(k));
    }
  }

  lemma SplitStep(op: BitOp, x: int, y: int, k: nat, n: nat, p: nat, p2: nat)
    requires k > 0 && p > 0 && p2 == 2 * p
    requires Bitwise(op, x / 2, y / 2, k - 1 + n) == Bitwise(op, x / 2, y / 2, k - 1) + p * Bitwise(op, x / 2 / p, y / 2 / p, n)
    ensures Bitwise(op, x, y, k + n) == Bitwise(op, x, y, k) + p2 * Bitwise(op, x / p2, y / p2, n)
  {
    hide Bitwise;
    DivTwice(x, p);
    DivTwice(y, p);
    var z := Bitwise(op, x / p2, y / p2, n);
    BitwiseStep(op, x, y, k, k + n, p * z);
    assert 2 * (p * z) == p2 * z;
  }

  lemma DivTwice(x: int, p: nat)
    requires p > 0
    ensures (x / 2) / p == x / (2 * p)
  {
    var h, b := x / 2, x % 2;
    var q, r := h / p, h % p;
    assert h == q * p + r;
    assert x == q * (2 * p) + (2 * r + b) by { assert q * (2 * p) == 2 * (q * p); }
    DivModUnique(x, q, 2 * r + b, 2 * p);
  }

  lemma BitwiseStep(op: BitOp, x: int, y: int, k: nat, m: nat, w: int)
    requires k > 0 && m > 0 && Bitwise(op, x / 2, y / 2, m - 1) == Bitwise(op, x / 2, y / 2, k - 1) + w
    ensures Bitwise(op, x, y, m) == Bitwise(op, x, y, k) + 2 * w
  {
  }
}
