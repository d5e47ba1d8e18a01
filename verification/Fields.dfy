/** Bit-fields as digits of a 16-bit unit, counted from the least significant one. */
module Fields {
  import opened Arith
  import opened Bits

  /** The field of `w` digits from digit `off` on. */
  function Field(y: int, off: nat, w: nat): (r: nat)
    ensures r < Pow2(w)
    decreases off + w
  {
    if off > 0 then Field(y / 2, off - 1, w)
    else if w == 0 then 0
    else y % 2 + 2 * Field(y / 2, 0, w - 1)
  }

  /** The unit with that field replaced by the low digits of `v`. */
  function Put(y: int, off: nat, w: nat, v: int): int
    decreases off + w
  {
    if off > 0 then y % 2 + 2 * Put(y / 2, off - 1, w, v)
    else if w == 0 then y
    else v % 2 + 2 * Put(y / 2, 0, w - 1, v / 2)
  }

  /** What is stored is read back, cut to the width. */
  lemma {:induction false} PutThenField(y: int, off: nat, w: nat, v: int)
    ensures Field(Put(y, off, w, v), off, w) == Field(v, 0, w)
    decreases off + w
  {
    if off > 0 {
      PutThenField(y / 2, off - 1, w, v);
    } else if w > 0 {
      PutThenField(y / 2, 0, w - 1, v / 2);
    }
  }

  /** Storing a field changes no field apart from it. */
  lemma {:induction false} PutElsewhere(y: int, off: nat, w: nat, v: int, off2: nat, w2: nat)
    requires off + w <= off2 || off2 + w2 <= off
    ensures Field(Put(y, off, w, v), off2, w2) == Field(y, off2, w2)
    decreases off + w + off2 + w2
  {
    if off > 0 && off2 > 0 {
      PutElsewhere(y / 2, off - 1, w, v, off2 - 1, w2);
    } else if off > 0 {
      if w2 > 0 {
        PutElsewhere(y / 2, off - 1, w, v, 0, w2 - 1);
      }
    } else if w > 0 && off2 > 0 {
      PutElsewhere(y / 2, 0, w - 1, v / 2, off2 - 1, w2);
    }
  }

  lemma {:induction false} PutBound(y: int, off: nat, w: nat, v: int, n: nat)
    requires 0 <= y < Pow2(n) && off + w <= n
    ensures 0 <= Put(y, off, w, v) < Pow2(n)
    decreases off + w
  {
    if off > 0 {
      PutBound(y / 2, off - 1, w, v, n - 1);
    } else if w > 0 {
      PutBound(y / 2, 0, w - 1, v / 2, n - 1);
    }
  }

  // ----- by arithmetic -----

  lemma {:induction false} LowField(y: int, w: nat)
    ensures Field(y, 0, w) == y % Pow2(w)
    decreases w
  {
    if w > 0 {
      LowField(y / 2, w - 1);
      LowStep(y, Pow2(w - 1));
    } else {
      assert y % 1 == 0;
    }
  }

  lemma LowStep(y: int, p: nat)
    requires p > 0
    ensures y % (2 * p) == y % 2 + 2 * ((y / 2) % p)
  {
    var h := y / 2;
    var q, r := h / p, h % p;
    assert h == q * p + r;
    assert q * (2 * p) == 2 * (q * p);
    DivModUnique(y, q, y % 2 + 2 * r, 2 * p);
  }

  lemma {:induction false} FieldIs(y: int, off: nat, w: nat)
    ensures Field(y, off, w) == (y / Pow2(off)) % Pow2(w)
    decreases off
  {
    hide Pow2;
    if off > 0 {
      FieldIs(y / 2, off - 1, w);
      HalfFirst(y, off);
    } else {
      LowField(y, w);
      NoShift(y);
    }
  }

  lemma NoShift(y: int)
    ensures y / Pow2(0) == y
  {
  }

  lemma HalfFirst(y: int, off: nat)
    requires off > 0
    ensures (y / 2) / Pow2(off - 1) == y / Pow2(off)
  {
    DivTwice(y, Pow2(off - 1));
  }

  // ----- by bit operations -----

  /** The digits of a field. */
  function Mask(off: nat, w: nat): (m: nat)
    decreases off + w
  {
    if off > 0 then 2 * Mask(off - 1, w) else if w == 0 then 0 else 1 + 2 * Mask(0, w - 1)
  }

  lemma TwiceProduct(p: int, q: int)
    ensures p * (2 * q) == 2 * (p * q)
  {
  }

  lemma {:induction false} MaskIs(off: nat, w: nat)
    ensures Mask(off, w) == (Pow2(w) - 1) * Pow2(off)
    decreases off + w
  {
    if off > 0 {
      MaskIs(off - 1, w);
      TwiceProduct(Pow2(w) - 1, Pow2(off - 1));
    } else if w > 0 {
      MaskIs(0, w - 1);
    }
  }

  /** ((x ^ y) & m) ^ y: the digits of `x` where `m` has ones, those of `y` elsewhere. */
  function Merge(x: int, y: int, m: int, n: nat): nat {
    Bitwise(BitXor, Bitwise(BitAnd, Bitwise(BitXor, x, y, n), m, n), y, n)
  }

  lemma MergeDigit(x: int, y: int, m: int, n: nat)
    requires n > 0
    ensures Merge(x, y, m, n) == (if m % 2 == 1 then x % 2 else y % 2) + 2 * Merge(x / 2, y / 2, m / 2, n - 1)
  {
    var u := Bitwise(BitXor, x / 2, y / 2, n - 1);
    var v := Bitwise(BitAnd, u, m / 2, n - 1);
    var a := Bitwise(BitXor, x, y, n);
    assert a == Digit(BitXor, x, y) + 2 * u;
    Unfold(BitAnd, a, m, n);
    var b := Bitwise(BitAnd, a, m, n);
    assert a / 2 == u && b == Digit(BitAnd, a, m) + 2 * v;
    Unfold(BitXor, b, y, n);
    assert b / 2 == v;
  }

  lemma Unfold(op: BitOp, x: int, y: int, n: nat)
    requires n > 0
    ensures Bitwise(op, x, y, n) == Digit(op, x, y) + 2 * Bitwise(op, x / 2, y / 2, n - 1)
  {
  }

  /** With the value shifted into place that is storing the field. */
  lemma {:induction false} MergePuts(y: int, off: nat, w: nat, v: int, x: int, n: nat)
    requires 0 <= y < Pow2(n) && off + w <= n && 0 <= v < Pow2(w) && x == v * Pow2(off)
    ensures Merge(x, y, Mask(off, w), n) == Put(y, off, w, v)
    decreases n
  {
    hide Merge;
    if n == 0 {
      MergeNone(x, y, Mask(off, w));
    } else {
      MergeDigit(x, y, Mask(off, w), n);
      if off > 0 {
        Doubled(v, Pow2(off - 1), x);
        MergePuts(y / 2, off - 1, w, v, x / 2, n - 1);
      } else if w > 0 {
        MergePuts(y / 2, 0, w - 1, v / 2, x / 2, n - 1);
      } else {
        MergePuts(y / 2, 0, 0, 0, 0, n - 1);
      }
    }
  }

  lemma MergeNone(x: int, y: int, m: int)
    ensures Merge(x, y, m, 0) == 0
  {
  }

  lemma Doubled(v: int, p: nat, x: int)
    requires x == v * (2 * p)
    ensures x % 2 == 0 && x / 2 == v * p
  {
    var z := v * p;
    assert x == 2 * z;
  }

  /** v & mask */
  lemma {:induction false} AndField(v: int, w: nat, n: nat)
    requires w <= n
    ensures Bitwise(BitAnd, v, Mask(0, w), n) == Field(v, 0, w)
    decreases n
  {
    if n > 0 {
      if w > 0 {
        AndField(v / 2, w - 1, n - 1);
      } else {
        AndZero(v, n);
      }
    }
  }

  lemma FieldDigit(v: int, w: nat)
    requires w > 0
    ensures Field(v, 0, w) % 2 == v % 2 && Field(v, 0, w) / 2 == Field(v / 2, 0, w - 1)
  {
  }

  /** y | (v & mask) << off, where the field is still 0. */
  lemma {:induction false} OrPuts(y: int, off: nat, w: nat, v: int, x: int, n: nat)
    requires 0 <= y < Pow2(n) && off + w <= n && Field(y, off, w) == 0 && x == Field(v, 0, w) * Pow2(off)
    ensures Bitwise(BitOr, y, x, n) == Put(y, off, w, v)
    decreases n
  {
    hide Bitwise;
    if n == 0 {
      NoDigits(BitOr, y, x);
    } else {
      Unfold(BitOr, y, x, n);
      if off > 0 {
        Doubled(Field(v, 0, w), Pow2(off - 1), x);
        OrPuts(y / 2, off - 1, w, v, x / 2, n - 1);
      } else if w > 0 {
        FieldDigit(v, w);
        FieldDigit(y, w);
        assert x == Field(v, 0, w) by { NoShift(x); }
        OrPuts(y / 2, 0, w - 1, v / 2, x / 2, n - 1);
      } else {
        OrPuts(y / 2, 0, 0, 0, 0, n - 1);
      }
    }
  }

  // ----- signs -----

  /** A value cut to `w` digits and read with or without a sign. */
  function Cut(v: int, w: nat, signed: bool): int {
    var f := Field(v, 0, w);
    if signed && w > 0 && f >= Pow2(w - 1) then f - Pow2(w) else f
  }

  /** What reading the field gives. */
  function Loaded(y: int, off: nat, w: nat, signed: bool): int {
    var f := Field(y, off, w);
    if signed && w > 0 && f >= Pow2(w - 1) then f - Pow2(w) else f
  }

  /** Stored, then read: the value wrapped to the width and the sign. */
  lemma StoredThenLoaded(y: int, off: nat, w: nat, v: int, signed: bool)
    ensures Loaded(Put(y, off, w, v), off, w, signed) == Cut(v, w, signed)
  {
    PutThenField(y, off, w, v);
  }

  /** Values of the field's range survive. */
  lemma CutKeeps(v: int, w: nat, signed: bool)
    requires w > 0 && if signed then 0 <= v + Pow2(w - 1) < Pow2(w) else 0 <= v < Pow2(w)
    ensures Cut(v, w, signed) == v
  {
    LowField(v, w);
    if v >= 0 {
      DivModUnique(v, 0, v, Pow2(w));
    } else {
      DivModUnique(v, -1, v + Pow2(w), Pow2(w));
    }
  }
}
