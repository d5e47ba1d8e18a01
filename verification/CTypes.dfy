/** The integer types of type.c and the conversions between them. */
module CTypes {
  import opened Arith
  import opened Bits

  datatype Kind = KBool | KChar | KShort | KInt | KEnum | KLong

  /** A type as type.c has it: `_Bool` is unsigned, sizes are 1, 1, 2, 2, 2, 4. */
  type Type = t: TypeRec | t.kind == KBool ==> t.unsigned witness TypeRec(KInt, false)

  datatype TypeRec = TypeRec(kind: Kind, unsigned: bool) {
    function Size(): nat {
      match kind
      case KBool => 1
      case KChar => 1
      case KShort => 2
      case KInt => 2
      case KEnum => 2
      case KLong => 4
    }

    /** 2 to the number of bits. */
    function Modulus(): nat { if Size() == 1 then 256 else if Size() == 2 then 65536 else 0x1_0000_0000 }

    function Bits(): nat { 8 * Size() }
  }

  const BOOL: Type := TypeRec(KBool, true)
  const CHAR: Type := TypeRec(KChar, false)
  const UCHAR: Type := TypeRec(KChar, true)
  const INT: Type := TypeRec(KInt, false)

  function MinValue(ty: Type): int { if ty.unsigned then 0 else -(ty.Modulus() / 2) }

  function MaxValue(ty: Type): int {
    if ty.kind == KBool then 1 else if ty.unsigned then ty.Modulus() - 1 else ty.Modulus() / 2 - 1
  }

  predicate InRange(v: int, ty: Type) { MinValue(ty) <= v <= MaxValue(ty) }

  /** fit_to_type: the conversions of ISO/IEC 9899:2011 sections 6.3.1.2 and 6.3.1.3. */
  function Fit(v: int, ty: Type): (r: int)
    ensures InRange(r, ty)
  {
    var m := ty.Modulus();
    if ty.kind == KBool then (if v != 0 then 1 else 0)
    else if ty.unsigned || v % m < m / 2 then v % m
    else v % m - m
  }

  /** Every value of `a` is one of `b`, and both read the same way. */
  predicate Within(a: Type, b: Type) {
    a.unsigned == b.unsigned && MinValue(b) <= MinValue(a) && MaxValue(a) <= MaxValue(b)
  }

  lemma WithinSelf(ty: Type)
    ensures Within(ty, ty)
  {
  }

  // ----- congruence -----

  predicate Cong(x: int, y: int, m: nat)
    requires m > 0
  {
    (x - y) % m == 0
  }

  lemma Multiple(k: int, m: nat)
    requires m > 0
    ensures (m * k) % m == 0
  {
    ModShift(0, k, m);
    assert 0 % m == 0;
  }

  /** Congruent numbers differ by a multiple. */
  lemma CongBy(x: int, y: int, m: nat)
    requires m > 0 && Cong(x, y, m)
    ensures x == y + m * ((x - y) / m)
  {
  }

  lemma CongIf(x: int, y: int, k: int, m: nat)
    requires m > 0 && x == y + m * k
    ensures Cong(x, y, m)
  {
    Multiple(k, m);
  }

  lemma CongSym(x: int, y: int, m: nat)
    requires m > 0 && Cong(x, y, m)
    ensures Cong(y, x, m)
  {
    CongBy(x, y, m);
    var k := (x - y) / m;
    assert m * (-k) == -(m * k);
    CongIf(y, x, -k, m);
  }

  lemma CongTrans(x: int, y: int, z: int, m: nat)
    requires m > 0 && Cong(x, y, m) && Cong(y, z, m)
    ensures Cong(x, z, m)
  {
    CongBy(x, y, m);
    CongBy(y, z, m);
    var j, k := (x - y) / m, (y - z) / m;
    assert m * (j + k) == m * j + m * k;
    CongIf(x, z, j + k, m);
  }

  /** A coarser congruence follows from a finer one. */
  lemma CongCoarser(x: int, y: int, m: nat, f: nat)
    requires m > 0 && f > 0 && m * f > 0 && Cong(x, y, m * f)
    ensures Cong(x, y, m)
  {
    CongBy(x, y, m * f);
    var k := (x - y) / (m * f);
    assert m * f * k == m * (f * k);
    CongIf(x, y, f * k, m);
  }

  lemma CongAdd(a: int, b: int, c: int, d: int, m: nat)
    requires m > 0 && Cong(a, b, m) && Cong(c, d, m)
    ensures Cong(a + c, b + d, m) && Cong(a - c, b - d, m)
  {
    CongBy(a, b, m);
    CongBy(c, d, m);
    var p, q := (a - b) / m, (c - d) / m;
    assert m * (p + q) == m * p + m * q && m * (p - q) == m * p - m * q;
    CongIf(a + c, b + d, p + q, m);
    CongIf(a - c, b - d, p - q, m);
  }

  lemma CongMul(a: int, b: int, c: int, d: int, m: nat)
    requires m > 0 && Cong(a, b, m) && Cong(c, d, m)
    ensures Cong(a * c, b * d, m)
  {
    CongBy(a, b, m);
    CongBy(c, d, m);
    var p, q := (a - b) / m, (c - d) / m;
    assert a * c == a * d + m * (q * a) by { assert a * (d + m * q) == a * d + m * (q * a); }
    assert a * d == b * d + m * (p * d) by { assert (b + m * p) * d == b * d + m * (p * d); }
    assert m * (q * a + p * d) == m * (q * a) + m * (p * d);
    CongIf(a * c, b * d, q * a + p * d, m);
  }

  // ----- fitting -----

  lemma FitCong(v: int, ty: Type)
    requires ty.kind != KBool
    ensures Cong(Fit(v, ty), v, ty.Modulus())
  {
    var m := ty.Modulus();
    var q := v / m;
    assert v == m * q + v % m;
    if Fit(v, ty) == v % m {
      assert m * (-q) == -(m * q);
      CongIf(Fit(v, ty), v, -q, m);
    } else {
      assert m * (-q - 1) == -(m * q) - m;
      CongIf(Fit(v, ty), v, -q - 1, m);
    }
  }

  lemma CongFit(v: int, w: int, ty: Type)
    requires ty.kind != KBool && Cong(v, w, ty.Modulus())
    ensures Fit(v, ty) == Fit(w, ty)
  {
    var m := ty.Modulus();
    CongBy(v, w, m);
    ModShift(w, (v - w) / m, m);
  }

  lemma FitSelf(v: int, ty: Type)
    requires InRange(v, ty)
    ensures Fit(v, ty) == v
  {
    var m := ty.Modulus();
    if v >= 0 {
      DivModUnique(v, 0, v, m);
    } else {
      DivModUnique(v, -1, v + m, m);
    }
  }

  /** Converting to a type and on to one no larger is converting once. */
  lemma FitTwice(v: int, big: Type, ty: Type)
    requires big.kind != KBool && ty.kind != KBool && ty.Size() <= big.Size()
    ensures Cong(Fit(v, big), v, ty.Modulus())
    ensures Fit(Fit(v, big), ty) == Fit(v, ty)
  {
    FitCong(v, big);
    var m := ty.Modulus();
    var f := big.Modulus() / m;
    assert big.Modulus() == m * f;
    CongCoarser(Fit(v, big), v, m, f);
    CongFit(Fit(v, big), v, ty);
  }

  // ----- casts that can be left out -----

  /** is_redundant_cast: whether `(ty)(ty2)x` needs its inner cast, for `x` of type `ty3`. */
  predicate Redundant(ty: Type, ty2: Type, ty3: Type) {
    if ty3.kind == KBool then true
    else if ty2.kind == KBool then false
    else if ty.kind == KBool then ty2.Size() >= ty3.Size()
    else if ty.Size() <= ty3.Size() then ty.Size() <= ty2.Size()
    else if ty.Size() <= ty2.Size() then true
    else if ty2.Size() == ty3.Size() then ty3.unsigned == ty2.unsigned
    else if ty2.Size() > ty3.Size() then ty3.unsigned || !ty2.unsigned
    else false
  }

  /** When it says yes, leaving the inner cast out changes no value. */
  lemma RedundantIsSafe(ty: Type, ty2: Type, ty3: Type, x: int)
    requires Redundant(ty, ty2, ty3) && InRange(x, ty3)
    ensures Fit(Fit(x, ty2), ty) == Fit(x, ty)
  {
    if ty3.kind == KBool || (ty2.Size() > ty3.Size() && (ty3.unsigned || !ty2.unsigned))
       || (ty2.kind != KBool && ty2.Size() == ty3.Size() && ty2.unsigned == ty3.unsigned) {
      FitSelf(x, ty2);
    } else if ty.kind == KBool {
      ZeroKept(x, ty2, ty3);
    } else {
      FitTwice(x, ty2, ty);
    }
  }

  lemma ZeroKept(x: int, ty2: Type, ty3: Type)
    requires InRange(x, ty3) && ty2.kind != KBool && ty2.Size() >= ty3.Size()
    ensures (Fit(x, ty2) == 0) == (x == 0)
  {
    var m := ty2.Modulus();
    DivModUnique(x, if x < 0 then -1 else 0, if x < 0 then x + m else x, m);
  }

  /** The value that tells the two apart when it says no. */
  function Telling(ty: Type, ty2: Type, ty3: Type): int {
    if ty2.kind == KBool then 2
    else if ty2.Size() < ty3.Size() then ty2.Modulus()
    else if ty3.unsigned then MaxValue(ty3)
    else -1
  }

  /** When it says no there is such a value, unless both casts are to `_Bool`, which it need not have refused. */
  lemma RedundantIsExact(ty: Type, ty2: Type, ty3: Type)
    requires !Redundant(ty, ty2, ty3)
    ensures var x := Telling(ty, ty2, ty3);
      InRange(x, ty3) && ((Fit(Fit(x, ty2), ty) != Fit(x, ty)) <==> !(ty.kind == KBool && ty2.kind == KBool))
    ensures ty.kind == KBool && ty2.kind == KBool ==> forall x :: Fit(Fit(x, ty2), ty) == Fit(x, ty)
  {
    hide Fit;
    var x := Telling(ty, ty2, ty3);
    BoolTwice(ty, ty2);
    if ty2.kind == KBool {
      ToBool(2, ty2);
      if ty.kind != KBool {
        FitSelf(1, ty);
        FitSelf(2, ty);
      }
    } else if ty2.Size() < ty3.Size() {
      FitModulus(ty2);
      FitSelf(0, ty);
      if ty.kind == KBool {
        ToBool(x, ty);
      } else {
        FitSelf(x, ty);
      }
    } else {
      FitMinusOne(ty2);
      FitMinusOne(ty);
      if ty3.unsigned {
        FitAllOnes(ty2);
        FitSelf(x, ty);
      } else {
        FitSelf(ty2.Modulus() - 1, ty);
      }
    }
  }

  lemma BoolTwice(ty: Type, ty2: Type)
    ensures ty.kind == KBool && ty2.kind == KBool ==> forall x :: Fit(Fit(x, ty2), ty) == Fit(x, ty)
  {
  }

  lemma ToBool(v: int, ty: Type)
    requires ty.kind == KBool
    ensures Fit(v, ty) == if v != 0 then 1 else 0
  {
  }

  lemma FitModulus(ty: Type)
    requires ty.kind != KBool
    ensures Fit(ty.Modulus(), ty) == 0
  {
    DivModUnique(ty.Modulus(), 1, 0, ty.Modulus());
  }

  lemma FitMinusOne(ty: Type)
    requires ty.kind != KBool
    ensures Fit(-1, ty) == if ty.unsigned then ty.Modulus() - 1 else -1
  {
    DivModUnique(-1, -1, ty.Modulus() - 1, ty.Modulus());
  }

  lemma FitAllOnes(ty: Type)
    requires ty.kind != KBool
    ensures Fit(ty.Modulus() - 1, ty) == if ty.unsigned then ty.Modulus() - 1 else -1
  {
    DivModUnique(ty.Modulus() - 1, 0, ty.Modulus() - 1, ty.Modulus());
  }
}
