/** Facts about products, quotients and remainders that the solver needs told. */
module Arith {
  type Byte = x: int | 0 <= x < 256

  lemma MulMonotonic(a: int, b: int, x: nat)
    requires a <= b
    ensures a * x <= b * x
  {
  }

  function Pow256(k: nat): (p: nat)
    ensures p > 0
  {
    if k == 0 then 1 else 256 * Pow256(k - 1)
  }

  /** Quotient and remainder are unique. */
  lemma DivModUnique(n: int, q: int, r: int, c: nat)
    requires n == q * c + r && 0 <= r < c
    ensures n / c == q && n % c == r
  {
    var q', r' := n / c, n % c;
    assert n == q' * c + r';
    assert (q + 1) * c == q * c + c && (q' + 1) * c == q' * c + c;
    if q < q' {
      MulMonotonic(q + 1, q', c);
    } else if q' < q {
      MulMonotonic(q' + 1, q, c);
    }
  }

  lemma ModAdd(r: int, k: int, c: nat)
    requires c > 0
    ensures (k * c + r) % c == r % c && (k * c + r) / c == k + r / c
  {
    var q := r / c;
    assert r == q * c + r % c;
    assert (k + q) * c == k * c + q * c;
    DivModUnique(k * c + r, k + q, r % c, c);
  }

  /** Reducing modulo a multiple first changes nothing. */
  lemma ModOfMod(n: int, c: nat, m: nat)
    requires c > 0 && m > 0
    ensures m * c > 0 && n % (m * c) % c == n % c
  {
    MulMonotonic(1, m, c);
    var mc := m * c;
    var q, r := n / mc, n % mc;
    assert n == q * mc + r;
    assert q * mc == (q * m) * c;
    ModAdd(r, q * m, c);
  }

  lemma Quotient(k: nat, x: nat, y: nat)
    requires x > 0
    ensures y > k / x <==> x * y > k
  {
    var q := k / x;
    assert k == q * x + k % x;
    if y > q {
      MulMonotonic(q + 1, y, x);
      assert (q + 1) * x == q * x + x;
    } else {
      MulMonotonic(y, q, x);
    }
  }

  // ----- the bytes of a 16-bit word -----

  lemma WordSplit(v: int)
    ensures 256 * ((v / 256) % 256) + v % 256 == v % 65536
    ensures (v % 65536) % 256 == v % 256 && (v % 65536) / 256 == (v / 256) % 256
  {
    var q, lo := v / 256, v % 256;
    var k, hi := q / 256, q % 256;
    assert v == k * 65536 + (256 * hi + lo);
    DivModUnique(v, k, 256 * hi + lo, 65536);
    DivModUnique(256 * hi + lo, hi, lo, 256);
  }

  lemma HalfWord(v: int)
    requires 0 <= v < 65536
    ensures 0 <= v / 256 < 256 && v == 256 * (v / 256) + v % 256
  {
  }

  lemma ModShift(a: int, q: int, c: nat)
    requires c > 0
    ensures (a + c * q) % c == a % c
  {
    assert c * q == q * c;
    ModAdd(a, q, c);
  }

  lemma ModSub(a: int, b: int, c: nat)
    requires c > 0
    ensures (a % c - b) % c == (a - b) % c && (a - b % c) % c == (a - b) % c
  {
    assert a == c * (a / c) + a % c && b == c * (b / c) + b % c;
    ModShift(a % c - b, a / c, c);
    ModShift(a - b, b / c, c);
  }

  lemma ModPlus(a: int, b: int, c: nat)
    requires c > 0
    ensures (a % c + b) % c == (a + b) % c
  {
    assert a == c * (a / c) + a % c;
    ModShift(a % c + b, a / c, c);
  }

  function Low8(i: int): int { if i < 0 then i + 256 else if i >= 256 then i - 256 else i }

  /** Adding to a word byte by byte, the carry in between. */
  lemma AddBytes(x: int, n: int)
    requires 0 <= x < 65536
    ensures var low := x % 256 + n % 256;
      256 * Low8(x / 256 + (n / 256) % 256 + (if low >= 256 then 1 else 0)) + Low8(low) == (x + n) % 65536
  {
    WordSplit(n);
    ModPlus(n, x, 65536);
    HalfWord(x);
    var m := n % 65536;
    DivModUnique(x + m, if x + m >= 65536 then 1 else 0, if x + m >= 65536 then x + m - 65536 else x + m, 65536);
  }

  /** Subtracting a word byte by byte, the borrow in between. */
  lemma SubBytes(x: int, y: int)
    requires 0 <= x < 65536 && 0 <= y < 65536
    ensures var low := x % 256 - y % 256;
      256 * Low8(x / 256 - y / 256 - (if low < 0 then 1 else 0)) + Low8(low) == (x - y) % 65536
  {
    HalfWord(x);
    HalfWord(y);
    DivModUnique(x - y, if x < y then -1 else 0, if x < y then x - y + 65536 else x - y, 65536);
  }

  /** Reducing once by an `if` is reducing modulo. */
  lemma WrapShift(x: int, d: int)
    ensures ((if x < 0 then x + 65536 else if x >= 65536 then x - 65536 else x) + d) % 65536 == (x + d) % 65536
  {
    ModShift(x + d, 1, 65536);
    ModShift(x + d, -1, 65536);
  }

  lemma SmallMod(x: int)
    requires 0 <= x < 65536
    ensures x % 65536 == x
  {
    DivModUnique(x, 0, x, 65536);
  }
}
