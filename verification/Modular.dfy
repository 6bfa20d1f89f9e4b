/** Arithmetic modulo a number, and modulo a prime: congruence, powers, and inverses by
    the extended Euclidean algorithm. */
module Modular {
  import opened Bytes

  // -------------------------------------------------------------- congruence

  /** a and b differ by a multiple of m. */
  ghost predicate Cong(m: int, a: int, b: int) {
    exists k: int :: Apart(m, a, b, k)
  }

  predicate Apart(m: int, a: int, b: int, k: int) {
    a == b + k * m
  }

  lemma CongWitness(m: int, a: int, b: int, k: int)
    requires a == b + k * m
    ensures Cong(m, a, b)
  {
    assert Apart(m, a, b, k);
  }

  lemma CongRefl(m: int, a: int)
    ensures Cong(m, a, a)
  {
    CongWitness(m, a, a, 0);
  }

  lemma CongSym(m: int, a: int, b: int)
    requires Cong(m, a, b)
    ensures Cong(m, b, a)
  {
    var k :| Apart(m, a, b, k);
    CongWitness(m, b, a, -k);
  }

  lemma CongTrans(m: int, a: int, b: int, c: int)
    requires Cong(m, a, b) && Cong(m, b, c)
    ensures Cong(m, a, c)
  {
    var k :| Apart(m, a, b, k);
    var l :| Apart(m, b, c, l);
    assert k * m + l * m == (k + l) * m;
    CongWitness(m, a, c, k + l);
  }

  lemma CongAdd(m: int, a: int, b: int, c: int, d: int)
    requires Cong(m, a, b) && Cong(m, c, d)
    ensures Cong(m, a + c, b + d) && Cong(m, a - c, b - d)
  {
    var k :| Apart(m, a, b, k);
    var l :| Apart(m, c, d, l);
    assert k * m + l * m == (k + l) * m && k * m - l * m == (k - l) * m;
    CongWitness(m, a + c, b + d, k + l);
    CongWitness(m, a - c, b - d, k - l);
  }

  lemma CongScale(m: int, c: int, a: int, b: int)
    requires Cong(m, a, b)
    ensures Cong(m, c * a, c * b) && Cong(m, a * c, b * c)
  {
    var k :| Apart(m, a, b, k);
    Distribute(c, b, k, m);
    CongWitness(m, c * a, c * b, c * k);
    assert a * c == c * a && b * c == c * b;
  }

  lemma Distribute(c: int, b: int, k: int, m: int)
    ensures c * (b + k * m) == c * b + c * k * m
  {
  }

  lemma CongMul(m: int, a: int, b: int, c: int, d: int)
    requires Cong(m, a, b) && Cong(m, c, d)
    ensures Cong(m, a * c, b * d)
  {
    CongScale(m, c, a, b);
    CongScale(m, b, c, d);
    CongTrans(m, a * c, b * c, b * d);
  }

  lemma ModCong(m: int, a: int)
    requires m > 0
    ensures 0 <= a % m < m && Cong(m, a % m, a)
  {
    CongWitness(m, a % m, a, -(a / m));
  }

  lemma MultipleBounds(k: int, m: int)
    requires m >= 0
    ensures k >= 1 ==> k * m >= m
    ensures k <= 0 ==> k * m <= 0
    ensures k <= -1 ==> k * m <= -m
    ensures m >= 1 && k >= 2 ==> k * m >= k
  {
    if k >= 1 { assert (k - 1) * m >= 0; }
    if k <= -1 { assert (-1 - k) * m >= 0; }
    if m >= 1 && k >= 2 { assert (m - 1) * k >= 0; }
  }

  /** Congruent residues are equal. */
  lemma CongUnique(m: int, a: int, b: int)
    requires Cong(m, a, b) && 0 <= a < m && 0 <= b < m
    ensures a == b
  {
    var k :| Apart(m, a, b, k);
    MultipleBounds(k, m);
  }

  lemma ModUnique(m: int, a: int, b: int)
    requires m > 0 && Cong(m, a, b) && 0 <= b < m
    ensures a % m == b
  {
    ModCong(m, a);
    CongTrans(m, a % m, a, b);
    CongUnique(m, a % m, b);
  }

  // ------------------------------------------------------------------- powers

  function Pow(a: int, n: nat): int {
    if n == 0 then 1 else a * Pow(a, n - 1)
  }

  lemma Associate(a: int, b: int, c: int)
    ensures a * (b * c) == (a * b) * c
  {
  }

  /** big.Int.Exp for a positive modulus. */
  function ModExp(a: int, n: nat, m: int): nat
    requires m > 0
  {
    Pow(a, n) % m
  }

  // ----------------------------------------------------------------- inverses

  /** The extended Euclidean algorithm: (g, x, y) with a x + b y == g. */
  function Egcd(a: nat, b: nat): (nat, int, int)
    decreases b
  {
    if b == 0 then (a, 1, 0) else
    var (g, x, y) := Egcd(b, a % b);
    (g, y, x - a / b * y)
  }

  ghost predicate Multiple(a: int, g: int) {
    exists k: int :: Apart(g, a, 0, k)
  }

  lemma {:induction false} EgcdIs(a: nat, b: nat)
    ensures var (g, x, y) := Egcd(a, b);
      a * x + b * y == g && Multiple(a, g) && Multiple(b, g)
    decreases b
  {
    if b == 0 {
      assert Apart(a, a, 0, 1) && Apart(a, 0, 0, 0);
    } else {
      EgcdIs(b, a % b);
      var (g, x, y) := Egcd(b, a % b);
      EgcdStep(a, b, a / b, a % b, g, x, y);
    }
  }

  lemma EgcdStep(a: int, b: int, q: int, r: int, g: int, x: int, y: int)
    requires a == b * q + r && b * x + r * y == g && Multiple(b, g) && Multiple(r, g)
    ensures a * y + b * (x - q * y) == g && Multiple(a, g)
  {
    var k :| Apart(g, b, 0, k);
    var l :| Apart(g, r, 0, l);
    assert a == (k * g) * q + l * g == (k * q + l) * g;
    assert Apart(g, a, 0, k * q + l);
    assert a * y == b * q * y + r * y && b * (x - q * y) == b * x - b * q * y;
  }

  /** big.Int.ModInverse: None where Go returns nil. */
  function ModInverse(a: nat, m: nat): Option<nat>
    requires m > 0
  {
    var (g, x, y) := Egcd(a, m);
    if g == 1 then Some(x % m) else None
  }

  /** An inverse is found exactly when there is one. */
  lemma InverseExact(a: nat, m: nat, v: int)
    requires m > 1
    ensures ModInverse(a, m).Some? ==> ModInverse(a, m).value < m && Cong(m, a * ModInverse(a, m).value, 1)
    ensures Cong(m, a * v, 1) ==> ModInverse(a, m).Some?
  {
    var (g, x, y) := Egcd(a, m);
    EgcdIs(a, m);
    if g == 1 {
      ModCong(m, x);
      CongScale(m, a, x % m, x);
      CongWitness(m, a * x, 1, -y);
      CongTrans(m, a * (x % m), a * x, 1);
    } else if Cong(m, a * v, 1) {
      var k :| Apart(m, a * v, 1, k);
      CommonDivisor(a, m, g, v, k);
    }
  }

  /** A common divisor of a and m divides a v - k m == 1. */
  lemma CommonDivisor(a: nat, m: nat, g: nat, v: int, k: int)
    requires Multiple(a, g) && Multiple(m, g) && a * v == 1 + k * m
    ensures g == 1
  {
    var i :| Apart(g, a, 0, i);
    var j :| Apart(g, m, 0, j);
    Regroup(i, v, k, j, g);
    MultipleBounds(i * v - k * j, g);
  }

  lemma Regroup(i: int, v: int, k: int, j: int, g: int)
    ensures (i * v - k * j) * g == (i * g) * v - k * (j * g)
  {
  }

  // ------------------------------------------------------------------- primes

  ghost predicate IsPrime(p: int) {
    p >= 2 && forall d :: 1 < d < p ==> !Multiple(p, d)
  }

  lemma PrimeInverse(p: int, a: nat)
    requires IsPrime(p) && 0 < a < p
    ensures ModInverse(a, p).Some?
    ensures var v := ModInverse(a, p).value; 0 < v < p && Cong(p, a * v, 1)
  {
    EgcdIs(a, p);
    var (g, x, y) := Egcd(a, p);
    var k :| Apart(g, a, 0, k);
    MultipleBounds(k, g);
    assert g == 1;
    InverseExact(a, p, 0);
    if ModInverse(a, p).value == 0 { CongUniqueOne(p); }
  }

  lemma CongUniqueOne(p: int)
    requires p > 1
    ensures !Cong(p, 0, 1)
  {
    if Cong(p, 0, 1) { CongUnique(p, 0, 1); }
  }

  /** A prime dividing a product divides a factor. */
  lemma EuclidLemma(p: int, a: int, b: int)
    requires IsPrime(p) && Cong(p, a * b, 0)
    ensures Cong(p, a, 0) || Cong(p, b, 0)
  {
    ModCong(p, a);
    var r := a % p;
    if r == 0 {
      CongSym(p, r, a);
    } else {
      PrimeInverse(p, r);
      CongScale(p, b, r, a);
      CongTrans(p, r * b, a * b, 0);
      CancelFactor(p, r, ModInverse(r, p).value, b);
    }
  }

  /** A factor that has an inverse can be cancelled. */
  lemma CancelFactor(p: int, r: int, v: int, b: int)
    requires Cong(p, r * v, 1) && Cong(p, r * b, 0)
    ensures Cong(p, b, 0)
  {
    CongScale(p, v, r * b, 0);
    CongScale(p, b, r * v, 1);
    Exchange(v, r, b);
    CongSym(p, r * v * b, b);
    CongTrans(p, b, r * v * b, 0);
  }

  lemma Exchange(v: int, r: int, b: int)
    ensures v * (r * b) == r * v * b
  {
  }
}
