/** Powers, congruences and inverses modulo n: the ring facts behind GQ1 signatures. */
module Arithmetic {

  import opened Common

  // ---------------------------------------------------------------------------
  // Division with remainder
  // ---------------------------------------------------------------------------

  lemma MulAtLeast(a: int, n: int)
    requires n > 0
    ensures a >= 1 ==> a * n >= n
    ensures a <= -1 ==> a * n <= -n
  {}

  /** Quotient and remainder are determined by their defining equation. */
  lemma DivModUnique(a: int, n: int, q: int, r: int)
    requires n > 0 && a == q * n + r && 0 <= r < n
    ensures q == a / n && r == a % n
  {
    var d := q - a / n;
    assert a == a / n * n + a % n;
    assert d * n == a % n - r;
    MulAtLeast(d, n);
  }

  /** a and b leave the same remainder modulo n. */
  predicate Cong(a: int, b: int, n: int)
    requires n > 0
  {
    a % n == b % n
  }

  lemma CongByMultiple(a: int, b: int, n: int, k: int)
    requires n > 0 && a == b + k * n
    ensures Cong(a, b, n)
  {
    assert a == (b / n + k) * n + b % n;
    DivModUnique(a, n, b / n + k, b % n);
  }

  lemma CongMultiple(a: int, b: int, n: int) returns (k: int)
    requires n > 0 && Cong(a, b, n)
    ensures a == b + k * n
  {
    k := a / n - b / n;
    assert a == a / n * n + a % n;
    assert b == b / n * n + b % n;
  }

  lemma CongTrans(a: int, b: int, c: int, n: int)
    requires n > 0 && Cong(a, b, n) && Cong(b, c, n)
    ensures Cong(a, c, n) && Cong(c, a, n)
  {}

  /** Congruent residues are equal. */
  lemma CongResidues(a: nat, b: nat, n: int)
    requires n > 0 && a < n && b < n && Cong(a, b, n)
    ensures a == b
  {}

  lemma CongMod(a: int, n: int)
    requires n > 0
    ensures Cong(a % n, a, n)
  {}

  lemma CongMul(a: int, b: int, c: int, d: int, n: int)
    requires n > 0 && Cong(a, b, n) && Cong(c, d, n)
    ensures Cong(a * c, b * d, n)
  {
    var k := CongMultiple(a, b, n);
    var l := CongMultiple(c, d, n);
    assert a * c == b * d + (k * c + b * l) * n by {
      assert a * c == (b + k * n) * c == b * c + k * n * c;
      assert b * c == b * (d + l * n) == b * d + b * l * n;
    }
    CongByMultiple(a * c, b * d, n, k * c + b * l);
  }

  lemma CongMulLeft(a: int, c: int, d: int, n: int)
    requires n > 0 && Cong(c, d, n)
    ensures Cong(a * c, a * d, n)
  {
    CongMul(a, a, c, d, n);
  }

  // ---------------------------------------------------------------------------
  // Powers
  // ---------------------------------------------------------------------------

  function Pow(b: nat, e: nat): (p: nat)
    decreases e
  {
    if e == 0 then 1 else b * Pow(b, e - 1)
  }

  lemma {:induction false} PowAdd(b: nat, d: nat, e: nat)
    ensures Pow(b, d + e) == Pow(b, d) * Pow(b, e)
    decreases d
  {
    if d == 0 {
    } else {
      PowAdd(b, d - 1, e);
      assert Pow(b, d + e) == b * Pow(b, d - 1 + e);
      assert b * (Pow(b, d - 1) * Pow(b, e)) == (b * Pow(b, d - 1)) * Pow(b, e);
    }
  }

  lemma {:induction false} PowOfProduct(a: nat, b: nat, e: nat)
    ensures Pow(a * b, e) == Pow(a, e) * Pow(b, e)
    decreases e
  {
    if e == 0 {
    } else {
      PowOfProduct(a, b, e - 1);
      var p, q := Pow(a, e - 1), Pow(b, e - 1);
      assert (a * b) * (p * q) == (a * p) * (b * q);
    }
  }

  lemma {:induction false} PowOfPow(b: nat, d: nat, e: nat)
    ensures Pow(Pow(b, d), e) == Pow(b, d * e)
    decreases e
  {
    if e == 0 {
    } else {
      PowOfPow(b, d, e - 1);
      assert d * e == d + d * (e - 1);
      PowAdd(b, d, d * (e - 1));
    }
  }

  /** Exponents of a tower of powers commute. */
  lemma PowSwap(b: nat, d: nat, e: nat)
    ensures Pow(Pow(b, d), e) == Pow(Pow(b, e), d)
  {
    PowOfPow(b, d, e);
    PowOfPow(b, e, d);
    assert d * e == e * d;
  }

  lemma {:induction false} PowOfOne(e: nat)
    ensures Pow(1, e) == 1
  {
    if e > 0 {
      PowOfOne(e - 1);
    }
  }

  lemma {:induction false} CongPow(a: nat, b: nat, e: nat, n: int)
    requires n > 0 && Cong(a, b, n)
    ensures Cong(Pow(a, e), Pow(b, e), n)
    decreases e
  {
    if e > 0 {
      CongPow(a, b, e - 1, n);
      CongMul(a, b, Pow(a, e - 1), Pow(b, e - 1), n);
    }
  }

  // ---------------------------------------------------------------------------
  // Inverses modulo n
  // ---------------------------------------------------------------------------

  /** b is a multiplicative inverse of a modulo n. */
  predicate IsInverse(a: int, b: int, n: int)
    requires n > 0
  {
    Cong(a * b, 1, n)
  }

  ghost predicate IsUnit(a: int, n: int)
    requires n > 0
  {
    exists b: nat :: IsInverse(a, b, n)
  }

  /** A unit can be cancelled from a congruence. */
  lemma CancelUnit(u: int, w: int, a: int, b: int, n: int)
    requires n > 0 && IsInverse(u, w, n)
    requires Cong(u * a, u * b, n)
    ensures Cong(a, b, n)
  {
    CongMulLeft(w, u * a, u * b, n);
    assert w * (u * a) == (u * w) * a && w * (u * b) == (u * w) * b;
    CongMul(u * w, 1, a, a, n);
    CongMul(u * w, 1, b, b, n);
  }

  lemma InverseUnique(a: int, b: int, c: int, n: int)
    requires n > 0 && IsInverse(a, b, n) && IsInverse(a, c, n)
    ensures Cong(b, c, n)
  {
    CancelUnit(a, b, b, c, n);
  }

  lemma InverseOfProduct(a: int, b: int, c: int, d: int, n: int)
    requires n > 0 && IsInverse(a, b, n) && IsInverse(c, d, n)
    ensures IsInverse(a * c, b * d, n)
  {
    CongMul(a * b, 1, c * d, 1, n);
    assert (a * b) * (c * d) == (a * c) * (b * d);
  }

  lemma {:induction false} InverseOfPow(a: nat, b: nat, e: nat, n: int)
    requires n > 0 && IsInverse(a, b, n)
    ensures IsInverse(Pow(a, e), Pow(b, e), n)
  {
    PowOfProduct(a, b, e);
    CongPow(a * b, 1, e, n);
    PowOfOne(e);
  }

  /** A unit is nonzero once there is more than one residue. */
  lemma UnitTimesNonzero(u: int, w: int, a: int, n: int)
    requires n > 1 && IsInverse(u, w, n)
    ensures Cong(u * a, 0, n) <==> Cong(a, 0, n)
  {
    if Cong(u * a, 0, n) {
      assert u * 0 == 0;
      CancelUnit(u, w, a, 0, n);
    }
    if Cong(a, 0, n) {
      CongMulLeft(u, a, 0, n);
      assert u * 0 == 0;
    }
  }

  // ---------------------------------------------------------------------------
  // Products as names: long regroupings go through these, so that nothing is multiplied out
  // ---------------------------------------------------------------------------

  function Times(a: nat, b: nat): nat { a * b }

  lemma PowOfTimes(a: nat, b: nat, e: nat)
    ensures Pow(Times(a, b), e) == Times(Pow(a, e), Pow(b, e))
  {
    PowOfProduct(a, b, e);
  }

  lemma Rotate(a: nat, b: nat, d: nat)
    ensures Times(Times(a, b), d) == Times(b, Times(a, d))
  {
    assert (a * b) * d == b * (a * d);
  }

  lemma TimesSwap(a: nat, b: nat)
    ensures Times(a, b) == Times(b, a)
  {}

  lemma CancelTimes(u: nat, w: nat, a: nat, b: nat, n: int)
    requires n > 0 && IsInverse(u, w, n) && Cong(Times(u, a), Times(u, b), n)
    ensures Cong(a, b, n)
  {
    CancelUnit(u, w, a, b, n);
  }

  /** A unit factor moves to the other side as its inverse. */
  lemma MoveUnit(u: nat, w: nat, a: nat, b: nat, n: int)
    requires n > 0 && IsInverse(u, w, n) && Cong(Times(u, a), b, n)
    ensures Cong(a, Times(w, b), n)
  {
    CongMulLeft(w, u * a, b, n);
    CongMul(u * w, 1, a, a, n);
    Rotate(u, w, a);
    assert w * (u * a) == (u * w) * a;
  }

  /** Bezout coefficients of a and b. */
  datatype Bezout = Bezout(g: nat, x: int, y: int)

  /** The extended Euclidean algorithm. */
  function ExtendedGcd(a: nat, b: nat): (r: Bezout)
    ensures a * r.x + b * r.y == r.g
    ensures Divides(r.g, a) && Divides(r.g, b)
    ensures a > 0 || b > 0 ==> r.g > 0
    decreases b
  {
    if b == 0 then
      assert a * 1 == a && 0 * a == 0;
      assert a == 1 * a;
      DividesBy(a, a, 1);
      DividesBy(a, 0, 0);
      Bezout(a, 1, 0)
    else
      var r := ExtendedGcd(b, a % b);
      var q := a / b;
      assert a == q * b + a % b;
      assert a * r.y + b * (r.x - q * r.y) == b * r.x + (a - q * b) * r.y;
      DividesSum(r.g, b, q, a % b);
      Bezout(r.g, r.y, r.x - q * r.y)
  }

  ghost predicate Divides(d: nat, a: int) {
    exists k: int :: IsMultiple(a, k, d)
  }

  ghost predicate IsMultiple(a: int, k: int, d: int) {
    a == k * d
  }

  lemma DividesBy(d: nat, a: int, k: int)
    requires a == k * d
    ensures Divides(d, a)
  {
    assert IsMultiple(a, k, d);
  }

  lemma DividesSum(d: nat, b: int, q: int, r: int)
    requires Divides(d, b) && Divides(d, r)
    ensures Divides(d, q * b + r)
  {
    var k :| IsMultiple(b, k, d);
    var l :| IsMultiple(r, l, d);
    assert q * b + r == (q * k + l) * d;
    DividesBy(d, q * b + r, q * k + l);
  }

  lemma DividesOne(d: nat)
    requires Divides(d, 1)
    ensures d == 1
  {
    var k :| IsMultiple(1, k, d);
    if d > 0 {
      MulAtLeast(k, d);
    }
  }

  /** big.Int.ModInverse: the inverse in [0, n), or nothing when gcd(a, n) is not 1. */
  function ModInverse(a: nat, n: nat): (r: Option<nat>)
    requires n > 0
    ensures r.Some? ==> r.value < n && IsInverse(a, r.value, n)
    ensures r.None? ==> !IsUnit(a, n)
  {
    var b := ExtendedGcd(a, n);
    if b.g == 1 then
      InverseFromBezout(a, n, b.x, b.y);
      Some(b.x % n)
    else
      NoInverse(a, n, b.g);
      None
  }

  lemma InverseFromBezout(a: nat, n: nat, x: int, y: int)
    requires n > 0 && a * x + n * y == 1
    ensures IsInverse(a, x % n, n)
  {
    assert a * x == 1 + (-y) * n;
    CongByMultiple(a * x, 1, n, -y);
    CongMod(x, n);
    CongMulLeft(a, x % n, x, n);
  }

  lemma NoInverse(a: nat, n: nat, g: nat)
    requires n > 0 && Divides(g, a) && Divides(g, n) && g != 1
    ensures !IsUnit(a, n)
  {
    if IsUnit(a, n) {
      var b: nat :| IsInverse(a, b, n);
      var k := CongMultiple(a * b, 1, n);
      DividesSum(g, a, b, 0) by { assert 0 == 0 * g; DividesBy(g, 0, 0); }
      DividesSum(g, n, -k, b * a + 0);
      assert (-k) * n + (b * a + 0) == 1;
      DividesOne(g);
    }
  }

  /** Coprime numbers admit natural coefficients with a * d == b * v + 1. */
  lemma NaturalBezout(d: nat, v: nat) returns (a: nat, b: nat)
    requires v > 1 && ExtendedGcd(d, v).g == 1
    ensures a * d == b * v + 1
  {
    var r := ModInverse(d, v);
    a := r.value;
    var k := CongMultiple(d * a, 1, v);
    assert a * d == d * a >= 0;
    MulAtLeast(k, v);
    b := k;
  }
}
