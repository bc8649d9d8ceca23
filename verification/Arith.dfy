/** Congruences and powers. */
module Arith {

  ghost predicate Cong(a: int, b: int, m: int)
    requires m > 0
  {
    exists k: int :: Multiple(k, m, a, b)
  }

  ghost predicate Multiple(k: int, m: int, a: int, b: int) {
    a - b == k * m
  }

  lemma CongIntro(a: int, b: int, m: int, k: int)
    requires m > 0 && a - b == k * m
    ensures Cong(a, b, m)
  {
    assert Multiple(k, m, a, b);
  }

  lemma CongSym(a: int, b: int, m: int)
    requires m > 0 && Cong(a, b, m)
    ensures Cong(b, a, m)
  {
    var k :| Multiple(k, m, a, b);
    assert Multiple(-k, m, b, a) by { assert (-k) * m == -(k * m); }
  }

  lemma CongTrans(a: int, b: int, c: int, m: int)
    requires m > 0 && Cong(a, b, m) && Cong(b, c, m)
    ensures Cong(a, c, m)
  {
    var k :| Multiple(k, m, a, b);
    var l :| Multiple(l, m, b, c);
    CongIntro(a, c, m, k + l) by { assert (k + l) * m == k * m + l * m; }
  }

  lemma CongMul(a: int, b: int, c: int, d: int, m: int)
    requires m > 0 && Cong(a, b, m) && Cong(c, d, m)
    ensures Cong(a * c, b * d, m)
  {
    var k :| Multiple(k, m, a, b);
    var l :| Multiple(l, m, c, d);
    calc {
      a * c - b * d;
      (a - b) * c + b * (c - d);
      k * m * c + b * (l * m);
      (k * c) * m + (b * l) * m;
      (k * c + b * l) * m;
    }
    CongIntro(a * c, b * d, m, k * c + b * l);
  }

  /** Congruent numbers in 0..m are equal. */
  lemma CongUnique(a: int, b: int, m: int)
    requires m > 0 && Cong(a, b, m) && 0 <= a < m && 0 <= b < m
    ensures a == b
  {
    var k :| Multiple(k, m, a, b);
    if k >= 1 { MulMono(1, k, m); }
    if k <= -1 { MulMono(k, -1, m); }
  }

  lemma CongMod(a: int, m: int)
    requires m > 0
    ensures Cong(a % m, a, m)
  {
    CongIntro(a % m, a, m, -(a / m)) by { assert a == a / m * m + a % m; assert -(a / m) * m == -(a / m * m); }
  }

  lemma MulMono(a: int, b: int, c: int)
    requires a <= b && c >= 0
    ensures a * c <= b * c
  {}

  function Pow(b: int, n: nat): int {
    if n == 0 then 1 else b * Pow(b, n - 1)
  }

  lemma {:induction false} PowPositive(b: int, n: nat)
    requires b > 0
    ensures Pow(b, n) > 0
    decreases n
  {
    if n > 0 { PowPositive(b, n - 1); }
  }

  lemma {:induction false} PowAdd(b: int, m: nat, n: nat)
    ensures Pow(b, m + n) == Pow(b, m) * Pow(b, n)
    decreases m
  {
    if m == 0 {
      assert Pow(b, 0 + n) == 1 * Pow(b, n);
    } else {
      PowAdd(b, m - 1, n);
      calc {
        Pow(b, m + n);
        b * Pow(b, m - 1 + n);
        b * (Pow(b, m - 1) * Pow(b, n));
        b * Pow(b, m - 1) * Pow(b, n);
      }
    }
  }

  lemma {:induction false} PowMul(b: int, m: nat, n: nat)
    ensures 0 <= m * n && Pow(b, m * n) == Pow(Pow(b, m), n)
    decreases n
  {
    if n > 0 {
      PowMul(b, m, n - 1);
      assert m * n == m + m * (n - 1);
      PowAdd(b, m, m * (n - 1));
    }
  }

  lemma Regroup(a: int, b: int, c: int, d: int)
    ensures (a * b) * (c * d) == (a * c) * (b * d)
  {
    assert (a * b) * (c * d) == a * (b * (c * d));
    assert b * (c * d) == c * (b * d);
    assert a * (c * (b * d)) == (a * c) * (b * d);
  }

  lemma {:induction false} PowOfProduct(a: int, b: int, n: nat)
    ensures Pow(a * b, n) == Pow(a, n) * Pow(b, n)
    decreases n
  {
    if n > 0 {
      PowOfProduct(a, b, n - 1);
      calc {
        Pow(a * b, n);
        (a * b) * (Pow(a, n - 1) * Pow(b, n - 1));
        { Regroup(a, b, Pow(a, n - 1), Pow(b, n - 1)); }
        (a * Pow(a, n - 1)) * (b * Pow(b, n - 1));
        Pow(a, n) * Pow(b, n);
      }
    }
  }

  lemma {:induction false} PowCong(a: int, b: int, n: nat, m: int)
    requires m > 0 && Cong(a, b, m)
    ensures Cong(Pow(a, n), Pow(b, n), m)
    decreases n
  {
    if n == 0 {
      CongIntro(1, 1, m, 0);
    } else {
      PowCong(a, b, n - 1, m);
      CongMul(a, b, Pow(a, n - 1), Pow(b, n - 1), m);
    }
  }

  lemma DistributeShifted(p: int, r: int, d: int, q: int)
    ensures p * (r + d * q) == p * r + d * (p * q)
  {
    assert p * (r + d * q) == p * r + p * (d * q);
    assert p * (d * q) == d * (p * q);
  }

  lemma DivUnique(v: int, p: int, q: int, low: int)
    requires p > 0 && v == q * p + low && 0 <= low < p
    ensures v / p == q && v % p == low
  {
    var q', low' := v / p, v % p;
    assert v == q' * p + low';
    assert (q - q') * p == low' - low;
    if q - q' >= 1 { MulMono(1, q - q', p); }
    if q - q' <= -1 { MulMono(q - q', -1, p); }
  }

  lemma {:induction false} PowMonotone(b: int, m: nat, n: nat)
    requires b >= 1 && m <= n
    ensures Pow(b, m) <= Pow(b, n)
    decreases n - m
  {
    if m < n {
      PowMonotone(b, m, n - 1);
      PowPositive(b, n - 1);
      MulMono(1, b, Pow(b, n - 1));
    }
  }

  lemma SubMul(v: int, q: int, p: int)
    ensures (v - q) * p == p * v - p * q
  {}

  lemma MulComm(a: int, b: int)
    ensures a * b == b * a
  {}

  lemma ScaleEquation(p: int, q: int, A: int, B: int, add: int, c: int)
    requires A + c * q == B + add
    ensures p * A + c * (p * q) == p * B + p * add
  {
    assert c * (p * q) == p * (c * q);
    assert p * (A + c * q) == p * A + p * (c * q);
    assert p * (B + add) == p * B + p * add;
  }

  /** A product that loop proofs keep folded. */
  function Times(a: int, b: int): int {
    a * b
  }

  lemma TimesIs(a: int, b: int)
    ensures Times(a, b) == a * b
  {}

  lemma TimesAdd(a: int, b: int, c: int)
    ensures Times(a, b + c) == Times(a, b) + Times(a, c)
  {}

  lemma CrossTerm(d: int, v: int, w: int, u: int)
    ensures (2 * d) * (v * (w * u)) == (v * w) * (2 * d * u)
  {
    assert v * (w * u) == (v * w) * u;
    MulComm(2 * d, (v * w) * u);
    assert ((v * w) * u) * (2 * d) == (v * w) * (u * (2 * d));
    MulComm(u, 2 * d);
  }

  /** JavaScript's % keeps the sign of the dividend. */
  function JsRem(a: int, b: int): (r: int)
    requires b > 0
    ensures -b < r < b && Cong(r, a, b)
  {
    CongMod(if a >= 0 then a else -a, b);
    var r := if a >= 0 then a % b else -(-a % b);
    assert Cong(r, a, b) by {
      if a < 0 {
        var k :| Multiple(k, b, -a % b, -a);
        CongIntro(r, a, b, -k) by { assert (-k) * b == -(k * b); }
      }
    }
    r
  }

  function Magnitude(v: int): int {
    if v < 0 then -v else v
  }

  /** The quotient that goes with JsRem: rounded toward zero. */
  function JsQuot(a: int, b: int): int
    requires b != 0
  {
    var q := Magnitude(a) / Magnitude(b);
    if (a < 0) == (b < 0) then q else -q
  }

  lemma QuotientRemainder(a: int, b: int)
    requires b != 0
    ensures a == JsQuot(a, b) * b + JsRem(a, Magnitude(b))
  {
    var q, d := Magnitude(a) / Magnitude(b), Magnitude(b);
    assert Magnitude(a) == q * d + Magnitude(a) % d;
    assert (-q) * b == -(q * b) && q * (-b) == -(q * b);
  }
}
