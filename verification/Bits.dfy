/** Bits of a number, taken from its 28-bit words (crypto.js:433-445, 606-630, 1594-1611). */
module Bits {
  import opened Arith
  import opened Digits

  function P2(n: nat): int {
    Pow(2, n)
  }

  lemma P2Positive(n: nat)
    ensures P2(n) > 0
  {
    PowPositive(2, n);
  }

  lemma P2Add(m: nat, n: nat)
    ensures P2(m + n) == P2(m) * P2(n)
  {
    PowAdd(2, m, n);
  }

  lemma SmallPowers()
    ensures P2(0) == 1 && P2(1) == 2 && P2(2) == 4 && P2(4) == 0x10 && P2(8) == 0x100 && P2(16) == 0x1_0000
  {
    assert Pow(2, 8) == 0x100;
    PowAdd(2, 8, 8);
  }

  lemma QuotientBound(a: int, p: int, q: int)
    requires p > 0 && 0 <= a < p * q
    ensures 0 <= a / p < q
  {
    if a / p >= q { MulMono(q, a / p, p); MulComm(p, q); }
  }

  lemma P2Word()
    ensures P2(DB) == DV
  {
    assert Pow(2, 7) == 128;
    PowAdd(2, 7, 7);
    PowAdd(2, 14, 14);
  }

  lemma {:induction false} WeightIsPower(j: nat)
    ensures W(j) == P2(DB * j)
    decreases j
  {
    if j > 0 {
      WeightIsPower(j - 1);
      P2Word();
      P2Add(DB, DB * (j - 1));
      assert DB * j == DB + DB * (j - 1);
    }
  }

  /** x / 2^n, rounded down, for any power known to be positive. */
  ghost function Shr(x: int, n: nat): int {
    P2Positive(n);
    x / P2(n)
  }

  lemma ShrUnique(x: int, n: nat, q: int, low: int)
    requires x == q * P2(n) + low && 0 <= low < P2(n)
    ensures Shr(x, n) == q && x % P2(n) == low
  {
    P2Positive(n);
    DivUnique(x, P2(n), q, low);
  }

  lemma ShrShr(x: int, m: nat, n: nat)
    ensures Shr(Shr(x, m), n) == Shr(x, m + n)
  {
    P2Positive(m);
    P2Positive(n);
    P2Add(m, n);
    var q, a, b := Shr(Shr(x, m), n), x % P2(m), Shr(x, m) % P2(n);
    assert x == Shr(x, m) * P2(m) + a;
    assert Shr(x, m) == q * P2(n) + b;
    assert (q * P2(n) + b) * P2(m) == q * (P2(m) * P2(n)) + b * P2(m);
    MulMono(b, P2(n) - 1, P2(m));
    MulMono(0, b, P2(m));
    assert (P2(n) - 1) * P2(m) == P2(m) * P2(n) - P2(m);
    ShrUnique(x, m + n, q, b * P2(m) + a);
  }

  /** x * 2^a / 2^(a+n) = x / 2^n */
  lemma ShrScaled(x: int, a: nat, n: nat)
    ensures Shr(x * P2(a), a + n) == Shr(x, n)
  {
    P2Positive(a);
    ShrUnique(x * P2(a), a, x, 0);
    ShrShr(x * P2(a), a, n);
  }

  lemma ShrStep(x: int, n: nat)
    requires x >= 0
    ensures Shr(x, n) == 2 * Shr(x, n + 1) + Shr(x, n) % 2 && Shr(x, n + 1) >= 0
  {
    ShrShr(x, n, 1);
    P2Positive(n + 1);
    assert P2(1) == 2;
  }

  /** The bits n .. n + k of x. */
  lemma ShrSplit(x: int, n: nat, k: nat)
    ensures P2(k) > 0 && Shr(x, n) == Shr(x, n + k) * P2(k) + Shr(x, n) % P2(k)
  {
    P2Positive(k);
    ShrShr(x, n, k);
  }

  lemma DropWords(w: seq<int>, t: nat, j: nat)
    requires AreDigits(w, 0, t) && j <= t
    ensures Shr(Sum(w, 0, t), DB * j) == Sum(w, j, t - j)
  {
    hide Sum;
    hide Pow;
    SumSplit(w, 0, j, t - j);
    SumBound(w, 0, j);
    WeightIsPower(j);
    MulComm(W(j), Sum(w, j, t - j));
    ShrUnique(Sum(w, 0, t), DB * j, Sum(w, j, t - j), Sum(w, 0, j));
  }

  lemma DropBits(d: int, H: int, i: nat)
    requires i < DB
    ensures P2(i) > 0 && Shr(d + DV * H, i) == d / P2(i) + P2(DB - i) * H
  {
    P2Positive(i);
    P2Word();
    P2Add(i, DB - i);
    hide P2;
    DropAlgebra(d, H, P2(i), P2(DB - i));
    ShrUnique(d + DV * H, i, d / P2(i) + P2(DB - i) * H, d % P2(i));
  }

  lemma DropAlgebra(d: int, H: int, p: int, q: int)
    requires p > 0
    ensures d + p * q * H == (d / p + q * H) * p + d % p
  {
    assert (d / p + q * H) * p == d / p * p + (q * H) * p;
    assert (q * H) * p == (p * q) * H;
  }

  /** Bit i of word j and everything above it. */
  lemma WordShift(w: seq<int>, t: nat, j: nat, i: nat)
    requires AreDigits(w, 0, t) && j < t && i < DB
    ensures P2(i) > 0
    ensures Shr(Sum(w, 0, t), DB * j + i) == w[j] / P2(i) + P2(DB - i) * Sum(w, j + 1, t - j - 1)
  {
    hide Sum;
    hide P2;
    DropWords(w, t, j);
    SumLow(w, j, t - j);
    ShrShr(Sum(w, 0, t), DB * j, i);
    DropBits(w[j], Sum(w, j + 1, t - j - 1), i);
  }

  lemma ModDropsMultiple(a: int, p: int, q: int, h: int)
    requires p > 0 && q > 0
    ensures 0 < p * q && (a + p * q * h) % p == a % p
  {
    MulMono(1, p, q);
    DivUnique(a + p * q * h, p, a / p + q * h, a % p) by {
      assert (a / p + q * h) * p == a / p * p + q * h * p;
      assert q * h * p == p * q * h;
    }
  }

  lemma SplitMod(a: int, b: int, p: int, q: int)
    requires p > 0 && q > 0 && 0 <= a < p
    ensures 0 < p * q && (a + p * b) % (p * q) == a + p * (b % q)
  {
    MulMono(1, p, q);
    var m := b % q;
    assert b == b / q * q + m;
    MulMono(0, m, p);
    MulMono(m, q - 1, p);
    assert (q - 1) * p == p * q - p;
    DivUnique(a + p * b, p * q, b / q, a + p * m) by {
      assert p * (b / q * q + m) == b / q * (p * q) + p * m;
    }
  }

  lemma LowBits(d: int, H: int, n: nat)
    requires n <= DB
    ensures P2(n) > 0 && (d + DV * H) % P2(n) == d % P2(n)
  {
    P2Word();
    P2Add(n, DB - n);
    hide P2;
    P2Positive(n);
    P2Positive(DB - n);
    ModDropsMultiple(d, P2(n), P2(DB - n), H);
  }

  /** k bits that lie in word j, from bit lo of it on. */
  lemma BitsInside(w: seq<int>, t: nat, j: nat, lo: nat, k: nat)
    requires AreDigits(w, 0, t) && j < t && 0 < k && lo + k <= DB
    ensures P2(lo) > 0 && P2(k) > 0
    ensures Shr(Sum(w, 0, t), DB * j + lo) % P2(k) == w[j] / P2(lo) % P2(k)
  {
    hide Sum;
    hide P2;
    WordShift(w, t, j, lo);
    P2Add(k, DB - lo - k);
    P2Positive(k);
    P2Positive(DB - lo - k);
    ModDropsMultiple(w[j] / P2(lo), P2(k), P2(DB - lo - k), Sum(w, j + 1, t - j - 1));
  }

  /** The d highest bits of word j - 1 and the p lowest of word j. */
  lemma BitsAcross(w: seq<int>, t: nat, j: nat, lo: nat, d: nat, p: nat)
    requires AreDigits(w, 0, t) && 0 < j < t && lo + d == DB && 0 < d && p <= DB
    ensures P2(lo) > 0 && P2(d) > 0 && P2(p) > 0 && P2(d + p) > 0
    ensures 0 <= w[j - 1] / P2(lo) < P2(d)
    ensures Shr(Sum(w, 0, t), DB * (j - 1) + lo) % P2(d + p) == w[j] % P2(p) * P2(d) + w[j - 1] / P2(lo)
  {
    P2Word();
    P2Add(lo, d);
    P2Add(d, p);
    hide Sum;
    hide P2;
    P2Positive(lo);
    P2Positive(d);
    P2Positive(p);
    P2Positive(d + p);
    WordShift(w, t, j - 1, lo);
    SumLow(w, j, t - j);
    LowBits(w[j], Sum(w, j + 1, t - j - 1), p);
    hide Shr;
    QuotientBound(w[j - 1], P2(lo), P2(d));
    SplitMod(w[j - 1] / P2(lo), Sum(w, j, t - j), P2(d), P2(p));
    MulComm(P2(d), w[j] % P2(p));
  }

  // ---------- the length of a number ----------

  /** x0 has r - 1 bits below those of x. */
  ghost predicate Narrowed(x0: int, x: int, r: nat) {
    1 <= r && P2(r - 1) * x <= x0 < P2(r - 1) * (x + 1) && (x == 0 ==> r == 1)
  }

  // one step of the search for the highest bit: f = 2^k, x < f * f
  method Narrow(ghost x0: int, x: int, r: nat, k: nat, f: int) returns (x': int, r': nat)
    requires Narrowed(x0, x, r) && 0 <= x < f * f && f == P2(k) > 0
    ensures Narrowed(x0, x', r') && 0 <= x' < f && (x == 0 ==> x' == 0) && (x > 0 ==> x' > 0) && r <= r' <= r + k
  {
    QuotientSign(x, f);
    if x / f != 0 { NarrowStep(x0, x, r, k, f); }
    hide P2;
    hide Narrowed;
    var t := x / f;
    if t != 0 {
      x', r' := t, r + k;
    } else {
      x', r' := x, r;
    }
  }

  lemma QuotientSign(x: int, f: int)
    requires x >= 0 && f > 0
    ensures if x / f == 0 then x < f else x >= f
  {
    if x < f { DivUnique(x, f, 0, x); }
  }

  lemma NarrowStep(x0: int, x: int, r: nat, k: nat, f: int)
    requires Narrowed(x0, x, r) && f == P2(k) > 0 && f <= x < f * f
    ensures Narrowed(x0, x / f, r + k) && 0 < x / f < f
  {
    P2Add(r - 1, k);
    P2Positive(r - 1);
    hide P2;
    var q := x / f;
    NarrowAlgebra(x0, x, q, x % f, P2(r - 1), f);
    QuotientBound(x, f, f);
    if q <= 0 { MulMono(q, 0, f); }
  }

  lemma NarrowAlgebra(x0: int, x: int, q: int, rem: int, p: int, f: int)
    requires x == q * f + rem && 0 <= rem < f && p > 0 && p * x <= x0 < p * (x + 1)
    ensures p * f * q <= x0 < p * f * (q + 1)
  {
    MulMono(q * f, x, p);
    MulMono(x + 1, q * f + f, p);
    MulComm(p, x);
    MulComm(p, x + 1);
    assert q * f * p == p * f * q && (q * f + f) * p == p * f * q + p * f && p * f * (q + 1) == p * f * q + p * f;
  }

  /** The number of bits of x. */
  method NBits(x0: int) returns (r: nat)
    requires 0 <= x0 < 0x1_0000_0000
    ensures x0 == 0 ==> r == 1
    ensures x0 > 0 ==> 1 <= r <= 32 && P2(r - 1) <= x0 < P2(r)
  {
    SmallPowers();
    hide P2;
    var x := x0;
    r := 1;
    x, r := Narrow(x0, x, r, 16, 0x1_0000);
    x, r := Narrow(x0, x, r, 8, 0x100);
    x, r := Narrow(x0, x, r, 4, 0x10);
    x, r := Narrow(x0, x, r, 2, 4);
    x, r := Narrow(x0, x, r, 1, 2);
    P2Twice(r - 1);
  }

  lemma P2Twice(n: nat)
    ensures P2(n + 1) == P2(n) * 2
  {}
}
