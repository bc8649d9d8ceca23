/** Modular exponentiation (crypto.js:975-989, 1564-1641). */
module ModPow {
  import opened Arith
  import opened Digits
  import opened Bits
  import opened BigIntegers
  import opened Reducers

  // ---------- windows of the exponent ----------

  /** The k bits of the exponent from bit i of word j down, zeros below bit 0. */
  method Window(w: seq<int>, ghost t: nat, j: nat, i: nat, k: nat) returns (win: int)
    requires AreDigits(w, 0, t) && j < t && i < DB && 1 <= k <= 6
    ensures P2(k) > 0 && win == Shr(Sum(w, 0, t) * P2(k - 1), DB * j + i) % P2(k)
  {
    var k1 := k - 1;
    P2Positive(i + 1);
    P2Positive(k);
    if i >= k1 {
      P2Positive(i - k1);
      WindowInside(w, t, j, i, k);
      win := w[j] / P2(i - k1) % P2(k);
    } else {
      win := w[j] % P2(i + 1) * P2(k1 - i);
      if j > 0 {
        P2Positive(DB + i - k1);
        WindowAcross(w, t, j, i, k);
        // the two parts have no bit in common, so this is the bitwise or
        win := win + w[j - 1] / P2(DB + i - k1);
      } else {
        WindowAtEnd(w, t, i, k);
      }
    }
  }

  lemma WindowInside(w: seq<int>, t: nat, j: nat, i: nat, k: nat)
    requires AreDigits(w, 0, t) && j < t && k - 1 <= i < DB && 1 <= k <= 6
    ensures P2(k) > 0 && P2(i - (k - 1)) > 0
    ensures Shr(Sum(w, 0, t) * P2(k - 1), DB * j + i) % P2(k) == w[j] / P2(i - (k - 1)) % P2(k)
  {
    hide Sum;
    hide P2;
    var lo := i - (k - 1);
    ShrScaled(Sum(w, 0, t), k - 1, DB * j + lo);
    BitsInside(w, t, j, lo, k);
  }

  lemma WindowAcross(w: seq<int>, t: nat, j: nat, i: nat, k: nat)
    requires AreDigits(w, 0, t) && 0 < j < t && i < k - 1 && 1 <= k <= 6
    ensures P2(k) > 0 && P2(DB + i - (k - 1)) > 0 && P2(i + 1) > 0
    ensures 0 <= w[j - 1] / P2(DB + i - (k - 1)) < P2(k - 1 - i)
    ensures Shr(Sum(w, 0, t) * P2(k - 1), DB * j + i) % P2(k)
         == w[j] % P2(i + 1) * P2(k - 1 - i) + w[j - 1] / P2(DB + i - (k - 1))
  {
    hide Sum;
    hide P2;
    var lo := DB + i - (k - 1);
    ShrScaled(Sum(w, 0, t), k - 1, DB * (j - 1) + lo);
    BitsAcross(w, t, j, lo, k - 1 - i, i + 1);
  }

  lemma WindowAtEnd(w: seq<int>, t: nat, i: nat, k: nat)
    requires AreDigits(w, 0, t) && 0 < t && i < k - 1 && 1 <= k <= 6
    ensures P2(k) > 0 && P2(i + 1) > 0
    ensures Shr(Sum(w, 0, t) * P2(k - 1), i) % P2(k) == w[0] % P2(i + 1) * P2(k - 1 - i)
  {
    var E, d := Sum(w, 0, t), k - 1 - i;
    P2Add(d, i);
    P2Add(d, i + 1);
    SumLow(w, 0, t);
    hide Sum;
    hide P2;
    P2Positive(d);
    P2Positive(i + 1);
    assert E * (P2(d) * P2(i)) == E * P2(d) * P2(i);
    P2Positive(i);
    ShrUnique(E * P2(k - 1), i, E * P2(d), 0);
    LowBits(w[0], Sum(w, 1, t - 1), i + 1);
    SplitMod(0, E, P2(d), P2(i + 1));
    MulComm(P2(d), E);
    MulComm(P2(d), E % P2(i + 1));
  }

  /** The window is not zero when its highest bit is set. */
  lemma WindowPositive(E: int, p: nat, k: nat)
    requires k >= 1 && Shr(E, p) % 2 == 1
    ensures P2(k) > 0 && Shr(E * P2(k - 1), p) % P2(k) > 0
  {
    var X, q := Shr(E * P2(k - 1), p), P2(k - 1);
    P2Positive(k - 1);
    assert P2(k) == 2 * q;
    ShrShr(E * P2(k - 1), p, k - 1);
    ShrScaled(E, k - 1, p);
    var Y, low := Shr(E, p), X % q;
    assert X == Y * q + low;
    assert Y == Y / 2 * 2 + 1;
    DivUnique(X, 2 * q, Y / 2, q + low) by { assert (Y / 2 * 2 + 1) * q == Y / 2 * (2 * q) + q; }
  }

  /** Drop the trailing zeros of a window. */
  method StripZeros(win: int, k: nat) returns (w: int, n: nat)
    requires 0 < win < P2(k)
    ensures w % 2 == 1 && 1 <= n <= k && 0 < w < P2(n) && win == w * P2(k - n)
  {
    w, n := win, k;
    while w % 2 == 0
      invariant 0 <= n <= k && 0 < w < P2(n) && win == w * P2(k - n)
      decreases w
    {
      assert P2(n) == 2 * P2(n - 1) && P2(k - n + 1) == 2 * P2(k - n);
      assert w == 2 * (w / 2);
      assert w / 2 * (2 * P2(k - n)) == w / 2 * 2 * P2(k - n);
      w := w / 2;
      n := n - 1;
    }
  }

  /** The part of the exponent read so far, after a window of n bits with value w. */
  lemma WindowRead(E: int, p: nat, k: nat, w: int, n: nat)
    requires E >= 0 && 1 <= n <= k && w % 2 == 1 && P2(k) > 0
    requires Shr(E * P2(k - 1), p) % P2(k) == w * P2(k - n)
    ensures n <= p + 1 && Shr(E, p + 1 - n) == Shr(E, p + 1) * P2(n) + w
  {
    var X, A := Shr(E * P2(k - 1), p), Shr(E, p + 1);
    ShrSplit(E * P2(k - 1), p, k);
    ShrScaled(E, k - 1, p + 1);
    P2Add(n, k - n);
    assert p + k == k - 1 + (p + 1);
    assert A * (P2(n) * P2(k - n)) + w * P2(k - n) == (A * P2(n) + w) * P2(k - n) by {
      assert A * (P2(n) * P2(k - n)) == A * P2(n) * P2(k - n);
    }
    P2Positive(k - n);
    ShrUnique(X, k - n, A * P2(n) + w, 0);
    WindowInsideNumber(E, p, k, w, n, A);
    ShrShr(E * P2(k - 1), p, k - n);
    ShrScaled(E, k - 1, p + 1 - n);
    assert p + (k - n) == k - 1 + (p + 1 - n);
  }

  lemma WindowInsideNumber(E: int, p: nat, k: nat, w: int, n: nat, A: int)
    requires 1 <= n <= k && w % 2 == 1
    requires Shr(E * P2(k - 1), p) == (A * P2(n) + w) * P2(k - n)
    ensures n <= p + 1
  {
    if n > p + 1 {
      var d := n - p - 2;
      P2Add(k - 1 - p, p);
      P2Positive(p);
      assert E * (P2(k - 1 - p) * P2(p)) == E * P2(k - 1 - p) * P2(p);
      ShrUnique(E * P2(k - 1), p, E * P2(k - 1 - p), 0);
      P2Add(d + 1, k - n);
      P2Positive(k - n);
      assert E * (P2(d + 1) * P2(k - n)) == E * P2(d + 1) * P2(k - n);
      EvenMultiple(A, n - 1);
      EvenMultiple(E, d);
      CancelFactor(A * P2(n) + w, E * P2(d + 1), P2(k - n));
    }
  }

  lemma EvenMultiple(a: int, n: nat)
    ensures a * P2(n + 1) % 2 == 0
  {
    assert P2(n + 1) == 2 * P2(n);
    assert a * (2 * P2(n)) == 2 * (a * P2(n));
  }

  lemma CancelFactor(a: int, b: int, c: int)
    requires c > 0 && a * c == b * c
    ensures a == b
  {
    assert (a + 1) * c == a * c + c && (b + 1) * c == b * c + c;
    if a < b { MulMono(a + 1, b, c); }
    if b < a { MulMono(b + 1, a, c); }
  }

  // ---------- powers in a reducer ----------

  /** x represents b^a. */
  ghost predicate Holds(z: Reducer, x: BigInteger, b: int, a: nat)
    reads Numbers(z), x
  {
    Ready(z) && x.Clamped() && Rep(z, x.Value(), Pow(b, a))
  }

  method MulPow(z: Reducer, x: BigInteger, y: BigInteger, r: BigInteger, ghost b: int, ghost u: nat, ghost v: nat)
    requires Holds(z, x, b, u) && Holds(z, y, b, v) && r != x && r != y && Apart(z, r)
    modifies r
    ensures Holds(z, r, b, u + v)
  {
    PowAdd(b, u, v);
    MulTo(z, x, y, r, Pow(b, u), Pow(b, v));
  }

  method SqrPow(z: Reducer, x: BigInteger, r: BigInteger, ghost b: int, ghost u: nat)
    requires Holds(z, x, b, u) && r != x && Apart(z, r)
    modifies r
    ensures Holds(z, r, b, 2 * u)
  {
    PowAdd(b, u, u);
    assert u + u == 2 * u;
    SqrTo(z, x, r, Pow(b, u));
  }

  method CopyHolds(z: Reducer, x: BigInteger, r: BigInteger, ghost b: int, ghost a: nat)
    requires Holds(z, x, b, a) && r != x && Apart(z, r)
    modifies r
    ensures Holds(z, r, b, a)
  {
    x.CopyTo(r);
  }

  method Base(z: Reducer, x: BigInteger) returns (g: BigInteger)
    requires x.Clamped() && Ready(z)
    ensures (g == x || fresh(g)) && Holds(z, g, x.Value(), 1)
  {
    g := Convert(z, x);
    assert Pow(x.Value(), 1) == x.Value() * Pow(x.Value(), 0);
  }

  /** this^e for a machine integer e, by squaring and multiplying with the bits from the top. */
  method Exp(x: BigInteger, e: int, z: Reducer) returns (r: BigInteger)
    requires x.Clamped() && Ready(z)
    ensures r.Clamped() && (e > 0xffff_ffff || e < 1 ==> r.Value() == 1)
    ensures 1 <= e <= 0xffff_ffff ==> Ready(z) && Denotes(z, r.Value(), Pow(x.Value(), e))
  {
    if e > 0xffff_ffff || e < 1 {
      r := One();
      return;
    }
    ghost var b := x.Value();
    assert allocated(Numbers(z));
    var g := Base(z, x);
    var n := NBits(e);
    r := SquareAndMultiply(z, g, e, n - 1, b);
  }

  method NextBit(z: Reducer, g: BigInteger, e: nat, i: nat, x: BigInteger, y: BigInteger, ghost b: int)
    returns (r: BigInteger, r2: BigInteger)
    requires Holds(z, g, b, 1) && Shr(e, i + 1) >= 0 && Holds(z, x, b, Shr(e, i + 1))
    requires x != y && x != g && y != g && Apart(z, x) && Apart(z, y)
    modifies x, y
    ensures {r, r2} == {x, y} && r != r2
    ensures Holds(z, g, b, 1) && Shr(e, i) >= 0 && Holds(z, r, b, Shr(e, i))
  {
    hide Holds;
    hide P2;
    r, r2 := x, y;
    P2Positive(i);
    ShrStep(e, i);
    SqrPow(z, r, r2, b, Shr(e, i + 1));
    if e / P2(i) % 2 == 1 {
      MulPow(z, r2, g, r, b, 2 * Shr(e, i + 1), 1);
    } else {
      r, r2 := r2, r;
    }
  }

  method SquareAndMultiply(z: Reducer, g: BigInteger, e: nat, top: nat, ghost b: int) returns (r: BigInteger)
    requires Holds(z, g, b, 1) && P2(top) <= e < P2(top + 1)
    ensures Ready(z) && r.Clamped() && Denotes(z, r.Value(), Pow(b, e))
  {
    P2Positive(top);
    ShrUnique(e, top, 1, e - P2(top)) by { assert P2(top + 1) == 2 * P2(top); }
    hide Holds;
    assert allocated(Numbers(z));
    r := new BigInteger();
    var r2 := new BigInteger();
    var i := top;
    CopyHolds(z, g, r, b, 1);
    while i > 0
      invariant 0 <= i && fresh(r) && fresh(r2) && r != r2
      invariant Holds(z, g, b, 1) && Shr(e, i) >= 0 && Holds(z, r, b, Shr(e, i))
    {
      i := i - 1;
      r, r2 := NextBit(z, g, e, i, r, r2, b);
    }
    assert P2(0) == 1;
    r := RevertPow(z, r, b, e);
  }

  // ---------- sliding windows ----------

  /** g holds the odd powers of b up to km; the slots between them stand for unset ones. */
  ghost predicate Table(z: Reducer, g: seq<BigInteger>, b: int, km: int)
    reads Numbers(z), g
  {
    |g| > km && forall o | 1 <= o <= km && o % 2 == 1 :: Holds(z, g[o], b, o)
  }

  lemma TableAt(z: Reducer, g: seq<BigInteger>, b: int, km: int, o: int)
    requires Table(z, g, b, km) && 1 <= o <= km && o % 2 == 1
    ensures o < |g| && Holds(z, g[o], b, o)
  {}

  lemma TableStart(z: Reducer, g1: BigInteger, b: int)
    requires Holds(z, g1, b, 1)
    ensures Table(z, [g1, g1], b, 1)
  {}

  lemma TableGrows(z: Reducer, g: seq<BigInteger>, b: int, n: nat, unset: BigInteger, y: BigInteger)
    requires n % 2 == 1 && n >= 3 && |g| == n - 1 && Table(z, g, b, n - 2) && Holds(z, y, b, n)
    ensures Table(z, g + [unset, y], b, n)
  {
    hide Holds;
    var g' := g + [unset, y];
    forall o | 1 <= o <= n && o % 2 == 1 ensures Holds(z, g'[o], b, o) {
      assert o < n - 1 ==> g'[o] == g[o];
    }
  }

  method BitLength(e: BigInteger) returns (r: int)
    requires e.Clamped() && e.s == 0
    ensures if e.t == 0 then r == 0 else DB * (e.t - 1) < r <= DB * e.t
    ensures e.t > 0 ==> P2(r - DB * (e.t - 1) - 1) <= e.words[e.t - 1] < P2(r - DB * (e.t - 1))
  {
    if e.t <= 0 { return 0; }
    var n := NBits(e.words[e.t - 1]);
    P2Word();
    if n - 1 >= DB { PowMonotone(2, DB, n - 1); }
    return DB * (e.t - 1) + n;
  }

  lemma Quadruple(u: int, n: nat)
    requires n >= 2
    ensures u * P2(n) == 4 * u * P2(n - 2)
  {
    assert P2(n) == 2 * P2(n - 1) && P2(n - 1) == 2 * P2(n - 2);
    assert u * (4 * P2(n - 2)) == 4 * u * P2(n - 2);
  }

  // r2 = r^(2^n), with r as scratch; the two may come back swapped
  method SquareRepeatedly(z: Reducer, x: BigInteger, y: BigInteger, n0: nat, ghost b: int, ghost a: nat)
    returns (r: BigInteger, r2: BigInteger)
    requires Holds(z, x, b, a) && x != y && Apart(z, x) && Apart(z, y)
    modifies x, y
    ensures {r, r2} == {x, y} && r != r2
    ensures 0 <= a * P2(n0) && Holds(z, r2, b, a * P2(n0))
  {
    assert P2(1) == 2 && P2(0) == 1;
    hide Holds;
    hide P2;
    r, r2 := x, y;
    var n := n0;
    ghost var u: nat := a;
    while n > 1
      invariant 0 <= n && u * P2(n) == a * P2(n0) && r == x && r2 == y && Holds(z, r, b, u)
    {
      SqrPow(z, r, r2, b, u);
      SqrPow(z, r2, r, b, 2 * u);
      Quadruple(u, n);
      u := 4 * u;
      n := n - 2;
    }
    if n > 0 {
      SqrPow(z, r, r2, b, u);
    } else {
      r, r2 := r2, r;
    }
  }

  // g[n] = g2 * g[n - 2]
  method NextOddPower(z: Reducer, g: seq<BigInteger>, g2: BigInteger, n: nat, ghost b: int) returns (g': seq<BigInteger>)
    requires n % 2 == 1 && n >= 3 && |g| == n - 1 && Table(z, g, b, n - 2) && Holds(z, g2, b, 2)
    ensures |g'| == n + 1 && Table(z, g', b, n)
  {
    TableAt(z, g, b, n - 2, n - 2);
    hide Holds;
    hide Table;
    var y := new BigInteger();
    MulPow(z, g2, g[n - 2], y, b, 2, n - 2);
    TableGrows(z, g, b, n, g[0], y);
    g' := g + [g[0], y];
  }

  lemma LargestWindow(k: nat)
    requires k >= 1
    ensures P2(1) == 2 && (k > 1 ==> (P2(k) - 1) % 2 == 1 && P2(k) - 1 >= 3)
  {
    if k > 1 {
      var q := P2(k - 2);
      assert P2(k) == 2 * P2(k - 1) && P2(k - 1) == 2 * q;
      P2Positive(k - 2);
      DivUnique(4 * q - 1, 2, 2 * q - 1, 1);
    }
  }

  /** Precomputation: the odd powers up to 2^k - 1. */
  method OddPowers(z: Reducer, x: BigInteger, k: nat) returns (g: seq<BigInteger>)
    requires x.Clamped() && Ready(z) && 1 <= k <= 6
    ensures Table(z, g, x.Value(), P2(k) - 1)
  {
    LargestWindow(k);
    hide P2;
    hide Holds;
    hide Table;
    hide Sum;
    hide Term;
    ghost var b := x.Value();
    var g1 := Base(z, x);
    if k > 1 {
      var g2 := Squared(z, g1, b);
      var km := P2(k) - 1;
      g := MoreOddPowers(z, g1, g2, km, b);
    } else {
      TableStart(z, g1, b);
      g := [g1, g1];
    }
  }

  method Squared(z: Reducer, g1: BigInteger, ghost b: int) returns (g2: BigInteger)
    requires Holds(z, g1, b, 1)
    ensures fresh(g2) && Holds(z, g2, b, 2) && Holds(z, g1, b, 1)
  {
    hide Holds;
    assert allocated(Numbers(z));
    g2 := new BigInteger();
    SqrPow(z, g1, g2, b, 1);
  }

  method MoreOddPowers(z: Reducer, g1: BigInteger, g2: BigInteger, km: int, ghost b: int) returns (g: seq<BigInteger>)
    requires Holds(z, g1, b, 1) && Holds(z, g2, b, 2) && km % 2 == 1 && km >= 3
    ensures Table(z, g, b, km)
  {
    TableStart(z, g1, b);
    hide Holds;
    hide Table;
    assert allocated(Numbers(z));
    g := [g1, g1];
    var n := 3;
    while n <= km
      invariant n % 2 == 1 && 3 <= n <= km + 2 && |g| == n - 1
      invariant Holds(z, g2, b, 2) && Table(z, g, b, n - 2)
    {
      g := NextOddPower(z, g, g2, n, b);
      n := n + 2;
    }
  }

  /** Skip over zero bits of the exponent, one squaring each. */
  method SkipZeros(z: Reducer, w: seq<int>, ghost t: nat, x: BigInteger, y: BigInteger, j0: int, i0: nat, ghost b: int)
    returns (r: BigInteger, r2: BigInteger, j: int, i: nat)
    requires AreDigits(w, 0, t) && -1 <= j0 < t && i0 < DB && (j0 == -1 ==> i0 == DB - 1)
    requires Shr(Sum(w, 0, t), DB * j0 + i0 + 1) >= 0 && x != y && Apart(z, x) && Apart(z, y)
    requires Holds(z, x, b, Shr(Sum(w, 0, t), DB * j0 + i0 + 1))
    modifies x, y
    ensures {r, r2} == {x, y} && r != r2
    ensures -1 <= j < t && i < DB && (j == -1 ==> i == DB - 1) && DB * j + i <= DB * j0 + i0
    ensures j >= 0 ==> Shr(Sum(w, 0, t), DB * j + i) % 2 == 1
    ensures Shr(Sum(w, 0, t), DB * j + i + 1) >= 0 && Holds(z, r, b, Shr(Sum(w, 0, t), DB * j + i + 1))
  {
    hide Holds;
    hide Sum;
    r, r2, j, i := x, y, j0, i0;
    ghost var E := Sum(w, 0, t);
    while j >= 0 && BitClear(w, j, i)
      invariant -1 <= j < t && i < DB && (j == -1 ==> i == DB - 1) && DB * j + i <= DB * j0 + i0
      invariant {r, r2} == {x, y} && r != r2
      invariant Shr(E, DB * j + i + 1) >= 0 && Holds(z, r, b, Shr(E, DB * j + i + 1))
      decreases DB * j + i
    {
      BitOfWord(w, t, j, i);
      ShrStep(E, DB * j + i) by { SumBound(w, 0, t); }
      SqrPow(z, r, r2, b, Shr(E, DB * j + i + 1));
      r, r2 := r2, r;
      if i == 0 {
        i := DB - 1;
        j := j - 1;
      } else {
        i := i - 1;
      }
    }
    if j >= 0 { BitOfWord(w, t, j, i); }
  }

  predicate BitClear(w: seq<int>, j: nat, i: nat)
    requires j < |w|
  {
    P2Positive(i);
    w[j] / P2(i) % 2 == 0
  }

  lemma BitOfWord(w: seq<int>, t: nat, j: nat, i: nat)
    requires AreDigits(w, 0, t) && j < t && i < DB
    ensures BitClear(w, j, i) <==> Shr(Sum(w, 0, t), DB * j + i) % 2 == 0
  {
    P2Twice(DB - i - 1);
    hide Sum;
    hide P2;
    WordShift(w, t, j, i);
    P2Positive(i);
    EvenPart(w[j] / P2(i), P2(DB - i - 1), Sum(w, j + 1, t - j - 1));
  }

  lemma EvenPart(a: int, h: int, H: int)
    ensures (a + h * 2 * H) % 2 == a % 2
  {
    assert h * 2 * H == h * H * 2;
  }

  /** Read one window: r is raised to 2^n and multiplied by the power for the window's value. */
  method TakeWindow(z: Reducer, w: seq<int>, ghost t: nat, g: seq<BigInteger>, x: BigInteger, y: BigInteger,
      is1: bool, j0: nat, i0: nat, k: nat, ghost b: int)
    returns (r: BigInteger, r2: BigInteger, j: int, i: nat)
    requires AreDigits(w, 0, t) && j0 < t && i0 < DB && 1 <= k <= 6
    requires Shr(Sum(w, 0, t), DB * j0 + i0) % 2 == 1 && Shr(Sum(w, 0, t), DB * j0 + i0 + 1) >= 0
    requires Table(z, g, b, P2(k) - 1) && x !in g && y !in g && x != y && Apart(z, x) && Apart(z, y)
    requires if is1 then Shr(Sum(w, 0, t), DB * j0 + i0 + 1) == 0
             else Holds(z, x, b, Shr(Sum(w, 0, t), DB * j0 + i0 + 1))
    modifies x, y
    ensures {r, r2} == {x, y} && r != r2
    ensures -1 <= j < t && i < DB && (j == -1 ==> i == DB - 1) && DB * j + i < DB * j0 + i0
    ensures Shr(Sum(w, 0, t), DB * j + i + 1) >= 0 && Holds(z, r, b, Shr(Sum(w, 0, t), DB * j + i + 1))
  {
    hide Holds;
    hide Table;
    hide Sum;
    r, r2, j, i := x, y, j0, i0;
    var v, n := ReadWindow(w, t, j, i, k);
    if i < n {
      i := i + DB - n;
      j := j - 1;
    } else {
      i := i - n;
    }
    r, r2 := ApplyWindow(z, g, r, r2, is1, v, n, P2(k) - 1, b, Shr(Sum(w, 0, t), DB * j0 + i0 + 1));
  }

  // the window at bit i of word j, without its trailing zeros
  method ReadWindow(w: seq<int>, ghost t: nat, j: nat, i: nat, k: nat) returns (v: int, n: nat)
    requires AreDigits(w, 0, t) && j < t && i < DB && 1 <= k <= 6
    requires Shr(Sum(w, 0, t), DB * j + i) % 2 == 1
    ensures 1 <= n <= k && n <= DB * j + i + 1 && v % 2 == 1 && 1 <= v <= P2(k) - 1
    ensures Shr(Sum(w, 0, t), DB * j + i + 1 - n) == Shr(Sum(w, 0, t), DB * j + i + 1) * P2(n) + v
  {
    assert Sum(w, 0, t) >= 0 by { SumBound(w, 0, t); }
    hide Sum;
    hide P2;
    ghost var E, p := Sum(w, 0, t), DB * j + i;
    var win := Window(w, t, j, i, k);
    WindowPositive(E, p, k);
    v, n := StripZeros(win, k);
    WindowRead(E, p, k, v, n);
    P2Monotone(n, k);
  }

  // r = r^(2^n) * g[v], the powers being of b
  method ApplyWindow(z: Reducer, g: seq<BigInteger>, x: BigInteger, y: BigInteger, is1: bool, v: int, n: nat, km: int,
      ghost b: int, ghost A: int)
    returns (r: BigInteger, r2: BigInteger)
    requires Table(z, g, b, km) && x !in g && y !in g && x != y && Apart(z, x) && Apart(z, y)
    requires v % 2 == 1 && 1 <= v <= km && A >= 0 && if is1 then A == 0 else Holds(z, x, b, A)
    modifies x, y
    ensures {r, r2} == {x, y} && r != r2 && A * P2(n) + v >= 0 && Holds(z, r, b, A * P2(n) + v)
  {
    hide Holds;
    hide Table;
    hide P2;
    r, r2 := x, y;
    TableAt(z, g, b, km, v);
    P2Positive(n);
    MulMono(0, A, P2(n));
    if is1 {
      CopyHolds(z, g[v], r, b, v);
    } else {
      r, r2 := SquareRepeatedly(z, r, r2, n, b, A);
      TableAt(z, g, b, km, v);
      MulPow(z, r2, g[v], r, b, A * P2(n), v);
    }
  }

  lemma P2Monotone(n: nat, k: nat)
    requires n <= k
    ensures P2(n) <= P2(k)
  {
    PowMonotone(2, n, k);
  }

  /** The reducer chosen from the size of the exponent and the parity of the modulus. */
  method ChooseReducer(bits: int, m: BigInteger) returns (z: Reducer)
    requires m.Clamped() && m.s == 0 && m.Value() > 0
    requires bits >= 8 && m.Value() % 2 == 0 ==> m.t + 4 <= DV
    ensures !z.Null? && z.m == m && Ready(z)
    ensures z.Classic? <==> bits < 8
    ensures z.Montgomery? <==> bits >= 8 && m.Value() % 2 == 1
  {
    ClampedRange(m.words, m.t, m.s);
    TermSmall(0);
    Odd(m);
    if bits < 8 {
      z := Classic(m);
    } else if m.words[0] % 2 == 0 {
      z := NewBarrett(m);
    } else {
      z := NewMontgomery(m);
    }
  }

  lemma TopBit(w: seq<int>, t: nat, n: nat)
    requires 0 < t && ClampedWords(w, t, 0) && 1 <= n <= DB && P2(n - 1) <= w[t - 1] < P2(n)
    ensures var p := DB * (t - 1) + n - 1; Shr(Sum(w, 0, t), p) == 1 && Shr(Sum(w, 0, t), p + 1) == 0
  {
    var E, p := Sum(w, 0, t), DB * (t - 1) + (n - 1);
    SumBound(w, 0, t);
    WordShift(w, t, t - 1, n - 1);
    P2Positive(n - 1);
    assert P2(n) == 2 * P2(n - 1);
    DivUnique(w[t - 1], P2(n - 1), 1, w[t - 1] - P2(n - 1));
    ShrStep(E, p);
  }

  lemma EightBits(w: seq<int>, t: nat, bits: int)
    requires 0 < t && ClampedWords(w, t, 0) && DB * (t - 1) < bits <= DB * t && P2(bits - DB * (t - 1) - 1) <= w[t - 1]
    ensures bits >= 8 ==> Signed(w, t, 0) >= 128
  {
    TermSmall(t);
    if t == 1 && bits >= 8 {
      PowMonotone(2, 7, bits - 1);
      assert Pow(2, 7) == 128;
      assert Sum(w, 0, 1) == Sum(w, 0, 0) + Term(w[0], 0);
    } else if t > 1 {
      ClampedRange(w, t, 0);
      PowMonotone(DV, 1, t - 1);
      assert W(1) == DV * W(0);
    }
  }

  /** this^e for e in 1 .. 2^32, without a modulus. */
  method Power(x: BigInteger, e: int) returns (r: BigInteger)
    requires x.Clamped()
    ensures r.Clamped() && r.Value() == if 1 <= e <= 0xffff_ffff then Pow(x.Value(), e) else 1
  {
    r := Exp(x, e, Null);
  }

  /** this^e mod m for e >= 0. The result is the residue in 0..m, except for e = 0 and m = 1. */
  method ModPow(x: BigInteger, e: BigInteger, m: BigInteger) returns (r: BigInteger)
    requires x.Clamped() && e.Clamped() && m.Clamped() && e.s == 0 && m.s == 0 && m.Value() > 0
    requires e.Value() >= 128 && m.Value() % 2 == 0 ==> m.t + 4 <= DV
    ensures r.Clamped() && 0 <= e.Value() && Cong(r.Value(), Pow(x.Value(), e.Value()), m.Value())
    ensures 0 <= r.Value() < m.Value() <==> !(e.Value() == 0 && m.Value() == 1)
  {
    hide Term;
    ClampedRange(e.words, e.t, e.s);
    TermSmall(e.t);
    var bits := BitLength(e);
    if bits <= 0 {
      CongIntro(1, 1, m.Value(), 0);
      r := One();
      return;
    }
    WeightPositive(e.t - 1);
    EightBits(e.words, e.t, bits);
    var k: nat := if bits < 18 then 1 else if bits < 48 then 3 else if bits < 144 then 4 else if bits < 768 then 5 else 6;
    var z := ChooseReducer(bits, m);
    r := PowByWindows(z, x, e, k);
  }

  method PowByWindows(z: Reducer, x: BigInteger, e: BigInteger, k: nat) returns (r: BigInteger)
    requires Ready(z) && x.Clamped() && e.Clamped() && e.s == 0 && e.t > 0 && 1 <= k <= 6
    ensures Ready(z) && r.Clamped() && 0 <= Sum(e.words, 0, e.t)
    ensures Denotes(z, r.Value(), Pow(x.Value(), Sum(e.words, 0, e.t)))
  {
    ghost var b := x.Value();
    var n := NBits(e.words[e.t - 1]);
    assert 1 <= n <= DB by { P2Word(); if n > DB { P2Monotone(DB, n - 1); } }
    hide P2;
    hide Sum;
    hide Holds;
    hide Table;
    TopBit(e.words, e.t, n);
    var g := OddPowers(z, x, k);
    r := ReadExponent(z, e.words, e.t, g, e.t - 1, n - 1, k, b);
  }

  /** The main loop, from the highest bit of the exponent, bit i of word j, to the lowest. */
  method ReadExponent(z: Reducer, w: seq<int>, ghost t: nat, g: seq<BigInteger>, j0: nat, i0: nat, k: nat, ghost b: int)
    returns (r: BigInteger)
    requires AreDigits(w, 0, t) && j0 < t && i0 < DB && 1 <= k <= 6 && Table(z, g, b, P2(k) - 1)
    requires Shr(Sum(w, 0, t), DB * j0 + i0) % 2 == 1 && Shr(Sum(w, 0, t), DB * j0 + i0 + 1) == 0
    ensures 0 <= Sum(w, 0, t) && Ready(z) && r.Clamped() && Denotes(z, r.Value(), Pow(b, Sum(w, 0, t)))
  {
    hide Holds;
    hide Table;
    hide Sum;
    ghost var E := Sum(w, 0, t);
    assert allocated(Numbers(z));
    r := new BigInteger();
    var r2 := new BigInteger();
    var j, i, is1 := j0, i0, true;
    while j >= 0
      invariant -1 <= j < t && 0 <= i < DB && (j == -1 ==> i == DB - 1)
      invariant fresh(r) && fresh(r2) && r != r2
      invariant Table(z, g, b, P2(k) - 1)
      invariant j >= 0 ==> Shr(E, DB * j + i) % 2 == 1
      invariant Shr(E, DB * j + i + 1) >= 0 && (is1 ==> j >= 0 && Shr(E, DB * j + i + 1) == 0)
      invariant !is1 ==> Holds(z, r, b, Shr(E, DB * j + i + 1))
      decreases DB * j + i
    {
      r, r2, j, i := TakeWindow(z, w, t, g, r, r2, is1, j, i, k, b);
      is1 := false;
      r, r2, j, i := SkipZeros(z, w, t, r, r2, j, i, b);
    }
    assert P2(0) == 1;
    SumBound(w, 0, t);
    r := RevertPow(z, r, b, E);
  }

  method RevertPow(z: Reducer, x: BigInteger, ghost b: int, ghost a: nat) returns (r: BigInteger)
    requires Holds(z, x, b, a) && Apart(z, x)
    ensures Ready(z) && r.Clamped() && Denotes(z, r.Value(), Pow(b, a))
  {
    r := Revert(z, x, Pow(b, a));
  }
}
