/** Montgomery reduction (crypto.js:884-948): the inverse digit and the reduction itself. */
module Montgomery {
  import opened Arith
  import opened Digits
  import opened BigIntegers

  // ---------- the inverse digit ----------

  /** One Newton step doubles the precision of an inverse modulo a power of two. */
  lemma Newton(x: int, y: int, u: int, y': int, k: int, K: int, j: int)
    requires k > 0 && K > 0 && k * k == j * K
    requires Cong(x * y, 1, k) && Cong(u, x * y, K) && Cong(y', y * (2 - u), K)
    ensures Cong(x * y', 1, K)
  {
    var q :| Multiple(q, k, x * y, 1);
    var e := x * y - 1;
    assert x * (y * (2 - x * y)) - 1 == -(q * q * j) * K by {
      assert x * (y * (2 - x * y)) == (x * y) * (2 - x * y);
      assert (1 + e) * (1 - e) == 1 - e * e;
      assert (q * k) * (q * k) == q * q * (k * k) by { Regroup(q, k, q, k); }
      assert q * q * (j * K) == (q * q * j) * K;
    }
    CongIntro(x * (y * (2 - x * y)), 1, K, -(q * q * j));
    NewtonReplace(x, y, u, y', K);
    CongTrans(x * y', x * (y * (2 - x * y)), 1, K);
  }

  lemma NewtonReplace(x: int, y: int, u: int, y': int, K: int)
    requires K > 0 && Cong(u, x * y, K) && Cong(y', y * (2 - u), K)
    ensures Cong(x * y', x * (y * (2 - x * y)), K)
  {
    var a :| Multiple(a, K, u, x * y);
    assert y * (2 - u) - y * (2 - x * y) == (-(y * a)) * K by {
      assert y * (2 - u) - y * (2 - x * y) == -(y * (u - x * y));
      assert y * (a * K) == (y * a) * K;
    }
    CongIntro(y * (2 - u), y * (2 - x * y), K, -(y * a));
    CongTrans(y', y * (2 - u), y * (2 - x * y), K);
    CongIntro(x, x, K, 0);
    CongMul(x, x, y', y * (2 - x * y), K);
  }

  /** -1/m[0] modulo DV, by four Newton steps from two bits to sixteen and one to DB. */
  method InvDigit(m: BigInteger) returns (r: int)
    requires m.Valid()
    ensures m.t == 0 || m.words[0] % 2 == 0 ==> r == 0
    ensures m.t > 0 && m.words[0] % 2 == 1 ==> 0 <= r < DV && Cong(m.words[0] * r, -1, DV)
  {
    if m.t < 1 { return 0; }
    var x := m.words[0];
    if x % 2 == 0 { return 0; }
    var y := x % 4;
    InverseMod4(x);
    ghost var y2 := y;
    y := y * (2 - x % 0x10 * y) % 0x10;
    StepMasked(x, y2, 4, 0x10, 1);
    ghost var y4 := y;
    y := y * (2 - x % 0x100 * y) % 0x100;
    StepMasked(x, y4, 0x10, 0x100, 1);
    ghost var y8 := y;
    y := y * (2 - x % 0x1_0000 * y % 0x1_0000) % 0x1_0000;
    StepTwiceMasked(x, y8, 0x100, 0x1_0000, 1);
    ghost var y16 := y;
    y := JsRem(y * (2 - JsRem(x * y, DV)), DV);
    Newton(x, y16, JsRem(x * y16, DV), y, 0x1_0000, DV, 16);
    r := if y > 0 then DV - y else -y;
    NegatedInverse(x, y, r);
  }

  lemma InverseMod4(x: int)
    requires x % 2 == 1
    ensures Cong(x * (x % 4), 1, 4)
  {
    var a, b := x / 4, x % 4;
    assert x == 4 * a + b;
    if b == 1 { CongIntro(x * b, 1, 4, a); } else { CongIntro(x * b, 1, 4, 3 * a + 2); }
  }

  lemma StepMasked(x: int, y: int, k: int, K: int, j: int)
    requires k > 0 && K > 0 && k * k == j * K && Cong(x * y, 1, k)
    ensures Cong(x * (y * (2 - x % K * y) % K), 1, K)
  {
    CongMod(x, K);
    CongIntro(y, y, K, 0);
    CongMul(x % K, x, y, y, K);
    CongMod(y * (2 - x % K * y), K);
    Newton(x, y, x % K * y, y * (2 - x % K * y) % K, k, K, j);
  }

  lemma StepTwiceMasked(x: int, y: int, k: int, K: int, j: int)
    requires k > 0 && K > 0 && k * k == j * K && Cong(x * y, 1, k)
    ensures Cong(x * (y * (2 - x % K * y % K) % K), 1, K)
  {
    CongMod(x, K);
    CongIntro(y, y, K, 0);
    CongMul(x % K, x, y, y, K);
    CongMod(x % K * y, K);
    CongTrans(x % K * y % K, x % K * y, x * y, K);
    CongMod(y * (2 - x % K * y % K), K);
    Newton(x, y, x % K * y % K, y * (2 - x % K * y % K) % K, k, K, j);
  }

  lemma NegatedInverse(x: int, y: int, r: int)
    requires Cong(x * y, 1, DV) && -DV < y < DV && r == if y > 0 then DV - y else -y
    ensures Cong(x * r, -1, DV)
  {
    var k :| Multiple(k, DV, x * y, 1);
    if y > 0 {
      assert x * r == x * DV - x * y;
      CongIntro(x * r, -1, DV, x - k);
    } else {
      assert x * r == -(x * y);
      CongIntro(x * r, -1, DV, -k);
    }
  }

  // ---------- Montgomery reduction ----------

  /** u0 = x_i * mp mod DV, computed from 15-bit halves so that every product fits 32 bits. */
  function LowProduct(xi: int, mp: int): (u0: int)
    requires 0 <= xi < DV && 0 <= mp < DV
    ensures 0 <= u0 < DV && Cong(u0, xi * mp, DV)
  {
    var mpl, mph, um := mp % 0x8000, mp / 0x8000, 0x1fff;
    var j, h := xi % 0x8000, xi / 0x8000;
    LowProductExact(xi, mp);
    (j * mpl + (j * mph + h * mpl) % 0x2000 * 0x8000) % DV
  }

  lemma LowProductExact(xi: int, mp: int)
    requires 0 <= xi < DV && 0 <= mp < DV
    ensures var (mpl, mph, j, h) := (mp % 0x8000, mp / 0x8000, xi % 0x8000, xi / 0x8000);
      && 0 <= j * mph + h * mpl < 0x8000_0000
      && 0 <= j * mpl + (j * mph + h * mpl) % 0x2000 * 0x8000 < 0x8000_0000
      && Cong((j * mpl + (j * mph + h * mpl) % 0x2000 * 0x8000) % DV, xi * mp, DV)
  {
    var mpl, mph, j, h := mp % 0x8000, mp / 0x8000, xi % 0x8000, xi / 0x8000;
    ProductBound(j, 0x8000, mph, 0x2000);
    ProductBound(h, 0x2000, mpl, 0x8000);
    ProductBound(j, 0x8000, mpl, 0x8000);
    var mid := j * mph + h * mpl;
    var low := j * mpl + mid % 0x2000 * 0x8000;
    assert xi * mp == h * mph * 0x4000_0000 + mid * 0x8000 + j * mpl by {
      assert xi == h * 0x8000 + j && mp == mph * 0x8000 + mpl;
      SplitSquare(h, j, mph, mpl);
    }
    CongIntro(low, xi * mp, DV, -(h * mph * 4 + mid / 0x2000));
    CongMod(low, DV);
    CongTrans(low % DV, low, xi * mp, DV);
  }

  lemma SplitSquare(h: int, j: int, mh: int, ml: int)
    ensures (h * 0x8000 + j) * (mh * 0x8000 + ml) == h * mh * 0x4000_0000 + (j * mh + h * ml) * 0x8000 + j * ml
  {
    assert (h * 0x8000 + j) * (mh * 0x8000 + ml) == (h * 0x8000) * (mh * 0x8000) + (h * 0x8000) * ml + j * (mh * 0x8000) + j * ml;
  }

  /** With u0 = -x_i / m_0, adding u0 * m at word i clears that word. */
  lemma ClearedWord(w0: seq<int>, w1: seq<int>, m: seq<int>, i: nat, n: nat, u0: int, c: int, mp: int)
    requires 0 < n <= |m| && i + n <= |w0| && i + n <= |w1| && 0 <= w1[i] < DV
    requires Sum(w1, i, n) + Term(c, n) == Sum(w0, i, n) + Times(u0, Sum(m, 0, n))
    requires Cong(u0, w0[i] * mp, DV) && Cong(m[0] * mp, -1, DV)
    ensures w1[i] == 0
  {
    LowWords(w0, w1, m, i, n, u0, c);
    hide *;
    WordVanishes(w0[i], u0, m[0], mp);
    CongTrans(w1[i], w0[i] + u0 * m[0], 0, DV);
    CongUnique(w1[i], 0, DV);
  }

  lemma LowWords(w0: seq<int>, w1: seq<int>, m: seq<int>, i: nat, n: nat, u0: int, c: int)
    requires 0 < n <= |m| && i + n <= |w0| && i + n <= |w1|
    requires Sum(w1, i, n) + Term(c, n) == Sum(w0, i, n) + Times(u0, Sum(m, 0, n))
    ensures Cong(w1[i], w0[i] + u0 * m[0], DV)
  {
    hide Term;
    hide Times;
    hide Sum;
    hide Cong;
    SumLow(w1, i, n);
    SumLow(w0, i, n);
    SumLow(m, 0, n);
    TermUp(c, n - 1);
    TermMul(DV, c, n - 1);
    TimesIs(u0, Sum(m, 0, n));
    ClearedAlgebra(w1[i], Sum(w1, i + 1, n - 1), w0[i], Sum(w0, i + 1, n - 1), u0, m[0], Sum(m, 1, n - 1), Term(c, n - 1));
  }

  lemma ClearedAlgebra(w1: int, A: int, w0: int, B: int, u0: int, m0: int, M: int, C: int)
    requires w1 + DV * A + DV * C == w0 + DV * B + u0 * (m0 + DV * M)
    ensures Cong(w1, w0 + u0 * m0, DV)
  {
    assert u0 * (m0 + DV * M) == u0 * m0 + DV * (u0 * M);
    CongIntro(w1, w0 + u0 * m0, DV, B + u0 * M - A - C);
  }

  lemma WordVanishes(d: int, u0: int, m0: int, mp: int)
    requires Cong(u0, d * mp, DV) && Cong(m0 * mp, -1, DV)
    ensures Cong(d + u0 * m0, 0, DV)
  {
    var a :| Multiple(a, DV, u0, d * mp);
    var b :| Multiple(b, DV, m0 * mp, -1);
    assert u0 * m0 == d * (m0 * mp) + a * m0 * DV by {
      assert (d * mp + a * DV) * m0 == d * mp * m0 + a * DV * m0;
      assert d * mp * m0 == d * (m0 * mp);
      assert a * DV * m0 == a * m0 * DV;
    }
    assert d * (-1 + b * DV) == -d + d * b * DV;
    CongIntro(d + u0 * m0, 0, DV, d * b + a * m0);
  }

  // a word that is too large passes one on to the next, within the n words, as their value fits them
  method PropagateCarry(x: BigInteger, j0: nat, ghost n: nat)
    requires j0 < n <= |x.words| && 0 <= x.words[j0] < 2 * DV
    requires forall k | 0 <= k < n && k != j0 :: 0 <= x.words[k] < DV
    requires Sum(x.words, 0, n) < W(n)
    modifies x`words
    ensures AreDigits(x.words, 0, n) && Sum(x.words, 0, n) == Sum(old(x.words), 0, n)
    ensures forall k | 0 <= k < j0 :: x.words[k] == old(x.words)[k]
  {
    hide Pow;
    hide Term;
    var j := j0;
    InRange(x.words, j, n);
    while x.words[j] >= DV
      invariant j0 <= j < n <= |x.words| && 0 <= x.words[j] < 2 * DV
      invariant forall k | 0 <= k < n && k != j :: 0 <= x.words[k] < DV
      invariant forall k | 0 <= k < j0 :: x.words[k] == old(x.words)[k]
      invariant Sum(x.words, 0, n) == Sum(old(x.words), 0, n)
      invariant j == n - 1 ==> x.words[j] < DV
      decreases n - j
    {
      ghost var before := x.words;
      x.words := x.words[j := x.words[j] - DV];
      j := j + 1;
      x.words := x.words[j := x.words[j] + 1];
      CarryKeepsSum(before, x.words, j - 1, n);
      InRange(x.words, j, n);
    }
  }

  lemma InRange(w: seq<int>, j: nat, n: nat)
    requires j < n <= |w| && 0 <= w[j] && Sum(w, 0, n) < W(n)
    requires forall k | 0 <= k < n && k != j :: 0 <= w[k] < DV
    ensures j == n - 1 ==> w[j] < DV
  {
    if j == n - 1 && w[j] >= DV {
      SumBound(w, 0, j);
      TermMono(DV, w[j], j);
      TermUp(1, j);
      TermSmall(n);
    }
  }

  lemma CarryKeepsSum(w: seq<int>, w': seq<int>, j: nat, n: nat)
    requires j + 1 < n <= |w| && n <= |w'|
    requires forall k | 0 <= k < n && k != j && k != j + 1 :: w'[k] == w[k]
    requires w'[j] == w[j] - DV && w'[j + 1] == w[j + 1] + 1
    ensures Sum(w', 0, n) == Sum(w, 0, n)
  {
    SumEqual(w, 0, w', 0, j);
    SumTail(w, w', j + 2, n);
    TermAdd(w[j], DV, j);
    TermAdd(w[j + 1], 1, j + 1);
    TermUp(1, j);
    hide Term;
    assert Sum(w, 0, j + 1) == Sum(w, 0, j) + Term(w[j], j);
    assert Sum(w, 0, j + 2) == Sum(w, 0, j + 1) + Term(w[j + 1], j + 1);
    assert Sum(w', 0, j + 1) == Sum(w', 0, j) + Term(w'[j], j);
    assert Sum(w', 0, j + 2) == Sum(w', 0, j + 1) + Term(w'[j + 1], j + 1);
  }

  // one round of the reduction: a multiple of m clears word i of x
  method ReduceRow(x: BigInteger, m: BigInteger, mp: int, i: nat) returns (ghost u: int)
    requires x != m && m.Clamped() && m.s == 0 && i < m.t
    requires 0 <= mp < DV && Cong(m.words[0] * mp, -1, DV)
    requires AreDigits(x.words, 0, 2 * m.t + 1) && forall k | 0 <= k < i :: x.words[k] == 0
    requires Sum(x.words, 0, 2 * m.t + 1) + W(i) * Times(DV - 1, m.Value()) < W(2 * m.t + 1)
    modifies x`words
    ensures AreDigits(x.words, 0, 2 * m.t + 1) && forall k | 0 <= k <= i :: x.words[k] == 0
    ensures 0 <= u < DV
    ensures Sum(x.words, 0, 2 * m.t + 1) == Sum(old(x.words), 0, 2 * m.t + 1) + W(i) * Times(u, m.Value())
  {
    hide Term;
    hide Pow;
    hide Times;
    TermZero(0);
    var u0 := LowProduct(x.words[i], mp);
    u := u0;
    SignedUnsigned(m.words, m.t);
    ghost var w0, n := x.words, m.t;
    var j := i + m.t;
    var c := m.Am3(0, u0, x, i, 0, m.t);
    ghost var w1 := x.words;
    ClearedWord(w0, w1, m.words, i, n, u0, c, mp);
    x.words := x.words[j := x.words[j] + c];
    AccumulateAt(w0, w1, x.words, i, n, 2 * n + 1, c, Times(u0, m.Value()));
    ScaledMono(W(i), u0, DV - 1, m.Value()) by { WeightPositive(i); ClampedRange(m.words, m.t, m.s); }
    PropagateCarry(x, j, 2 * m.t + 1);
  }

  lemma SignedUnsigned(w: seq<int>, t: nat)
    requires t <= |w|
    ensures Signed(w, t, 0) == Sum(w, 0, t)
  {
    TermSmall(t);
  }

  lemma ScaledMono(p: int, a: int, b: int, M: int)
    requires p >= 0 && M >= 0 && a <= b
    ensures p * Times(a, M) <= p * Times(b, M)
  {
    MulMono(a, b, M);
    MulMono(a * M, b * M, p);
    assert (a * M) * p == p * (a * M) && (b * M) * p == p * (b * M);
  }

  lemma PadBound(xw: seq<int>, xt: nat, xs: int, mw: seq<int>, n: nat)
    requires ClampedWords(xw, xt, xs) && ClampedWords(mw, n, 0)
    requires 0 <= Signed(xw, xt, xs) < Signed(mw, n, 0) * W(n)
    ensures xs == 0 && xt <= 2 * n && 0 < Signed(mw, n, 0) < W(n)
    ensures W(0) == 1 && Times(0, Signed(mw, n, 0)) == 0
  {
    hide Term;
    ClampedRange(xw, xt, xs);
    ClampedRange(mw, n, 0);
    TimesIs(0, Signed(mw, n, 0));
    MulMono(Signed(mw, n, 0), W(n), W(n));
    WeightAdd(n, n);
    assert 2 * n == n + n;
    if xt > 2 * n { WeightMonotone(2 * n, xt - 1); }
  }

  lemma WeightMonotone(i: nat, j: nat)
    requires i <= j
    ensures W(i) <= W(j)
  {
    PowMonotone(DV, i, j);
  }

  lemma PadStep(w: seq<int>, t: nat)
    requires t <= |w|
    ensures Signed(Put(w, t, 0), t + 1, 0) == Signed(w, t, 0)
  {
    SumPut(w, t, 0);
    TermSmall(t);
    TermSmall(t + 1);
  }

  lemma RowBound(X: int, M: int, Q: int, i: nat, n: nat)
    requires i < n && 0 <= Q < W(i) && 0 < M < W(n) && 0 <= X < M * W(n)
    ensures X + Times(Q, M) + W(i) * Times(DV - 1, M) < W(2 * n + 1)
  {
    var p, q := W(i), W(n);
    assert W(2 * n + 1) == DV * W(2 * n);
    assert W(2 * n) == q * q by { WeightAdd(n, n); assert 2 * n == n + n; }
    assert DV * p <= q by { assert W(i + 1) == DV * p; WeightMonotone(i + 1, n); }
    WeightPositive(n);
    hide W;
    MulMono(Q, p - 1, M);
    MulMono(DV * p, q, M);
    MulMono(M, q, q);
    assert q * M == M * q && (p - 1) * M == p * M - M;
    assert p * ((DV - 1) * M) == (DV - 1) * (p * M);
    assert (DV * p) * M == DV * (p * M);
  }

  lemma QuotientStep(Q: int, u: int, i: nat, M: int)
    requires 0 <= Q < W(i) && 0 <= u < DV
    ensures 0 <= Q + W(i) * u < W(i + 1)
    ensures Times(Q + W(i) * u, M) == Times(Q, M) + W(i) * Times(u, M)
  {
    var p := W(i);
    assert W(i + 1) == DV * p;
    hide W;
    MulMono(0, u, p);
    MulMono(u, DV - 1, p);
    assert (DV - 1) * p == DV * p - p && u * p == p * u;
    assert (Q + p * u) * M == Q * M + (p * u) * M;
    assert (p * u) * M == p * (u * M);
  }

  /** Shifting out n zero words divides exactly. */
  lemma ExactShift(w: seq<int>, n: nat, len: nat, V: int)
    requires n <= len <= |w| && forall k | 0 <= k < n :: w[k] == 0
    requires W(n) > 0 && V == Sum(w, 0, len) / W(n)
    ensures V * W(n) == Sum(w, 0, len)
  {
    SumSplit(w, 0, n, len - n);
    SumOfZeros(w, 0, n);
    hide W;
    hide Sum;
    MulComm(W(n), Sum(w, n, len - n));
    DivUnique(Sum(w, 0, len), W(n), Sum(w, n, len - n), 0);
  }

  lemma QuotientRange(V: int, p: int, X: int, M: int, Q: int)
    requires M > 0 && p > 0 && 0 <= Q < p && 0 <= X < M * p && V * p == X + Q * M
    ensures 0 <= V < 2 * M
  {
    MulMono(Q, p - 1, M);
    MulMono(0, Q, M);
    assert (p - 1) * M == M * p - M;
    if V < 0 { MulMono(V, -1, p); }
    assert (2 * M) * p == 2 * (M * p);
    if V >= 2 * M { MulMono(2 * M, V, p); }
  }

  lemma QuotientCong(V: int, p: int, X: int, M: int, Q: int)
    requires M > 0 && V * p == X + Q * M
    ensures Cong(V * p, X, M) && Cong((V - M) * p, X, M)
  {
    CongIntro(V * p, X, M, Q);
    assert (V - M) * p == V * p - M * p;
    assert (Q - p) * M == Q * M - M * p;
    CongIntro((V - M) * p, X, M, Q - p);
  }

  /** x = x/R mod m, for R = DV^(m.t). */
  method Reduce(x: BigInteger, m: BigInteger, mp: int)
    requires x != m && m.Clamped() && m.s == 0 && m.t > 0
    requires 0 <= mp < DV && Cong(m.words[0] * mp, -1, DV)
    requires x.Clamped() && 0 <= x.Value() < m.Value() * W(m.t)
    modifies x
    ensures x.Clamped() && 0 <= x.Value() < m.Value()
    ensures Cong(x.Value() * W(m.t), old(x.Value()), m.Value())
  {
    hide Term;
    hide Pow;
    hide Times;
    var n := m.t;
    ghost var X, M, Q := x.Value(), m.Value(), 0;
    PadBound(x.words, x.t, x.s, m.words, n);
    while x.t <= 2 * n
      invariant x.t <= 2 * n + 1 && x.Valid() && x.s == 0 && x.Value() == X
    {
      PadStep(x.words, x.t);
      x.words := Put(x.words, x.t, 0);
      x.t := x.t + 1;
    }
    SignedUnsigned(x.words, 2 * n + 1);
    var i := 0;
    while i < n
      invariant 0 <= i <= n && x.t == 2 * n + 1 && x.s == 0
      invariant AreDigits(x.words, 0, 2 * n + 1) && forall k | 0 <= k < i :: x.words[k] == 0
      invariant 0 <= Q < W(i) && Sum(x.words, 0, 2 * n + 1) == X + Times(Q, M)
    {
      RowBound(X, M, Q, i, n);
      ghost var u := ReduceRow(x, m, mp, i);
      QuotientStep(Q, u, i, M);
      Q := Q + W(i) * u;
      i := i + 1;
    }
    ghost var w := x.words;
    x.Clamp();
    x.DRShiftTo(n, x);
    ExactShift(w, n, 2 * n + 1, x.Value());
    TimesIs(Q, M);
    QuotientRange(x.Value(), W(n), X, M, Q);
    QuotientCong(x.Value(), W(n), X, M, Q);
    var r := x.CompareTo(m);
    if r >= 0 {
      x.SubTo(m, x);
    }
  }
}
