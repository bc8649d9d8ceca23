/** Barrett reduction (crypto.js:1440-1449, 1479-1556): division by m through a precomputed reciprocal. */
module Barrett {
  import opened Arith
  import opened Digits
  import opened BigIntegers

  // ---------- partial products ----------

  /** The words of u * a from position n up, products below position n left out row by row. */
  function UpperSum(u: seq<int>, ut: nat, a: seq<int>, i: nat, n: nat): int
    requires ut <= |u| && i <= |a| && i <= n + 1 && n <= ut
  {
    if i == 0 then 0 else UpperSum(u, ut, a, i - 1, n) + Times(a[i - 1], Sum(u, n - (i - 1), ut - (n - (i - 1))))
  }

  // the len words of r plus d times the upper words of u, the carry becoming one more word
  method UpperRow(u: BigInteger, d: int, k: nat, len: nat, r: BigInteger)
    requires u.Clamped() && r != u && 0 <= d < DV && k + len == u.t && AreDigits(r.words, 0, len) && len < |r.words|
    modifies r`words
    ensures AreDigits(r.words, 0, len + 1) && |r.words| == |old(r.words)|
    ensures Sum(r.words, 0, len + 1) == Sum(old(r.words), 0, len) + Times(d, Sum(u.words, k, len))
    ensures forall j | len < j < |r.words| :: r.words[j] == old(r.words)[j]
  {
    hide Term;
    hide Times;
    var c := u.Am3(k, d, r, 0, 0, len);
    SumPut(r.words, len, c);
    r.words := Put(r.words, len, c);
  }

  // r = the words of u * a from n on, up to what the left-out low products carry over
  method MultiplyUpperTo(u: BigInteger, a: BigInteger, n0: nat, r: BigInteger)
    requires u.Clamped() && u.s == 0 && a.Clamped() && a.s == 0 && r != u && r != a
    requires 0 < n0 <= u.t && a.t <= n0
    modifies r
    ensures r.Clamped() && r.s == 0
    ensures W(1) > 0 && r.Value() == UpperSum(u.words, u.t, a.words, a.t, n0 - 1) / W(1)
  {
    hide Term;
    hide Times;
    var n := n0 - 1;
    r.t := u.t + a.t - n;
    r.s := 0;
    r.ZeroWords(u.t + a.t - n);
    SumOfZeros(r.words, 0, u.t - n);
    var i := 0;
    while i < a.t
      invariant 0 <= i <= a.t && r.t == u.t + a.t - n && r.s == 0 && AreDigits(r.words, 0, r.t)
      invariant Sum(r.words, 0, u.t + i - n) == UpperSum(u.words, u.t, a.words, i, n)
      invariant forall k | u.t + i - n <= k < r.t :: r.words[k] == 0
    {
      UpperRow(u, a.words[i], n - i, u.t + i - n, r);
      i := i + 1;
    }
    TermSmall(r.t);
    r.Clamp();
    r.DRShiftTo(1, r);
  }

  /** The left-out products of row i are below W(n + 1), so the whole shortfall is small. */
  lemma {:induction false} UpperSumBound(u: seq<int>, ut: nat, a: seq<int>, i: nat, n: nat)
    requires AreDigits(u, 0, ut) && AreDigits(a, 0, i) && i <= n + 1 && n <= ut
    ensures 0 <= Sum(u, 0, ut) * Sum(a, 0, i) - W(n) * UpperSum(u, ut, a, i, n) <= i * W(n + 1)
    ensures UpperSum(u, ut, a, i, n) >= 0
    decreases i
  {
    if i > 0 {
      UpperSumBound(u, ut, a, i - 1, n);
      RowShortfall(u, ut, a[i - 1], i - 1, n);
    }
    hide W;
    hide Times;
    if i > 0 {
      DistributeShortfall(Sum(u, 0, ut), Sum(a, 0, i - 1), Term(a[i - 1], i - 1), W(n), UpperSum(u, ut, a, i - 1, n),
        Times(a[i - 1], Sum(u, n - (i - 1), ut - (n - (i - 1)))), i, W(n + 1));
    }
  }

  lemma DistributeShortfall(U: int, A: int, d: int, w: int, S: int, T: int, i: int, w1: int)
    requires 0 <= U * A - w * S <= (i - 1) * w1 && 0 <= U * d - w * T <= w1
    ensures 0 <= U * (A + d) - w * (S + T) <= i * w1
  {
    assert U * (A + d) == U * A + U * d && w * (S + T) == w * S + w * T && i * w1 == (i - 1) * w1 + w1;
  }

  lemma RowShortfall(u: seq<int>, ut: nat, d: int, i: nat, n: nat)
    requires AreDigits(u, 0, ut) && 0 <= d < DV && i <= n <= ut
    ensures 0 <= Sum(u, 0, ut) * Term(d, i) - W(n) * Times(d, Sum(u, n - i, ut - (n - i))) <= W(n + 1)
    ensures Times(d, Sum(u, n - i, ut - (n - i))) >= 0
  {
    var k := n - i;
    var L, H := Sum(u, 0, k), Sum(u, k, ut - k);
    SumSplit(u, 0, k, ut - k);
    SumBound(u, 0, k);
    SumBound(u, k, ut - k);
    WeightAdd(k, i);
    WeightPositive(i);
    assert W(n + 1) == DV * W(n);
    hide W;
    hide Sum;
    RowAlgebra(L, H, d, W(k), W(i));
    MulMono(0, d, H);
  }

  lemma RowAlgebra(L: int, H: int, d: int, wk: int, wi: int)
    requires 0 <= L < wk && 0 <= d < DV && wi > 0
    ensures 0 <= (L + wk * H) * (d * wi) - (wk * wi) * (d * H) <= DV * (wk * wi)
  {
    assert (L + wk * H) * (d * wi) == L * (d * wi) + (wk * wi) * (d * H) by { CrossTerm2(wk, H, d, wi); assert (L + wk * H) * (d * wi) == L * (d * wi) + (wk * H) * (d * wi); }
    MulMono(0, d, wi);
    MulMono(d, DV, wi);
    MulMono(0, L, d * wi);
    MulMono(L, wk, d * wi);
    MulMono(d * wi, DV * wi, wk);
    MulComm(wk, d * wi);
    MulComm(wk, DV * wi);
    assert (DV * wi) * wk == DV * (wk * wi);
  }

  lemma CrossTerm2(wk: int, H: int, d: int, wi: int)
    ensures (wk * H) * (d * wi) == (wk * wi) * (d * H)
  {
    Regroup(wk, H, wi, d);
    MulComm(d, wi);
    MulComm(H, d);
  }

  // r = the lower n words of u * a
  method MultiplyLowerTo(u: BigInteger, a: BigInteger, n: nat, r: BigInteger)
    requires u.Clamped() && u.s == 0 && a.Clamped() && a.s == 0 && r != u && r != a
    requires u.t <= n && a.t <= n
    modifies r
    ensures r.Clamped() && r.s == 0 && W(n) > 0 && r.Value() == u.Value() * a.Value() % W(n)
  {
    hide Term;
    hide W;
    var len := if u.t + a.t < n then u.t + a.t else n;
    r.s := 0;
    r.t := len;
    r.ZeroWords(len);
    WholeRows(u, a, len, r);
    WeightPositive(n);
    CongIntro(Sum(r.words, 0, len), Sum(u.words, 0, u.t) * Sum(a.words, 0, len - u.t), W(n), 0);
    CutRows(u, a, n, r);
    LowResult(r.words, len, u.words, u.t, a.words, a.t, n);
    r.Clamp();
  }

  lemma LowResult(r: seq<int>, len: nat, u: seq<int>, ut: nat, a: seq<int>, at: nat, n: nat)
    requires AreDigits(r, 0, len) && len <= n && ut <= |u| && at <= |a| && W(n) > 0
    requires Cong(Sum(r, 0, len), Sum(u, 0, ut) * Sum(a, 0, at), W(n))
    ensures Signed(r, len, 0) == Signed(u, ut, 0) * Signed(a, at, 0) % W(n)
  {
    var P := Sum(u, 0, ut) * Sum(a, 0, at);
    SumBound(r, 0, len);
    WeightMonotoneTo(len, n);
    TermSmall(len);
    TermSmall(ut);
    TermSmall(at);
    CongMod(P, W(n));
    hide Term;
    hide W;
    hide Sum;
    CongSym(P % W(n), P, W(n));
    CongTrans(Sum(r, 0, len), P, P % W(n), W(n));
    CongUnique(Sum(r, 0, len), P % W(n), W(n));
  }

  // the rows that fit the len words completely
  method WholeRows(u: BigInteger, a: BigInteger, len: nat, r: BigInteger)
    requires u.Clamped() && u.s == 0 && a.Clamped() && r != u && r != a
    requires u.t <= len <= u.t + a.t && AreDigits(r.words, 0, len) && forall k | 0 <= k < len :: r.words[k] == 0
    modifies r`words
    ensures AreDigits(r.words, 0, len)
    ensures Sum(r.words, 0, len) == Sum(u.words, 0, u.t) * Sum(a.words, 0, len - u.t)
  {
    hide Term;
    hide W;
    SumOfZeros(r.words, 0, u.t);
    ghost var U := Sum(u.words, 0, u.t);
    var i := 0;
    while i < len - u.t
      invariant 0 <= i <= len - u.t && AreDigits(r.words, 0, len)
      invariant Sum(r.words, 0, i + u.t) == U * Sum(a.words, 0, i)
    {
      r.AddRow(u, a.words[i], i);
      RowTerm(U, a.words[i], i, Sum(a.words, 0, i));
      i := i + 1;
    }
  }

  // the remaining rows, each cut off at word n
  method CutRows(u: BigInteger, a: BigInteger, n: nat, r: BigInteger)
    requires u.Clamped() && a.Clamped() && r != u && r != a && u.t <= n && a.t <= n
    requires W(n) > 0 && u.t <= r.t <= n && (r.t < n ==> r.t == u.t + a.t) && AreDigits(r.words, 0, r.t)
    requires r.t - u.t <= a.t && Cong(Sum(r.words, 0, r.t), Sum(u.words, 0, u.t) * Sum(a.words, 0, r.t - u.t), W(n))
    modifies r`words
    ensures AreDigits(r.words, 0, r.t)
    ensures Cong(Sum(r.words, 0, r.t), Sum(u.words, 0, u.t) * Sum(a.words, 0, a.t), W(n))
  {
    hide Term;
    hide W;
    hide Times;
    var i := r.t - u.t;
    while i < a.t
      invariant r.t - u.t <= i <= a.t && AreDigits(r.words, 0, r.t)
      invariant Cong(Sum(r.words, 0, r.t), Sum(u.words, 0, u.t) * Sum(a.words, 0, i), W(n))
    {
      ghost var before := r.words;
      var c := u.Am3(0, a.words[i], r, i, 0, n - i);
      AddAt(before, r.words, i, n - i, c, Times(a.words[i], Sum(u.words, 0, n - i)));
      LowRow(Sum(before, 0, n), Sum(r.words, 0, n), u.words, u.t, a.words[i], Sum(a.words, 0, i), i, n, c);
      i := i + 1;
    }
  }

  lemma WeightMonotoneTo(i: nat, j: nat)
    requires i <= j
    ensures W(i) <= W(j)
  {
    PowMonotone(DV, i, j);
  }

  /** A row cut off at word n: what is dropped is a multiple of W(n). */
  lemma LowRow(S0: int, S1: int, u: seq<int>, ut: nat, d: int, A: int, i: nat, n: nat, c: int)
    requires i <= n && n - i <= ut <= |u|
    requires S1 + Term(c, n) == S0 + W(i) * Times(d, Sum(u, 0, n - i))
    requires W(n) > 0 && Cong(S0, Sum(u, 0, ut) * A, W(n))
    ensures Cong(S1, Sum(u, 0, ut) * (A + Term(d, i)), W(n))
  {
    var k := n - i;
    var L, H := Sum(u, 0, k), Sum(u, k, ut - k);
    SumSplit(u, 0, k, ut - k);
    WeightAdd(i, k);
    var q :| Multiple(q, W(n), S0, Sum(u, 0, ut) * A);
    LowRowAlgebra(S0, S1, L, H, d, A, W(i), W(k), W(n), c, q);
    CongIntro(S1, Sum(u, 0, ut) * (A + Term(d, i)), W(n), q - c - d * H);
  }

  lemma LowRowAlgebra(S0: int, S1: int, L: int, H: int, d: int, A: int, wi: int, wk: int, wn: int, c: int, q: int)
    requires wn == wi * wk && S1 + c * wn == S0 + wi * Times(d, L) && S0 - (L + wk * H) * A == q * wn
    ensures S1 - (L + wk * H) * (A + d * wi) == (q - c - d * H) * wn
  {
    assert (L + wk * H) * (A + d * wi) == (L + wk * H) * A + (L + wk * H) * (d * wi);
    assert (L + wk * H) * (d * wi) == L * (d * wi) + (wk * H) * (d * wi);
    CrossTerm2(wk, H, d, wi);
    MulComm(wi, wk);
    assert L * (d * wi) == wi * (d * L);
    assert (q - c - d * H) * wn == q * wn - c * wn - wn * (d * H);
  }

  // this += n << w words, for this >= 0
  method DAddOffset(x: BigInteger, n: int, w0: nat)
    requires x.Clamped() && x.s == 0 && 0 < n < DV
    modifies x
    ensures x.Clamped() && x.s == 0 && x.Value() == old(x.Value()) + Term(n, w0)
  {
    hide Term;
    ghost var X := x.Value();
    var w := w0;
    while x.t <= w
      invariant w == w0 && x.Valid() && x.s == 0 && x.Value() == X && x.t >= old(x.t)
      invariant x.t > old(x.t) ==> x.t <= w0 + 1 && x.words[x.t - 1] == 0
      invariant x.t == old(x.t) ==> x.words == old(x.words)
    {
      ExtendByZero(x.words, x.t);
      x.words := Put(x.words, x.t, 0);
      x.t := x.t + 1;
    }
    ChangeWord(x.words, w, x.words[w] + n, x.t);
    TermAdd(x.words[w], n, w);
    x.words := x.words[w := x.words[w] + n];
    while x.words[w] >= DV
      invariant w < x.t <= |x.words| && x.s == 0 && 0 <= x.words[w] < 2 * DV
      invariant forall k | 0 <= k < x.t && k != w :: 0 <= x.words[k] < DV
      invariant x.Value() == X + Term(n, w0) && x.words[x.t - 1] != 0
      decreases x.t - w + (if x.words[w] >= DV then 2 else 0)
    {
      CarryWord(x.words, w, x.t);
      x.words := x.words[w := x.words[w] - DV];
      w := w + 1;
      if w >= x.t {
        x.words := Put(x.words, x.t, 0);
        x.t := x.t + 1;
      }
      x.words := x.words[w := x.words[w] + 1];
    }
  }

  lemma ExtendByZero(a: seq<int>, t: nat)
    requires t <= |a|
    ensures Signed(Put(a, t, 0), t + 1, 0) == Signed(a, t, 0)
  {
    SumPut(a, t, 0);
    TermSmall(t);
    TermSmall(t + 1);
  }

  lemma ChangeWord(a: seq<int>, w: nat, v: int, t: nat)
    requires w < t <= |a|
    ensures Sum(a[w := v], 0, t) == Sum(a, 0, t) - Term(a[w], w) + Term(v, w)
  {
    hide Term;
    var b := a[w := v];
    SumEqual(a, 0, b, 0, w);
    SumTail(a, b, w + 1, t);
    assert Sum(b, 0, w + 1) == Sum(b, 0, w) + Term(v, w);
    assert Sum(a, 0, w + 1) == Sum(a, 0, w) + Term(a[w], w);
  }

  /** Moving DV from word w as one to the next word. */
  lemma CarryWord(a: seq<int>, w: nat, t: nat)
    requires w < t <= |a|
    ensures var b := a[w := a[w] - DV];
      var (c, t') := if w + 1 >= t then (Put(b, t, 0), t + 1) else (b, t);
      Signed(c[w + 1 := c[w + 1] + 1], t', 0) == Signed(a, t, 0)
  {
    var b := a[w := a[w] - DV];
    ChangeWord(a, w, a[w] - DV, t);
    TermAdd(a[w], DV, w);
    TermUp(1, w);
    TermSmall(t);
    TermSmall(t + 1);
    var c, t' := b, t;
    hide Term;
    if w + 1 >= t { ExtendByZero(b, t); c, t' := Put(b, t, 0), t + 1; }
    TermAdd(c[w + 1], 1, w + 1);
    ChangeWord(c, w + 1, c[w + 1] + 1, t');
  }

  // ---------- the estimate of the quotient ----------

  /** q is never too large. Here b = W(t-1), P = W(t+1), and b * P = W(2t). */
  lemma QuotientNotTooLarge(X: int, m: int, mu: int, q1: int, q: int, b: int, P: int)
    requires m > 0 && b > 0 && P > 0 && q1 >= 0 && m * mu <= b * P && b * q1 <= X && q * P <= mu * q1
    ensures q * m <= X
  {
    MulMono(q * P, mu * q1, m);
    MulMono(m * mu, b * P, q1);
    MulMono(b * q1, X, P);
    assert q * P * m == q * m * P && mu * q1 * m == m * mu * q1 && b * P * q1 == b * q1 * P;
    CancelLe(q * m, X, P);
  }

  lemma CancelLe(a: int, b: int, c: int)
    requires c > 0 && a * c <= b * c
    ensures a <= b
  {
    assert (b + 1) * c == b * c + c;
    if a > b { MulMono(b + 1, a, c); }
  }

  /** q falls short of the quotient by less than e + 3. */
  lemma QuotientNotTooSmall(X: int, m: int, mu: int, q1: int, q: int, b: int, P: int, e: int)
    requires m > 0 && b > 0 && P > 0 && 0 <= q1 < P && b <= m && e >= 0
    requires b * P < m * mu + m && X < b * q1 + b && mu * q1 <= (q + e) * P
    ensures X - q * m < (e + 2) * m
  {
    HighPart(X, q1, b, P);
    ReciprocalRow(m, mu, q1, b * P);
    EstimateTimesModulus(m, mu, q1, q + e, P);
    MulMono(q1, P, m);
    MulComm(m, q1);
    MulComm(m, P);
    MulMono(b, m, P);
    ShortfallSum(X, q, m, e, P, b * P * q1);
  }

  lemma HighPart(X: int, q1: int, b: int, P: int)
    requires P > 0 && X < b * q1 + b
    ensures (X + 1) * P <= b * P * q1 + b * P
  {
    MulMono(X + 1, b * q1 + b, P);
    assert (b * q1 + b) * P == b * q1 * P + b * P && b * q1 * P == b * P * q1;
  }

  lemma ReciprocalRow(m: int, mu: int, q1: int, V: int)
    requires V < m * mu + m && q1 >= 0
    ensures V * q1 <= m * mu * q1 + m * q1
  {
    MulMono(V, m * mu + m, q1);
  }

  lemma EstimateTimesModulus(m: int, mu: int, q1: int, d: int, P: int)
    requires m > 0 && mu * q1 <= d * P
    ensures m * mu * q1 <= d * m * P
  {
    MulMono(mu * q1, d * P, m);
    assert mu * q1 * m == m * mu * q1 && d * P * m == d * m * P;
  }

  lemma ShortfallSum(X: int, q: int, m: int, e: int, P: int, c: int)
    requires P > 0 && (X + 1) * P <= c + m * P && c <= (q + e) * m * P + m * P
    ensures X - q * m < (e + 2) * m
  {
    var d := (q + e) * m;
    assert (d + 2 * m) * P == d * P + m * P + m * P;
    CancelLe(X + 1, d + 2 * m, P);
    assert d == q * m + e * m && (e + 2) * m == e * m + 2 * m;
  }

  lemma Reciprocal(V: int, m: int)
    requires m > 0
    ensures m * (V / m) <= V < m * (V / m) + m
  {
    assert V == V / m * m + V % m;
  }

  /** The remainder left by the estimated quotient fits t + 1 words. */
  lemma EstimatedRemainder(X: int, m: int, t: nat, mu: int, q1: int, S: int, rows: nat, q: int)
    requires 0 < t && t + 4 <= DV && W(t - 1) <= m < W(t) && W(t - 1) > 0 && W(1) > 0
    requires mu == W(2 * t) / m && 0 <= X < W(2 * t) && q1 == X / W(t - 1) && q == S / W(1) && S >= 0
    requires 0 <= mu * q1 - W(t) * S <= rows * W(t + 1) && rows <= t + 1
    ensures 0 <= X - q * m < W(t + 1) && 0 <= q < W(t + 1)
  {
    var b, P := W(t - 1), W(t + 1);
    WeightAdd(t - 1, t + 1);
    assert 2 * t == (t - 1) + (t + 1);
    WeightPositive(t + 1);
    assert W(1) == DV * W(0) && P == DV * W(t);
    Reciprocal(W(2 * t), m);
    Reciprocal(X, b);
    Reciprocal(S, DV);
    MulComm(b, q1);
    hide W;
    EstimateBounds(X, b, P, q1);
    EstimateScale(S, q, W(t), P, mu * q1, rows, t);
    QuotientNotTooLarge(X, m, mu, q1, q, b, P);
    QuotientNotTooSmall(X, m, mu, q1, q, b, P, t + 2);
    MulMono(t + 4, DV, m);
    MulMono(m, W(t) - 1, DV);
    assert (W(t) - 1) * DV == P - DV && DV * m == m * DV;
    EstimateFits(X, m, b, P, q);
  }

  lemma EstimateBounds(X: int, b: int, P: int, q1: int)
    requires b > 0 && 0 <= X < b * P && b * q1 <= X < b * q1 + b
    ensures 0 <= q1 < P
  {
    if q1 < 0 { MulMono(q1, -1, b); MulComm(b, q1); }
    if q1 >= P { MulMono(P, q1, b); MulComm(b, P); MulComm(b, q1); }
  }

  lemma EstimateScale(S: int, q: int, w: int, P: int, full: int, rows: int, t: int)
    requires P == DV * w && P > 0 && DV * q <= S < DV * q + DV && 0 <= full - w * S <= rows * P && rows <= t + 1
    ensures q * P <= full <= (q + (t + 2)) * P
  {
    MulMono(DV * q, S, w);
    MulMono(S, DV * q + DV, w);
    MulMono(rows, t + 1, P);
    assert (DV * q) * w == q * (DV * w) && (DV * q + DV) * w == q * (DV * w) + DV * w && S * w == w * S;
    assert (q + (t + 2)) * P == q * P + (t + 1) * P + P;
  }

  lemma EstimateFits(X: int, m: int, b: int, P: int, q: int)
    requires 0 < b <= m && P > 0 && 0 <= X < b * P && q * m <= X && X - q * m < P
    ensures q < P
  {
    if q >= P { MulMono(P, q, m); MulMono(b, m, P); MulComm(b, P); MulComm(P, m); }
  }

  // ---------- reduction ----------

  lemma ReciprocalLength(mu: BigInteger, m: BigInteger)
    requires m.Clamped() && m.s == 0 && m.Value() > 0 && mu.Clamped() && mu.s == 0
    requires mu.Value() == W(2 * m.t) / m.Value()
    ensures m.t + 1 <= mu.t
  {
    var t := m.t;
    ClampedRange(m.words, m.t, 0);
    ClampedRange(mu.words, mu.t, 0);
    WeightAdd(t, t);
    assert t + t == 2 * t;
    WeightPositive(t);
    Reciprocal(W(2 * t), m.Value());
    if mu.t <= t {
      PowMonotone(DV, mu.t, t);
      hide W;
      ReciprocalTooShort(m.Value(), mu.Value(), W(t));
    }
  }

  lemma ReciprocalTooShort(m: int, mu: int, w: int)
    requires 0 < m < w && 0 <= mu < w
    ensures m * mu + m < w * w
  {
    MulMono(mu + 1, w, m);
    MulMono(m + 1, w, w);
    assert (mu + 1) * m == m * mu + m && w * m == m * w && (m + 1) * w == m * w + w;
  }

  /** A number below W(n) has at most n words. */
  lemma LengthWithin(a: seq<int>, t: nat, n: nat)
    requires ClampedWords(a, t, 0) && Signed(a, t, 0) < W(n)
    ensures t <= n
  {
    ClampedRange(a, t, 0);
    if t > n { PowMonotone(DV, n, t - 1); }
  }

  // x = x mod W(n)
  method KeepLow(x: BigInteger, n: nat)
    requires x.Clamped() && x.s == 0
    modifies x`t
    ensures x.Clamped() && x.t <= n && W(n) > 0 && x.Value() == old(x.Value()) % W(n)
  {
    hide Term;
    ghost var X, t0 := x.Value(), x.t;
    ClampedRange(x.words, x.t, 0);
    TermSmall(x.t);
    WeightPositive(n);
    if x.t > n {
      SumSplit(x.words, 0, n, x.t - n);
      SumBound(x.words, 0, n);
      TermSmall(n);
      MulComm(W(n), Sum(x.words, n, x.t - n));
      DivUnique(X, W(n), Sum(x.words, n, x.t - n), Sum(x.words, 0, n));
      x.t := n;
      x.Clamp();
    } else {
      PowMonotone(DV, x.t, n);
      DivUnique(X, W(n), 0, X);
    }
  }

  /** The difference of two remainders modulo w, when the true difference is in 0..w. */
  lemma WrappedDifference(X: int, Q: int, w: int)
    requires w > 0 && 0 <= X - Q < w
    ensures X - Q == X % w - Q % w + if X % w < Q % w then w else 0
  {
    var xl, ql, k := X % w, Q % w, X / w - Q / w;
    assert X - Q == k * w + (xl - ql) by {
      assert X == X / w * w + xl && Q == Q / w * w + ql;
      assert k * w == X / w * w - Q / w * w;
    }
    if k >= 2 { MulMono(2, k, w); }
    if k <= -1 { MulMono(k, -1, w); }
    assert k == 0 || k == 1;
  }

  // x = x - Q, both known modulo W(n) only
  method SubtractLow(x: BigInteger, r2: BigInteger, n: nat, ghost X: int, ghost Q: int)
    requires x != r2 && x.Clamped() && x.s == 0 && r2.Clamped() && r2.s == 0 && x.t <= n
    requires W(n) > 0 && 0 <= X - Q < W(n) && x.Value() == X % W(n) && r2.Value() == Q % W(n)
    modifies x
    ensures x.Clamped() && x.Value() == X - Q
  {
    hide W;
    hide Term;
    WrappedDifference(X, Q, W(n));
    TermSmall(n);
    var c := x.CompareTo(r2);
    while c < 0
      invariant x.Clamped() && x.s == 0 && (c < 0 <==> x.Value() < r2.Value())
      invariant x.Value() == X % W(n) || (x.Value() == X % W(n) + W(n) && c >= 0)
      invariant x.Value() > X % W(n) ==> X % W(n) < Q % W(n)
      decreases r2.Value() - x.Value()
    {
      DAddOffset(x, 1, n);
      c := x.CompareTo(r2);
    }
    x.SubTo(r2, x);
  }

  // the closing subtractions
  method SubtractWhileAbove(x: BigInteger, m: BigInteger)
    requires x != m && x.Clamped() && x.Value() >= 0 && m.Clamped() && m.s == 0 && m.Value() > 0
    modifies x
    ensures x.Clamped() && 0 <= x.Value() < m.Value() && Cong(x.Value(), old(x.Value()), m.Value())
  {
    hide W;
    ghost var X := x.Value();
    CongIntro(X, X, m.Value(), 0);
    var c := x.CompareTo(m);
    while c >= 0
      invariant x.Clamped() && x.Value() >= 0 && (c >= 0 <==> x.Value() >= m.Value()) && Cong(x.Value(), X, m.Value())
      decreases x.Value()
    {
      CongIntro(x.Value() - m.Value(), x.Value(), m.Value(), -1);
      CongTrans(x.Value() - m.Value(), x.Value(), X, m.Value());
      x.SubTo(m, x);
      c := x.CompareTo(m);
    }
  }

  lemma PositiveLength(m: BigInteger)
    requires m.Clamped() && m.s == 0 && m.Value() > 0
    ensures m.t > 0 && W(m.t - 1) > 0 && W(m.t - 1) <= m.Value() < W(m.t)
  {
    TermSmall(0);
    ClampedRange(m.words, m.t, 0);
    WeightPositive(m.t - 1);
  }

  // q3 = an estimate of x / m, leaving a remainder of at most m.t + 1 words; of x only those words are kept
  method EstimateQuotient(x: BigInteger, m: BigInteger, mu: BigInteger, r2: BigInteger, q3: BigInteger)
    requires x !in {m, mu, r2, q3} && r2 !in {m, mu, q3} && q3 !in {m, mu}
    requires x.Clamped() && m.Clamped() && m.s == 0 && m.Value() > 0 && m.t + 4 <= DV
    requires mu.Clamped() && mu.s == 0 && mu.Value() == W(2 * m.t) / m.Value()
    requires 0 <= x.Value() < W(2 * m.t)
    modifies x, r2, q3
    ensures W(m.t + 1) > 0 && x.Clamped() && x.s == 0 && x.t <= m.t + 1 && x.Value() == old(x.Value()) % W(m.t + 1)
    ensures q3.Clamped() && q3.s == 0 && 0 <= old(x.Value()) - m.Value() * q3.Value() < W(m.t + 1)
    ensures q3.t <= m.t + 1
  {
    hide W;
    hide Term;
    hide Sum;
    var t := m.t;
    ghost var X := x.Value();
    ClampedRange(x.words, x.t, x.s);
    LengthWithin(x.words, x.t, 2 * t);
    PositiveLength(m);
    x.DRShiftTo(t - 1, r2);
    ghost var q1 := r2.Value();
    KeepLow(x, t + 1);
    ReciprocalLength(mu, m);
    MultiplyUpperTo(mu, r2, t + 1, q3);
    ghost var q, S := q3.Value(), UpperSum(mu.words, mu.t, r2.words, r2.t, t);
    UpperSumBound(mu.words, mu.t, r2.words, r2.t, t);
    TermSmall(mu.t);
    TermSmall(r2.t);
    EstimatedRemainder(X, m.Value(), t, mu.Value(), q1, S, r2.t, q);
    LengthWithin(q3.words, q3.t, t + 1);
    MulComm(q, m.Value());
  }

  /** x = x mod m, for an x of at most twice the length of m. mu is W(2 * m.t) / m. */
  method Reduce(x: BigInteger, m: BigInteger, mu: BigInteger)
    requires x != m && x != mu && x.Clamped() && m.Clamped() && m.s == 0 && m.Value() > 0 && m.t + 4 <= DV
    requires mu.Clamped() && mu.s == 0 && mu.Value() == W(2 * m.t) / m.Value()
    requires 0 <= x.Value() < W(2 * m.t)
    modifies x
    ensures x.Clamped() && 0 <= x.Value() < m.Value() && Cong(x.Value(), old(x.Value()), m.Value())
  {
    hide W;
    hide Term;
    hide Sum;
    hide Signed;
    var r2 := new BigInteger();
    var q3 := new BigInteger();
    ghost var X, M := x.Value(), m.Value();
    EstimateQuotient(x, m, mu, r2, q3);
    ghost var q := q3.Value();
    MultiplyLowerTo(m, q3, m.t + 1, r2);
    SubtractLow(x, r2, m.t + 1, X, M * q);
    SubtractWhileAbove(x, m);
    DropMultiple(x.Value(), X, q, M);
  }

  lemma DropMultiple(v: int, X: int, q: int, M: int)
    requires M > 0 && Cong(v, X - M * q, M)
    ensures Cong(v, X, M)
  {
    CongIntro(X - M * q, X, M, -q) by { assert (-q) * M == -(M * q); }
    CongTrans(v, X - M * q, X, M);
  }
}
