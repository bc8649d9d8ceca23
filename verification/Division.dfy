/** Long division (crypto.js:775-830) on the numbers that the words stand for.

    The divisor y has n words and is normalized: its top word is at least DV / 2. The quotient
    digits, which the source keeps in the words above the remainder, are a number of their own. */
module Division {
  import opened Arith
  import opened Digits
  import opened Bits

  const F1 := 0x100_0000  // 2^24
  const F2 := 16

  /** Word i of v. */
  function WordOf(v: int, i: nat): int {
    WeightPositive(i);
    v / W(i) % DV
  }

  // ---------- one digit ----------

  /** The digit tried at first: from the two top words p0, p1 of the dividend and y0, y1 of the
      divisor, without the rounding of floating point. It can be as large as DV. */
  function Estimate(p0: int, p1: int, y0: int, y1: int): int
    requires y0 > 0 && y1 >= 0
  {
    if p0 == y0 then DM else (p0 * DV + p1 + F2) * F1 / (y0 * F1 + y1 / F2)
  }

  /** P lies between its two top words and their successor, in units of w. */
  ghost predicate Leading(P: int, p: int, w: int) {
    p * w <= P < p * w + w
  }

  /** How y lies between its leading 52 bits, yt, and their successor. */
  ghost predicate Leading52(y: int, yt: int, w: int) {
    yt * w <= y * F1 < yt * w + w
  }

  /** Any estimate that falls short of the exact quotient of the leading words by at most
      (F2 - 1) * F1 / yt is no smaller than the digit. */
  lemma NotTooSmall(P: int, y: int, p: int, yt: int, w: int, q: int, est: real)
    requires w > 0 && yt > 0 && Leading(P, p, w) && Leading52(y, yt, w) && q >= 0 && q * y <= P
    requires est >= ((p + 1) * F1) as real / yt as real
    ensures q <= est.Floor
  {
    Scaled(q, y, P, p, yt, w);
    assert (q * yt) as real <= ((p + 1) * F1) as real;
    assert q as real * yt as real == (q * yt) as real;
    var top := ((p + 1) * F1) as real;
    assert top / yt as real * yt as real == top;
    if q as real > top / yt as real {
      RealMul(top / yt as real, q as real, yt as real);
    }
  }

  lemma RealMul(a: real, b: real, c: real)
    requires a < b && c > 0.0
    ensures a * c < b * c
  {}

  lemma Scaled(q: int, y: int, P: int, p: int, yt: int, w: int)
    requires w > 0 && Leading(P, p, w) && Leading52(y, yt, w) && q >= 0 && q * y <= P
    ensures q * yt < (p + 1) * F1 || (q * yt <= (p + 1) * F1 && q == 0)
  {
    if q > 0 {
      MulMono(yt * w, y * F1, q);
      assert yt * w * q == q * yt * w && y * F1 * q == q * y * F1;
      assert (p * w + w) * F1 == (p + 1) * F1 * w;
      if q * yt >= (p + 1) * F1 { MulMono((p + 1) * F1, q * yt, w); }
    }
  }

  /** The exact estimate is the digit or one more. */
  lemma EstimateClose(P: int, y: int, p0: int, p1: int, y0: int, y1: int, w: int)
    requires w > 0 && DV / 2 <= y0 < DV && 0 <= y1 < DV && 0 <= p0 && 0 <= p1 < DV
    requires Leading(P, p0 * DV + p1, w) && Leading52(y, y0 * F1 + y1 / F2, w) && y < y0 * w + w && 0 <= P < DV * y
    ensures y > 0 && P / y <= Estimate(p0, p1, y0, y1) <= P / y + 1
  {
    var yt, p := y0 * F1 + y1 / F2, p0 * DV + p1;
    MulMono(1, yt, w);
    DigitRange(P, y);
    if p0 == y0 {
      SameTop(P, y, y0, p1, w, P / y);
    } else {
      EstimateWithin(P, y, p, yt, w);
    }
  }

  lemma DigitRange(P: int, y: int)
    requires 0 < y && 0 <= P < DV * y
    ensures 0 <= P / y < DV && P / y * y <= P < P / y * y + y
  {
    QuotientBound(P, y, DV);
  }

  lemma EstimateWithin(P: int, y: int, p: int, yt: int, w: int)
    requires w > 0 && y > 0 && yt >= 0x8_0000_0000_0000 && p >= 0 && Leading(P, p, w) && Leading52(y, yt, w) && 0 <= P < DV * y
    ensures P / y <= (p + F2) * F1 / yt <= P / y + 1
  {
    DigitRange(P, y);
    var q, a := P / y, (p + F2) * F1;
    Scaled(q, y, P, p, yt, w);
    QuotientAbove(q, a, yt);
    hide Leading;
    hide Leading52;
    var est := a / yt;
    assert est * yt <= a;
    NotTooLarge(P, y, p, yt, w, q, est);
  }

  lemma QuotientAbove(q: int, a: int, b: int)
    requires b > 0 && q * b <= a
    ensures q <= a / b
  {
    var e := a / b;
    assert (e + 1) * b == e * b + b;
    if e < q { MulMono(e + 1, q, b); }
  }

  lemma NotTooLarge(P: int, y: int, p: int, yt: int, w: int, q: int, est: int)
    requires w > 0 && yt >= 0x8_0000_0000_0000 && Leading(P, p, w) && Leading52(y, yt, w) && 0 <= q < DV && P < q * y + y
    requires est * yt <= (p + F2) * F1
    ensures est <= q + 1
  {
    MulMono(y * F1, yt * w + w, q + 1);
    assert (q + 1) * (y * F1) == (q * y + y) * F1 && (yt * w + w) * (q + 1) == (q + 1) * (yt + 1) * w;
    MulComm(y * F1, q + 1);
    assert p * F1 * w == p * w * F1;
    if (q + 1) * (yt + 1) <= p * F1 { MulMono((q + 1) * (yt + 1), p * F1, w); }
    assert (q + 1) * (yt + 1) == (q + 1) * yt + (q + 1);
    assert (q + 2) * yt == (q + 1) * yt + yt;
    if est >= q + 2 { MulMono(q + 2, est, yt); }
  }

  /** When the top words agree the digit is DM or one less. */
  lemma SameTop(P: int, y: int, y0: int, p1: int, w: int, q: int)
    requires w > 0 && DV / 2 <= y0 && p1 >= 0 && (y0 * DV + p1) * w <= P && y < y0 * w + w && P < q * y + y && 0 <= q
    ensures q >= DM - 1
  {
    if q < DM - 1 {
      MulMono(y, y0 * w + w, q + 1);
      MulMono(q + 1, DM - 1, y0 * w + w);
      MulComm(y, q + 1);
      MulComm(q + 1, y0 * w + w);
      assert q * y + y == (q + 1) * y;
      assert (y0 * w + w) * (DM - 1) == (y0 * DV - 2 * y0 + DM - 1) * w;
      assert (y0 * DV + p1) * w == (y0 * DV) * w + p1 * w;
      MulMono(0, p1, w);
      MulMono(y0 * DV - 2 * y0 + DM - 1, y0 * DV, w);
    }
  }

  /** Try a digit and take it back while the word above the remainder shows that it is too large:
      N = P + qd * (w - y) is the remainder with the digit in the word above it, in units of w.
      The outcome is right exactly for estimates that are not below the digit. */
  method CorrectDigit(P: int, y: int, w: int, qd0: int) returns (N: int)
    requires 0 <= P && 0 < y < w && 0 <= qd0
    ensures Divided(P, y, w, N) <==> qd0 >= P / y
  {
    ghost var q := P / y;
    var neg, qd := w - y, qd0;
    N := Try(P, y, w, qd);
    hide Tried;
    hide Divided;
    if TopOf(N, w) < qd {
      TakeBack(P, y, w, qd, N, q);
      N := N - neg;
      qd := qd - 1;
      while TopOf(N, w) < qd
        invariant Tried(P, y, w, qd, N) && qd >= q && (TopOf(N, w) < qd <==> qd > q)
        decreases qd
      {
        TakeBack(P, y, w, qd, N, q);
        N := N - neg;
        qd := qd - 1;
      }
    }
    Outcome(P, y, w, qd, N, q);
  }

  // what the multiply-accumulate of the source leaves
  method Try(P: int, y: int, w: int, qd: int) returns (N: int)
    requires 0 <= P && 0 < y < w
    ensures Tried(P, y, w, qd, N) && (TopOf(N, w) < qd <==> qd > P / y)
  {
    N := P + qd * (w - y);
    TopWord(P, y, w, qd, N);
  }

  /** The word above the remainder has become the quotient. */
  ghost predicate Divided(P: int, y: int, w: int, N: int)
    requires y > 0
  {
    N == P / y * w + P % y
  }

  function TopOf(N: int, w: int): int
    requires w > 0
  {
    N / w
  }

  ghost predicate Tried(P: int, y: int, w: int, qd: int, N: int) {
    0 <= P && 0 < y < w && N == P + qd * (w - y)
  }

  lemma TakeBack(P: int, y: int, w: int, qd: int, N: int, q: int)
    requires Tried(P, y, w, qd, N) && q == P / y
    ensures Tried(P, y, w, qd - 1, N - (w - y)) && (TopOf(N - (w - y), w) < qd - 1 <==> qd - 1 > q)
  {
    assert P + qd * (w - y) - (w - y) == P + (qd - 1) * (w - y);
    TopWord(P, y, w, qd - 1, N - (w - y));
  }

  lemma TopWord(P: int, y: int, w: int, qd: int, N: int)
    requires Tried(P, y, w, qd, N)
    ensures TopOf(N, w) < qd <==> qd > P / y
  {
    var q := P / y;
    var rest := P - qd * y;
    assert N == qd * w + rest;
    assert P == q * y + P % y;
    assert rest == (q - qd) * y + P % y;
    if qd > q {
      MulMono(q - qd, -1, y);
      if N / w >= qd { MulMono(qd, N / w, w); }
    } else {
      MulMono(0, q - qd, y);
      QuotientAbove(qd, N, w);
    }
  }

  lemma Outcome(P: int, y: int, w: int, qd: int, N: int, q: int)
    requires Tried(P, y, w, qd, N) && q == P / y && qd <= q
    ensures Divided(P, y, w, N) <==> qd == q
  {
    assert P == q * y + P % y;
    assert P + qd * (w - y) - (q * w + P % y) == (qd - q) * (w - y);
    if qd < q { MulMono(qd - q, -1, w - y); }
  }

  // ---------- all digits ----------

  lemma DivDiv(a: int, b: int, c: int)
    requires b > 0 && c > 0
    ensures b * c > 0 && a / b / c == a / (b * c)
  {
    var d, u := a / b, a % b;
    assert a == d * b + u;
    DivDivAlgebra(a, b, c, d, u, d / c, d % c);
    DivUnique(a, b * c, d / c, d % c * b + u);
  }

  lemma DivDivAlgebra(a: int, b: int, c: int, d: int, u: int, q: int, v: int)
    requires b > 0 && c > 0 && a == d * b + u && 0 <= u < b && d == q * c + v && 0 <= v < c
    ensures b * c > 0 && a == q * (b * c) + (v * b + u) && 0 <= v * b + u < b * c
  {
    MulMono(1, b, c);
    assert (q * c + v) * b == q * (b * c) + v * b;
    MulMono(v, c - 1, b);
    MulMono(0, v, b);
    assert (c - 1) * b == b * c - b;
  }

  lemma Nested(a: int, i: nat, k: nat)
    ensures W(i) > 0 && W(k) > 0 && W(i + k) > 0 && a / W(i) / W(k) == a / W(i + k)
  {
    WeightPositive(i);
    WeightPositive(k);
    WeightPositive(i + k);
    WeightAdd(i, k);
    DivDiv(a, W(i), W(k));
  }

  lemma OneWord(a: int, i: nat)
    ensures W(i) > 0 && W(i + 1) > 0 && a / W(i) == a / W(i + 1) * DV + a / W(i) % DV && W(i + 1) == W(i) * DV
  {
    Nested(a, i, 1);
    assert W(1) == DV * W(0);
    MulComm(DV, W(i));
  }

  ghost predicate Normal(y: int, n: nat)
    requires n > 0
  {
    W(n - 1) * (DV / 2) <= y < W(n)
  }

  /** The two top words of the divisor, the second one 0 for a single word. */
  function TopWords(y: int, n: nat): (int, int)
    requires n > 0
  {
    WeightPositive(n - 1);
    (y / W(n - 1), if n > 1 then WordOf(y, n - 2) else 0)
  }

  lemma DivisorLeads(y: int, n: nat)
    requires n > 0 && Normal(y, n)
    ensures var (y0, y1) := TopWords(y, n);
      && DV / 2 <= y0 < DV && 0 <= y1 < DV && W(n - 1) > 0
      && y < y0 * W(n - 1) + W(n - 1) && Leading52(y, y0 * F1 + y1 / F2, W(n - 1))
  {
    WeightPositive(n - 1);
    var w, y0 := W(n - 1), y / W(n - 1);
    QuotientAbove(DV / 2, y, w) by { MulComm(w, DV / 2); }
    QuotientBound(y, w, DV) by { MulComm(DV, w); }
    if n > 1 {
      OneWord(y, n - 2);
      var w' := W(n - 2);
      LeadingAlgebra(y, y0, WordOf(y, n - 2), w', y % w');
    } else {
      assert w == 1;
    }
  }

  lemma LeadingAlgebra(y: int, y0: int, y1: int, w: int, rest: int)
    requires w > 0 && y == (y0 * DV + y1) * w + rest && 0 <= rest < w && 0 <= y1
    ensures Leading52(y, y0 * F1 + y1 / F2, w * DV)
  {
    var a, b := y1 / F2, y1 % F2;
    assert (y0 * DV + y1) * w == y0 * (w * DV) + a * F2 * w + b * w;
    assert y * F1 == (y0 * F1 + a) * (w * DV) + (b * w + rest) * F1 by {
      assert (y0 * F1 + a) * (w * DV) == y0 * (w * DV) * F1 + a * F2 * w * F1;
    }
    MulMono(b, F2 - 1, w);
  }

  /** The top words of what remains. */
  lemma RemainderLeads(r: int, y: int, n: nat, j: nat)
    requires n > 0 && y < W(n) && 0 <= r < y * W(j + 1)
    ensures W(j) > 0 && W(n - 1) > 0
    ensures var P := r / W(j);
      && 0 <= P < DV * y && 0 <= WordOf(r, j + n - 1) < DV && 0 <= WordOf(r, j + n)
      && Leading(P, WordOf(r, j + n) * DV + WordOf(r, j + n - 1), W(n - 1))
  {
    WeightPositive(j);
    WeightPositive(n - 1);
    DividendRange(r, y, j);
    var P := r / W(j);
    Nested(r, j, n - 1);
    Nested(r, j, n);
    assert j + (n - 1) == j + n - 1;
    BelowOneWord(P, y, n);
    OneWord(r, j + n - 1);
    TopWordWhole(r, j + n);
    hide W;
    assert P / W(n - 1) == WordOf(r, j + n) * DV + WordOf(r, j + n - 1);
    LeadingQuotient(P, W(n - 1));
  }

  lemma LeadingQuotient(P: int, w: int)
    requires w > 0
    ensures Leading(P, P / w, w)
  {}

  lemma TopWordWhole(r: int, i: nat)
    requires W(i) > 0 && 0 <= r / W(i) < DV
    ensures WordOf(r, i) == r / W(i)
  {
    hide W;
  }

  lemma DividendRange(r: int, y: int, j: nat)
    requires W(j) > 0 && 0 <= r < y * W(j + 1)
    ensures 0 <= r / W(j) < DV * y
  {
    assert W(j + 1) == DV * W(j);
    var v := W(j);
    assert y * (DV * v) == v * (DV * y);
    QuotientBound(r, v, DV * y);
  }

  lemma BelowOneWord(P: int, y: int, n: nat)
    requires y < W(n) && 0 <= P < DV * y
    ensures W(n) > 0 && 0 <= P / W(n) < DV
  {
    WeightPositive(n);
    assert DV * y <= DV * W(n);
    MulComm(DV, W(n));
    QuotientBound(P, W(n), DV);
  }

  lemma DigitAlgebra(x: int, y: int, q: int, r: int, v: int, d: int, e: int, low: int)
    requires x == q * (DV * v) * y + r && r == (d * y + e) * v + low && 0 <= e < y && 0 <= low < v
    ensures x == (q * DV + d) * v * y + (e * v + low) && 0 <= e * v + low < y * v
  {
    assert (q * DV + d) * v * y == q * (DV * v) * y + d * y * v by {
      assert (q * DV + d) * v == q * (DV * v) + d * v;
      assert d * v * y == d * y * v;
    }
    assert (d * y + e) * v == d * y * v + e * v;
    MulMono(e, y - 1, v);
    assert (y - 1) * v == y * v - v;
  }

  // the dividend of one step, the words below it, and the digit to try
  method Attempt(y: int, n: nat, r: int, j: nat) returns (P: int, low: int, qd: int)
    requires n > 0 && Normal(y, n) && 0 <= r < y * W(j + 1)
    ensures 0 < y < W(n) && 0 <= P && r == P * W(j) + low && 0 <= low < W(j) && 0 <= P / y <= qd
  {
    RemainderLeads(r, y, n, j);
    DivisorLeads(y, n);
    var (y0, y1) := TopWords(y, n);
    var p0, p1 := WordOf(r, j + n), WordOf(r, j + n - 1);
    P, low := r / W(j), r % W(j);
    EstimateClose(P, y, p0, p1, y0, y1, W(n - 1));
    qd := Estimate(p0, p1, y0, y1);
    DigitRange(P, y);
    DivMod(r, W(j));
    hide *;
  }

  lemma DivMod(a: int, b: int)
    requires b > 0
    ensures a == a / b * b + a % b && 0 <= a % b < b
  {}

  // the next digit of the quotient
  method NextDigit(y: int, n: nat, q: int, r: int, j: nat, ghost x: int) returns (q': int, r': int)
    requires n > 0 && Normal(y, n) && Remains(x, y, q, r, j + 1)
    ensures Remains(x, y, q', r', j)
  {
    var P, low, qd := Attempt(y, n, r, j);
    hide Remains;
    hide Divided;
    var N := CorrectDigit(P, y, W(n), qd);
    q', r' := SplitDigit(P, y, n, N, q, low, j, r, x);
  }

  // the digit and the words of the remainder, which the source keeps side by side
  method SplitDigit(ghost P: int, ghost y: int, n: nat, N: int, q: int, low: int, j: nat, ghost r: int, ghost x: int)
    returns (q': int, r': int)
    requires 0 < y < W(n) && Divided(P, y, W(n), N) && 0 <= low < W(j) && r == P * W(j) + low
    requires Remains(x, y, q, r, j + 1)
    ensures Remains(x, y, q', r', j)
  {
    DivUnique(N, W(n), P / y, P % y);
    q' := q * DV + N / W(n);
    r' := N % W(n) * W(j) + low;
    DigitAlgebra(x, y, q, r, W(j), P / y, P % y, low);
  }

  /** Quotient and remainder by the schoolbook method, from the top digit down. */
  method LongDivision(x: int, y: int, n: nat, t: nat) returns (q: int, r: int)
    requires 0 < n <= t && Normal(y, n) && 0 <= x < W(t)
    ensures y > 0 && q == x / y && r == x % y
  {
    var j: nat := t - n;
    DivisorPositive(y, n);
    FirstDigit(x, y, n, j);
    q, r := 0, x;
    if r >= y * W(j) {
      q, r := 1, r - y * W(j);
    }
    hide W;
    while j > 0
      invariant Remains(x, y, q, r, j)
    {
      j := j - 1;
      q, r := NextDigit(y, n, q, r, j, x);
    }
    WeightZero();
    DivUnique(x, y, q, r);
  }

  ghost predicate Remains(x: int, y: int, q: int, r: int, j: nat) {
    x == q * W(j) * y + r && 0 <= r < y * W(j)
  }

  lemma WeightZero()
    ensures W(0) == 1
  {}

  lemma DivisorPositive(y: int, n: nat)
    requires n > 0 && Normal(y, n)
    ensures y > 0
  {
    WeightPositive(n - 1);
    MulMono(1, W(n - 1), DV / 2);
  }

  lemma FirstDigit(x: int, y: int, n: nat, j: nat)
    requires n > 0 && Normal(y, n) && 0 <= x < W(n + j)
    ensures if x >= y * W(j) then Remains(x, y, 1, x - y * W(j), j) else Remains(x, y, 0, x, j)
  {
    WeightPositive(j);
    WeightAdd(n, j);
    assert W(n) == DV * W(n - 1);
    MulMono(W(n), 2 * y, W(j));
    assert 2 * y * W(j) == 2 * (y * W(j));
    MulComm(W(j), y);
  }
}
