/** Numbers as little-endian sequences of 28-bit words (crypto.js:433-445, 2167).

    Proofs about loops treat the product Term(d, i) as a whole and use the laws below;
    `hide` keeps the solver from multiplying it out. */
module Digits {
  import opened Arith

  const DB := 28
  const DV := 0x1000_0000  // 2^DB
  const DM := 0x0fff_ffff  // DV - 1

  /** The weight of the i-th word. */
  function W(i: nat): int {
    Pow(DV, i)
  }

  /** The contribution of the word d at position i. */
  function Term(d: int, i: nat): int {
    d * W(i)
  }

  lemma TermAdd(a: int, b: int, i: nat)
    ensures Term(a + b, i) == Term(a, i) + Term(b, i)
    ensures Term(a - b, i) == Term(a, i) - Term(b, i)
  {
    hide Pow;
  }

  lemma TermNeg(a: int, i: nat)
    ensures Term(-a, i) == -Term(a, i)
  {
    hide Pow;
  }

  lemma TermSmall(i: nat)
    ensures Term(0, i) == 0 && Term(1, i) == W(i) && Term(-1, i) == -W(i)
  {
    hide Pow;
  }

  lemma TermUp(c: int, i: nat)
    ensures Term(c, i + 1) == Term(c * DV, i)
  {
    assert W(i + 1) == DV * W(i);
    assert c * (DV * W(i)) == c * DV * W(i);
  }

  lemma TermMul(x: int, d: int, i: nat)
    ensures Term(x * d, i) == x * Term(d, i)
  {
    hide Pow;
    assert x * d * W(i) == x * (d * W(i));
  }

  lemma WeightAdd(m: nat, n: nat)
    ensures W(m + n) == W(m) * W(n)
  {
    PowAdd(DV, m, n);
  }

  lemma WeightPositive(i: nat)
    ensures W(i) > 0
  {
    PowPositive(DV, i);
  }

  lemma TermMono(a: int, b: int, i: nat)
    requires a <= b
    ensures Term(a, i) <= Term(b, i)
  {
    WeightPositive(i);
    MulMono(a, b, W(i));
  }

  /** The value of the n words of a from position lo on. */
  function Sum(a: seq<int>, lo: nat, n: nat): int
    requires lo + n <= |a|
  {
    if n == 0 then 0 else Sum(a, lo, n - 1) + Term(a[lo + n - 1], n - 1)
  }

  ghost predicate AreDigits(a: seq<int>, lo: nat, n: nat) {
    lo + n <= |a| && forall i | lo <= i < lo + n :: 0 <= a[i] < DV
  }

  lemma {:induction false} SumEqual(a: seq<int>, lo: nat, b: seq<int>, lo': nat, n: nat)
    requires lo + n <= |a| && lo' + n <= |b|
    requires forall i {:trigger a[i]} | lo <= i < lo + n :: a[i] == b[i - lo + lo']
    ensures Sum(a, lo, n) == Sum(b, lo', n)
    decreases n
  {
    hide Term;
    if n > 0 {
      SumEqual(a, lo, b, lo', n - 1);
      assert a[lo + n - 1] == b[lo' + n - 1];
    }
  }

  lemma {:induction false} SumSplit(a: seq<int>, lo: nat, m: nat, n: nat)
    requires lo + m + n <= |a|
    ensures Sum(a, lo, m + n) == Sum(a, lo, m) + W(m) * Sum(a, lo + m, n)
    decreases n
  {
    hide Pow;
    if n > 0 {
      SumSplit(a, lo, m, n - 1);
      var k, d := n - 1, a[lo + m + n - 1];
      assert m + n - 1 == m + k;
      WeightAdd(m, k);
      DistributeShifted(W(m), Sum(a, lo + m, k), d, W(k));
    }
  }

  lemma {:induction false} SumBound(a: seq<int>, lo: nat, n: nat)
    requires AreDigits(a, lo, n)
    ensures 0 <= Sum(a, lo, n) < W(n)
    decreases n
  {
    if n > 0 {
      SumBound(a, lo, n - 1);
      DigitBound(a[lo + n - 1], n - 1);
    }
  }

  lemma DigitBound(d: int, i: nat)
    requires 0 <= d < DV
    ensures 0 <= Term(d, i) <= W(i + 1) - W(i)
  {
    TermMono(0, d, i);
    TermMono(d, DV - 1, i);
    TermSmall(i);
    assert Term(DV - 1, i) == DV * W(i) - W(i);
  }

  /** The lowest word, and the rest as a multiple of DV. */
  lemma SumLow(a: seq<int>, lo: nat, n: nat)
    requires n > 0 && lo + n <= |a|
    ensures Sum(a, lo, n) == a[lo] + DV * Sum(a, lo + 1, n - 1)
  {
    SumSplit(a, lo, 1, n - 1);
    assert W(1) == DV * W(0);
    assert Sum(a, lo, 1) == Sum(a, lo, 0) + a[lo] * W(0);
  }

  lemma {:induction false} SumOfZeros(a: seq<int>, lo: nat, n: nat)
    requires lo + n <= |a| && forall i | lo <= i < lo + n :: a[i] == 0
    ensures Sum(a, lo, n) == 0
    decreases n
  {
    hide Pow;
    if n > 0 { SumOfZeros(a, lo, n - 1); }
  }

  /** The highest word that differs decides the order. */
  lemma {:induction false} SumOrder(a: seq<int>, b: seq<int>, i: nat, n: nat)
    requires i < n && AreDigits(a, 0, n) && AreDigits(b, 0, n)
    requires a[i] < b[i] && forall k | i < k < n :: a[k] == b[k]
    ensures Sum(a, 0, n) < Sum(b, 0, n)
    decreases n
  {
    if n > i + 1 {
      hide Term;
      SumOrder(a, b, i, n - 1);
    } else {
      SumBound(a, 0, i);
      SumBound(b, 0, i);
      TermMono(a[i] + 1, b[i], i);
      TermAdd(a[i], 1, i);
      TermSmall(i);
    }
  }

  /** Assignment to a JavaScript array element: writing past the end makes the array longer. */
  function Put(a: seq<int>, i: nat, v: int): (r: seq<int>)
    ensures |r| == (if i < |a| then |a| else i + 1) && r[i] == v
    ensures forall k {:trigger r[k]} | 0 <= k < |a| && k != i :: r[k] == a[k]
  {
    if i < |a| then a[i := v] else a + seq(i - |a|, _ => 0) + [v]
  }

  lemma SumPut(a: seq<int>, i: nat, v: int)
    requires i <= |a|
    ensures Sum(Put(a, i, v), 0, i) == Sum(a, 0, i)
    ensures Sum(Put(a, i, v), 0, i + 1) == Sum(a, 0, i) + Term(v, i)
  {
    hide Term;
    SumEqual(a, 0, Put(a, i, v), 0, i);
  }

  /** The value of t words followed by infinitely many sign words s, in two's complement. */
  function Signed(a: seq<int>, t: nat, s: int): int
    requires t <= |a|
  {
    Sum(a, 0, t) + Term(s, t)
  }

  lemma ShiftUp(w: seq<int>, t: nat, s: int, n: nat, r: seq<int>)
    requires t <= |w| && t + n <= |r|
    requires (forall k | n <= k < n + t :: r[k] == w[k - n]) && forall k | 0 <= k < n :: r[k] == 0
    ensures Signed(r, t + n, s) == Signed(w, t, s) * W(n)
  {
    hide Pow;
    var p, q, v := W(n), W(t), Sum(w, 0, t);
    assert Sum(r, 0, t + n) == p * v by {
      SumEqual(r, n, w, 0, t);
      SumOfZeros(r, 0, n);
      SumSplit(r, 0, n, t);
    }
    assert W(t + n) == p * q by { WeightAdd(n, t); }
    assert (v + s * q) * p == p * v + s * (p * q);
  }

  lemma ShiftDown(w: seq<int>, t: nat, s: int, n: nat, r: seq<int>)
    requires AreDigits(w, 0, t) && (s == 0 || s == -1)
    requires n <= t ==> t - n <= |r| && forall k | 0 <= k < t - n :: r[k] == w[k + n]
    ensures var t' := if t > n then t - n else 0;
      t' <= |r| && 0 < W(n) && Signed(r, t', s) == Signed(w, t, s) / W(n)
  {
    var p := W(n);
    WeightPositive(n);
    SumBound(w, 0, if n <= t then n else t);
    TermSmall(t);
    if n <= t {
      hide Pow;
      var q, h, low := W(t - n), Sum(w, n, t - n), Sum(w, 0, n);
      assert Sum(r, 0, t - n) == h by { SumEqual(r, 0, w, n, t - n); }
      assert Sum(w, 0, t) == low + p * h by { SumSplit(w, 0, n, t - n); }
      assert W(t) == p * q by { WeightAdd(n, t - n); }
      TermSmall(t - n);
      SubMul(h, if s < 0 then q else 0, p);
      DivUnique(Signed(w, t, s), p, Signed(r, t - n, s), low);
    } else {
      PowMonotone(DV, t, n);
      TermSmall(0);
      hide Term;
      if s < 0 {
        DivUnique(Signed(w, t, s), p, -1, Signed(w, t, s) + p);
      } else {
        DivUnique(Signed(w, t, s), p, 0, Signed(w, t, s));
      }
    }
  }

  ghost predicate ClampedWords(a: seq<int>, t: nat, s: int) {
    AreDigits(a, 0, t) && (s == 0 || s == -1) && (t > 0 ==> a[t - 1] != if s < 0 then DM else 0)
  }

  /** The length of a clamped number tells its size. */
  lemma ClampedRange(a: seq<int>, t: nat, s: int)
    requires ClampedWords(a, t, s)
    ensures if s < 0 then -W(t) <= Signed(a, t, s) < 0 else 0 <= Signed(a, t, s) < W(t)
    ensures t > 0 ==> if s < 0 then Signed(a, t, s) < -W(t - 1) else W(t - 1) <= Signed(a, t, s)
  {
    SumBound(a, 0, t);
    TermSmall(t);
    if t > 0 {
      var k := t - 1;
      SumBound(a, 0, k);
      TermSmall(k);
      if s == 0 {
        TermMono(1, a[k], k);
      } else {
        TermMono(a[k], DV - 2, k);
        assert Term(DV - 2, k) == W(k + 1) - 2 * W(k);
      }
    }
  }

  /** A sum changed only from position i on. */
  lemma AddAt(before: seq<int>, after: seq<int>, i: nat, n: nat, c: int, add: int)
    requires i + n <= |before| && i + n <= |after| && forall k | 0 <= k < i :: after[k] == before[k]
    requires Sum(after, i, n) + Term(c, n) == Sum(before, i, n) + add
    ensures Sum(after, 0, i + n) + Term(c, i + n) == Sum(before, 0, i + n) + W(i) * add
  {
    hide Pow;
    SumEqual(after, 0, before, 0, i);
    SumSplit(after, 0, i, n);
    SumSplit(before, 0, i, n);
    WeightAdd(i, n);
    ScaleEquation(W(i), W(n), Sum(after, i, n), Sum(before, i, n), add, c);
  }

  /** Two sums that differ only below position k. */
  lemma {:induction false} SumTail(a: seq<int>, b: seq<int>, k: nat, n: nat)
    requires k <= n <= |a| && n <= |b| && forall i | k <= i < n :: a[i] == b[i]
    ensures Sum(a, 0, n) - Sum(a, 0, k) == Sum(b, 0, n) - Sum(b, 0, k)
    decreases n
  {
    hide Term;
    if n > k { SumTail(a, b, k, n - 1); }
  }

  lemma {:induction false} SumZeroTail(a: seq<int>, k: nat, n: nat)
    requires k <= n <= |a| && forall i | k <= i < n :: a[i] == 0
    ensures Sum(a, 0, n) == Sum(a, 0, k)
    decreases n
  {
    hide Pow;
    if n > k { SumZeroTail(a, k, n - 1); }
  }

  lemma {:induction false} SumPrefix(a: seq<int>, k: nat, n: nat)
    requires k <= n && AreDigits(a, 0, n)
    ensures Sum(a, 0, k) <= Sum(a, 0, n)
    decreases n
  {
    if n > k {
      SumPrefix(a, k, n - 1);
      DigitBound(a[n - 1], n - 1);
    }
  }

  /** A multiply-accumulate over words i..i+n whose carry c is then added to word i+n. */
  lemma AccumulateAt(w0: seq<int>, w1: seq<int>, w2: seq<int>, i: nat, n: nat, len: nat, c: int, add: int)
    requires i + n < len <= |w0| && |w1| == |w0| && w2 == w1[i + n := w1[i + n] + c]
    requires forall k | 0 <= k < |w0| && !(i <= k < i + n) :: w1[k] == w0[k]
    requires Sum(w1, i, n) + Term(c, n) == Sum(w0, i, n) + add
    ensures Sum(w2, 0, len) == Sum(w0, 0, len) + W(i) * add
  {
    hide W;
    hide Term;
    AddAt(w0, w1, i, n, c, add);
    TopWord(w0, w1, w2, i + n, len, c, W(i) * add);
  }

  lemma TopWord(w0: seq<int>, w1: seq<int>, w2: seq<int>, j: nat, len: nat, c: int, inc: int)
    requires j < len <= |w0| && |w1| == |w0| == |w2| && w2[j] == w0[j] + c
    requires forall k | 0 <= k < j :: w2[k] == w1[k]
    requires forall k | j < k < len :: w2[k] == w0[k]
    requires Sum(w1, 0, j) + Term(c, j) == Sum(w0, 0, j) + inc
    ensures Sum(w2, 0, len) == Sum(w0, 0, len) + inc
  {
    hide Term;
    SumEqual(w2, 0, w1, 0, j);
    SumTail(w2, w0, j + 1, len);
    TermAdd(w0[j], c, j);
    assert Sum(w2, 0, j + 1) == Sum(w2, 0, j) + Term(w2[j], j);
    assert Sum(w0, 0, j + 1) == Sum(w0, 0, j) + Term(w0[j], j);
  }
}
