/** The other three ways to multiply and accumulate (crypto.js:355-390, 410-426), for words of
    26, 30 and 26 bits. All meet the equation of am3, with one exception of am1.

    JavaScript numbers are doubles: integers are exact up to 2^53. The operators `&`, `>>` and
    `>>>` act on 32 bits; `x & (2^k - 1)` and `x >>> k` are x % 2^k and x / 2^k below 2^32,
    `x >> k` only below 2^31. */
module Accumulate {
  import opened Arith

  const B26 := 0x400_0000
  const B30 := 0x4000_0000
  const EXACT := 0x20_0000_0000_0000  // 2^53

  /** The value of n words in base b from position lo on. */
  function Value(a: seq<int>, lo: nat, n: nat, b: int): int
    requires lo + n <= |a|
  {
    if n == 0 then 0 else Value(a, lo, n - 1, b) + a[lo + n - 1] * Pow(b, n - 1)
  }

  ghost predicate AreWords(a: seq<int>, lo: nat, n: nat, b: int) {
    lo + n <= |a| && forall k | lo <= k < lo + n :: 0 <= a[k] < b
  }

  lemma {:induction false} ValueEqual(a: seq<int>, a': seq<int>, lo: nat, n: nat, b: int)
    requires lo + n <= |a| && lo + n <= |a'| && forall k | lo <= k < lo + n :: a[k] == a'[k]
    ensures Value(a, lo, n, b) == Value(a', lo, n, b)
    decreases n
  {
    if n > 0 { ValueEqual(a, a', lo, n - 1, b); }
  }

  /** k words of w0 have become those of w; c is the carry. */
  ghost predicate Accumulated(w0: seq<int>, w: seq<int>, j: nat, u: seq<int>, i: nat, x: int, c0: int, c: int, k: nat, b: int) {
    && j + k <= |w0| == |w| && i + k <= |u| && AreWords(w, j, k, b)
    && (forall q | 0 <= q < |w0| && !(j <= q < j + k) :: w[q] == w0[q])
    && Balanced(w0, w, j, u, i, x, c0, c, k, b)
  }

  /** new words + b^k * carry == old words + x * words + first carry */
  ghost predicate Balanced(w0: seq<int>, w: seq<int>, j: nat, u: seq<int>, i: nat, x: int, c0: int, c: int, k: nat, b: int)
    requires j + k <= |w0| == |w| && i + k <= |u|
  {
    Value(w, j, k, b) + c * Pow(b, k) == Value(w0, j, k, b) + x * Value(u, i, k, b) + c0
  }

  lemma StepAlgebra(S: int, S0: int, A: int, x: int, c0: int, c: int, P: int, b: int, d: int, w: int, d': int, c': int, e: int)
    requires S + c * P == S0 + x * A + c0 && c' * b + d' == x * d + w + c + e
    ensures (S + d' * P) + c' * (b * P) == (S0 + w * P) + x * (A + d * P) + c0 + e * P
  {
    calc {
      (S + d' * P) + c' * (b * P);
      S + (c' * b + d') * P;
      S + (x * d + w + c + e) * P;
      S + x * d * P + w * P + c * P + e * P;
    }
    assert x * (A + d * P) == x * A + x * d * P;
  }

  /** One more word, computed with an error of e. */
  lemma Extend(w0: seq<int>, w: seq<int>, j: nat, u: seq<int>, i: nat, x: int, c0: int, c: int, k: nat, b: int, d': int, c': int, e: int)
    requires Accumulated(w0, w, j, u, i, x, c0, c, k, b) && j + k < |w| && i + k < |u|
    requires c' * b + d' == x * u[i + k] + w[j + k] + c + e && 0 <= d' < b
    ensures Accumulated(w0, w[j + k := d'], j, u, i, x, c0 + e * Pow(b, k), c', k + 1, b)
  {
    var w' := w[j + k := d'];
    ValueEqual(w, w', j, k, b);
    StepAlgebra(Value(w, j, k, b), Value(w0, j, k, b), Value(u, i, k, b), x, c0, c, Pow(b, k), b, u[i + k], w[j + k], d', c', e);
    assert Pow(b, k + 1) == b * Pow(b, k);
    assert Value(w', j, k + 1, b) == Value(w', j, k, b) + d' * Pow(b, k);
    assert Value(w0, j, k + 1, b) == Value(w0, j, k, b) + w[j + k] * Pow(b, k);
    assert Value(u, i, k + 1, b) == Value(u, i, k, b) + u[i + k] * Pow(b, k);
  }

  lemma Start(w: seq<int>, j: nat, u: seq<int>, i: nat, x: int, c: int, b: int)
    requires j <= |w| && i <= |u|
    ensures Accumulated(w, w, j, u, i, x, c, c, 0, b)
  {}

  lemma Product(a: int, A: int, b: int, B: int)
    requires 0 <= a < A && 0 <= b < B
    ensures 0 <= a * b <= (A - 1) * (B - 1)
  {
    MulMono(a, A - 1, b);
    MulMono(b, B - 1, A - 1);
    MulComm(A - 1, b);
    MulComm(B - 1, A - 1);
  }

  lemma SplitProduct(xh: int, xl: int, h: int, l: int, p: int)
    ensures (xh * p + xl) * (h * p + l) == xh * h * (p * p) + (xh * l + h * xl) * p + xl * l
  {
    calc {
      (xh * p + xl) * (h * p + l);
      (xh * p) * (h * p) + xh * p * l + xl * (h * p) + xl * l;
    }
    assert (xh * p) * (h * p) == xh * h * (p * p);
    assert xh * p * l == xh * l * p && xl * (h * p) == h * xl * p;
  }

  // ---- am2: words of 30 bits, halves of 15 ----

  /** The cross products of the halves of two words: m in the loop of am2. */
  function Cross(x: int, d: int): int {
    x / 0x8000 * (d % 0x8000) + d / 0x8000 * (x % 0x8000)
  }

  /** The low part of the sum, with its carry: the second value of l in the loop of am2. */
  function LowPart(x: int, d: int, w: int, c: int): int {
    x % 0x8000 * (d % 0x8000) + Cross(x, d) % 0x8000 * 0x8000 + w + c % B30
  }

  /** Both values fit 32 bits without a sign. */
  lemma Halves30(x: int, d: int, w: int, c: int)
    requires 0 <= x < 2 * B30 && 0 <= d < B30 && 0 <= w < B30 && 0 <= c < 3 * B30
    ensures 0 <= Cross(x, d) < 0x1_0000_0000 && 0 <= LowPart(x, d, w, c) < 0x1_0000_0000
    ensures (LowPart(x, d, w, c) / B30 + Cross(x, d) / 0x8000 + x / 0x8000 * (d / 0x8000) + c / B30) * B30
      + LowPart(x, d, w, c) % B30 == x * d + w + c
  {
    var xl, xh, l, h := x % 0x8000, x / 0x8000, d % 0x8000, d / 0x8000;
    var m := xh * l + h * xl;
    Product(xh, 0x1_0000, l, 0x8000);
    Product(h, 0x8000, xl, 0x8000);
    Product(xl, 0x8000, l, 0x8000);
    SplitProduct(xh, xl, h, l, 0x8000);
  }

  /** The documented bound 2^31 holds for the cross products of x with every word exactly when
      the halves of x add up to at most 65538, so for every x that is a single word. */
  lemma CrossWithinBound(x: int)
    requires 0 <= x < 2 * B30
    ensures (forall d | 0 <= d < B30 :: Cross(x, d) < 0x8000_0000) <==> x / 0x8000 + x % 0x8000 <= 65538
    ensures x < B30 ==> x / 0x8000 + x % 0x8000 <= 65538
  {
    var xl, xh := x % 0x8000, x / 0x8000;
    forall d | 0 <= d < B30 ensures Cross(x, d) <= (xh + xl) * 0x7fff {
      MulMono(d % 0x8000, 0x7fff, xh);
      MulMono(d / 0x8000, 0x7fff, xl);
      MulComm(xh, d % 0x8000);
    }
    assert Cross(x, B30 - 1) == (xh + xl) * 0x7fff by {
      assert (B30 - 1) % 0x8000 == 0x7fff && (B30 - 1) / 0x8000 == 0x7fff;
    }
  }

  /** For the low part the documented bound holds for two values of x only. */
  lemma LowPartWithinBound(x: int)
    requires 0 <= x < 2 * B30
    ensures (forall d, w, c | 0 <= d < B30 && 0 <= w < B30 && 0 <= c < 3 * B30 :: LowPart(x, d, w, c) < 0x8000_0000)
       <==> x == 0 || x == B30
  {
    var xl, xh := x % 0x8000, x / 0x8000;
    if x == 0 || x == B30 {
      forall d, w, c | 0 <= d < B30 && 0 <= w < B30 && 0 <= c < 3 * B30 ensures LowPart(x, d, w, c) < 0x8000_0000 {
        assert xl == 0 && (xh == 0 || xh == 0x8000);
        assert Cross(x, d) % 0x8000 == 0;
      }
    } else if xl == 0 {
      assert Cross(x, 1) == xh && xh % 0x8000 != 0;
      assert LowPart(x, 1, B30 - 1, B30 - 1) >= 0x8000_0000;
    } else {
      assert Cross(x, 2) == xh * 2;
      assert LowPart(x, 2, B30 - 1, B30 - 1) >= 0x8000_0000;
    }
  }

  lemma CarryBound(x: int, d: int, w: int, c: int, c': int, d': int, b: int)
    requires 0 <= x < 2 * b && 0 <= d < b && 0 <= w < b && 0 <= c < 3 * b
    requires c' * b + d' == x * d + w + c && 0 <= d' < b
    ensures 0 <= c' <= 2 * b
  {
    Product(x, 2 * b, d, b);
    assert (2 * b - 1) * (b - 1) == 2 * b * b - 3 * b + 1;
    if c' < 0 { MulMono(c', -1, b); }
    assert (2 * b + 1) * b == 2 * b * b + b;
    if c' > 2 * b { MulMono(2 * b + 1, c', b); }
  }

  // one word of am2: its new value and the carry
  method Word2(ghost x: int, xl: int, xh: int, d: int, w: int, c: int) returns (d': int, c': int)
    requires 0 <= x < 2 * B30 && xl == x % 0x8000 && xh == x / 0x8000
    requires 0 <= d < B30 && 0 <= w < B30 && 0 <= c < 3 * B30
    ensures c' * B30 + d' == x * d + w + c && 0 <= d' < B30 && 0 <= c' <= 2 * B30
  {
    Halves30(x, d, w, c);
    var l, h := d % 0x8000, d / 0x8000;
    var m := xh * l + h * xl;
    l := xl * l + m % 0x8000 * 0x8000 + w + c % B30;
    c' := l / B30 + m / 0x8000 + xh * h + c / B30;
    d' := l % B30;
    CarryBound(x, d, w, c, c', d', B30);
  }

  /** w[j .. j + n) += x * u[i .. i + n) + c, in base 2^30; u may be w itself for i == j */
  method Am2(u: array<int>, i0: nat, x: int, w: array<int>, j0: nat, c0: int, n0: nat) returns (c: int)
    requires (u != w || i0 == j0) && AreWords(u[..], i0, n0, B30) && AreWords(w[..], j0, n0, B30)
    requires 0 <= x < 2 * B30 && 0 <= c0 < 3 * B30
    modifies w
    ensures Accumulated(old(w[..]), w[..], j0, old(u[..]), i0, x, c0, c, n0, B30)
    ensures 0 <= c < 3 * B30
  {
    ghost var w0, u0, k := w[..], u[..], 0;
    var i, j, n := i0, j0, n0;
    c := c0;
    var xl, xh := x % 0x8000, x / 0x8000;
    Start(w0, j0, u0, i0, x, c0, B30);
    while n > 0
      invariant k + n == n0 && i == i0 + k && j == j0 + k && 0 <= c < 3 * B30
      invariant Accumulated(w0, w[..], j0, u0, i0, x, c0, c, k, B30)
      invariant forall q | i <= q < i0 + n0 :: u[q] == u0[q]
    {
      n := n - 1;
      ghost var before, cc := w[..], c;
      var d;
      d, c := Word2(x, xl, xh, u[i], w[j], c);
      Extend(w0, before, j0, u0, i0, x, c0, cc, k, B30, d, c, 0);
      w[j] := d;
      assert w[..] == before[j := d];
      i, j, k := i + 1, j + 1, k + 1;
    }
  }

  // ---- am4: words of 26 bits, halves of 13 ----

  /** All intermediate values stay below 2^29. */
  lemma Halves26(x: int, d: int, w: int, c: int)
    requires 0 <= x < 2 * B26 && 0 <= d < B26 && 0 <= w < B26 && 0 <= c < 3 * B26
    ensures var (xl, xh, l, h) := (x % 0x2000, x / 0x2000, d % 0x2000, d / 0x2000);
      var m := xh * l + h * xl;
      var l' := xl * l + m % 0x2000 * 0x2000 + w + c;
      && 0 <= m < 0x2000_0000 && 0 <= l' < 0x2000_0000
      && (l' / B26 + m / 0x2000 + xh * h) * B26 + l' % B26 == x * d + w + c
  {
    var xl, xh, l, h := x % 0x2000, x / 0x2000, d % 0x2000, d / 0x2000;
    var m := xh * l + h * xl;
    Product(xh, 0x4000, l, 0x2000);
    Product(h, 0x2000, xl, 0x2000);
    Product(xl, 0x2000, l, 0x2000);
    SplitProduct(xh, xl, h, l, 0x2000);
  }

  // one word of am4: its new value and the carry
  method Word4(ghost x: int, xl: int, xh: int, d: int, w: int, c: int) returns (d': int, c': int)
    requires 0 <= x < 2 * B26 && xl == x % 0x2000 && xh == x / 0x2000
    requires 0 <= d < B26 && 0 <= w < B26 && 0 <= c < 3 * B26
    ensures c' * B26 + d' == x * d + w + c && 0 <= d' < B26 && 0 <= c' <= 2 * B26
  {
    Halves26(x, d, w, c);
    var l, h := d % 0x2000, d / 0x2000;
    var m := xh * l + h * xl;
    l := xl * l + m % 0x2000 * 0x2000 + w + c;
    c' := l / B26 + m / 0x2000 + xh * h;
    d' := l % B26;
    CarryBound(x, d, w, c, c', d', B26);
  }

  /** w[j .. j + n) += x * u[i .. i + n) + c, in base 2^26; u may be w itself for i == j */
  method Am4(u: array<int>, i0: nat, x: int, w: array<int>, j0: nat, c0: int, n0: nat) returns (c: int)
    requires (u != w || i0 == j0) && AreWords(u[..], i0, n0, B26) && AreWords(w[..], j0, n0, B26)
    requires 0 <= x < 2 * B26 && 0 <= c0 < 3 * B26
    modifies w
    ensures Accumulated(old(w[..]), w[..], j0, old(u[..]), i0, x, c0, c, n0, B26)
    ensures 0 <= c < 3 * B26
  {
    ghost var w0, u0, k := w[..], u[..], 0;
    var i, j, n := i0, j0, n0;
    c := c0;
    var xl, xh := x % 0x2000, x / 0x2000;
    Start(w0, j0, u0, i0, x, c0, B26);
    while n > 0
      invariant k + n == n0 && i == i0 + k && j == j0 + k && 0 <= c < 3 * B26
      invariant Accumulated(w0, w[..], j0, u0, i0, x, c0, c, k, B26)
      invariant forall q | i <= q < i0 + n0 :: u[q] == u0[q]
    {
      n := n - 1;
      ghost var before, cc := w[..], c;
      var d;
      d, c := Word4(x, xl, xh, u[i], w[j], c);
      Extend(w0, before, j0, u0, i0, x, c0, cc, k, B26, d, c, 0);
      w[j] := d;
      assert w[..] == before[j := d];
      i, j, k := i + 1, j + 1, k + 1;
    }
  }

  // ---- am1: words of 26 bits, one multiplication ----

  /** The double nearest to v: above 2^53 only even numbers are doubles, and a number half way
      between two of them becomes the multiple of four. */
  function Rounded(v: int): (r: int)
    requires 0 <= v < 2 * EXACT
    ensures r == v <==> v <= EXACT || v % 2 == 0
  {
    if v <= EXACT || v % 2 == 0 then v else if v % 4 == 1 then v - 1 else v + 1
  }

  /** Only the last addition can go beyond 2^53, and only for a carry above 2 * B26. */
  lemma Product26(x: int, d: int, w: int, c: int)
    requires 0 <= x < 2 * B26 && 0 <= d < B26 && 0 <= w < B26 && 0 <= c < 3 * B26
    ensures 0 <= x * d <= x * d + w <= EXACT && x * d + w + c < EXACT + B26
    ensures c <= 2 * B26 ==> x * d + w + c <= EXACT
  {
    Product(x, 2 * B26, d, B26);
  }

  /** The carry that makes the first sum exact: at most twice the base, or a sum at most 2^53 or even. */
  ghost predicate FirstExact(u: seq<int>, i: nat, x: int, w: seq<int>, j: nat, c: int, n: nat)
    requires n > 0 ==> i < |u| && j < |w|
  {
    n > 0 ==> x * u[i] + w[j] + c <= EXACT || (x * u[i] + w[j] + c) % 2 == 0
  }

  /** The error of the whole computation after k words: the first sum may be rounded, and when it
      is rounded up the second one may be rounded as well. */
  ghost predicate ErrorAfter(k: nat, first: int, e: int, c0: int, c: int) {
    if k == 0 then e == 0 && c == c0
    else if k == 1 then e == first && 0 <= c <= 2 * B26 + (if first == 1 then 1 else 0)
    else (e == 0 <==> first == 0) && 0 <= c <= 2 * B26
  }

  ghost predicate IsFirst(first: int, x: int, d: int, w: int, c: int)
  {
    0 <= x * d + w + c < 2 * EXACT && first == Rounded(x * d + w + c) - (x * d + w + c)
  }

  lemma NextError(k: nat, first: int, e: int, c0: int, c: int, x: int, d: int, w: int) returns (v: int, err: int)
    requires 0 <= x < 2 * B26 && 0 <= d < B26 && 0 <= w < B26 && 0 <= c0 < 3 * B26 && ErrorAfter(k, first, e, c0, c)
    requires 0 <= x * d + w + c0 < 2 * EXACT && -1 <= first <= 1
    requires k == 0 ==> first == Rounded(x * d + w + c0) - (x * d + w + c0)
    ensures 0 <= x * d + w + c < 2 * EXACT && v == Rounded(x * d + w + c) && err == v - (x * d + w + c)
    ensures ErrorAfter(k + 1, first, e + err * Pow(B26, k), c0, v / B26)
  {
    Product(x, 2 * B26, d, B26);
    assert Pow(B26, 0) == 1 && Pow(B26, 1) == B26 * Pow(B26, 0);
    v, err := SumError(k, first, e, c0, c, x * d, w, Pow(B26, k));
  }

  lemma SumError(k: nat, first: int, e: int, c0: int, c: int, p: int, w: int, q: int) returns (v: int, err: int)
    requires 0 <= p <= EXACT - 3 * B26 + 1 && 0 <= w < B26 && 0 <= c0 < 3 * B26 && ErrorAfter(k, first, e, c0, c)
    requires (k == 0 ==> q == 1) && (k == 1 ==> q == B26) && -1 <= first <= 1
    requires k == 0 ==> first == Rounded(p + w + c0) - (p + w + c0)
    ensures 0 <= p + w + c < 2 * EXACT && v == Rounded(p + w + c) && err == v - (p + w + c)
    ensures ErrorAfter(k + 1, first, e + err * q, c0, v / B26)
  {
    v := Rounded(p + w + c);
    err := v - (p + w + c);
    if k >= 2 {
      assert err == 0;
    } else if k == 1 {
      assert first != 1 ==> err == 0;
      assert err * q == err * B26;
    } else {
      assert err * q == err;
    }
  }

  // one word: v = x * d + w + c as a double, its low bits and its carry
  method Word1(x: int, d: int, w: int, c: int, ghost k: nat, ghost first: int, ghost e: int, ghost c0: int)
    returns (d': int, c': int, ghost err: int)
    requires 0 <= x < 2 * B26 && 0 <= d < B26 && 0 <= w < B26 && 0 <= c0 < 3 * B26 && ErrorAfter(k, first, e, c0, c)
    requires -1 <= first <= 1 && (k == 0 ==> IsFirst(first, x, d, w, c0))
    ensures c' * B26 + d' == x * d + w + c + err && 0 <= d' < B26
    ensures ErrorAfter(k + 1, first, e + err * Pow(B26, k), c0, c')
  {
    Product26(x, d, w, c0);
    ghost var v0;
    v0, err := NextError(k, first, e, c0, c, x, d, w);
    hide Rounded;
    var v := Rounded(x * d + w + c);
    c' := v / B26;
    d' := v % B26;
  }

  /** w[j .. j + n) += x * u[i .. i + n) + c, in base 2^26: exactly when the first sum is exact */
  method Am1(u: array<int>, i0: nat, x: int, w: array<int>, j0: nat, c0: int, n0: nat) returns (c: int)
    requires (u != w || i0 == j0) && AreWords(u[..], i0, n0, B26) && AreWords(w[..], j0, n0, B26)
    requires 0 <= x < 2 * B26 && 0 <= c0 < 3 * B26
    modifies w
    ensures AreWords(w[..], j0, n0, B26) && forall q | 0 <= q < w.Length && !(j0 <= q < j0 + n0) :: w[q] == old(w[q])
    ensures Balanced(old(w[..]), w[..], j0, old(u[..]), i0, x, c0, c, n0, B26) <==> FirstExact(old(u[..]), i0, x, old(w[..]), j0, c0, n0)
    ensures 0 <= c < 3 * B26
  {
    hide Balanced;
    hide IsFirst;
    hide FirstExact;
    ghost var w0, u0, k, e := w[..], u[..], 0, 0;
    ghost var first := FirstError(u0, i0, x, w0, j0, c0, n0);
    var i, j, n := i0, j0, n0;
    c := c0;
    Start(w0, j0, u0, i0, x, c0, B26);
    while n > 0
      invariant k + n == n0 && i == i0 + k && j == j0 + k && 0 <= c < 3 * B26
      invariant ErrorAfter(k, first, e, c0, c)
      invariant Accumulated(w0, w[..], j0, u0, i0, x, c0 + e, c, k, B26)
      invariant forall q | i <= q < i0 + n0 :: u[q] == u0[q]
    {
      n := n - 1;
      ghost var before, cc := w[..], c;
      var d;
      ghost var err;
      d, c, err := Word1(x, u[i], w[j], c, k, first, e, c0);
      Extend(w0, before, j0, u0, i0, x, c0 + e, cc, k, B26, d, c, err);
      w[j] := d;
      assert w[..] == before[j := d];
      e := e + err * Pow(B26, k);
      i, j, k := i + 1, j + 1, k + 1;
    }
    ErrorShows(w0, w[..], j0, u0, i0, x, c0, e, c, n0, B26);
  }

  lemma ErrorShows(w0: seq<int>, w: seq<int>, j: nat, u: seq<int>, i: nat, x: int, c0: int, e: int, c: int, k: nat, b: int)
    requires j + k <= |w0| == |w| && i + k <= |u| && Balanced(w0, w, j, u, i, x, c0 + e, c, k, b)
    ensures Balanced(w0, w, j, u, i, x, c0, c, k, b) <==> e == 0
  {}

  /** By how much rounding changes the first sum. */
  ghost function FirstError(u: seq<int>, i: nat, x: int, w: seq<int>, j: nat, c: int, n: nat): (e: int)
    requires AreWords(u, i, n, B26) && AreWords(w, j, n, B26) && 0 <= x < 2 * B26 && 0 <= c < 3 * B26
    ensures e == 0 <==> FirstExact(u, i, x, w, j, c, n)
    ensures -1 <= e <= 1 && (n > 0 ==> IsFirst(e, x, u[i], w[j], c))
  {
    if n == 0 then 0 else
      Product26(x, u[i], w[j], c);
      Rounded(x * u[i] + w[j] + c) - (x * u[i] + w[j] + c)
  }

  /** A carry below 3 * B26 for which the sum is rounded and the result off by one. */
  lemma CarryTooLarge()
    ensures exists x, d, w, c | 0 <= x < 2 * B26 && 0 <= d < B26 && 0 <= w < B26 && 0 <= c < 3 * B26 ::
      !FirstExact([d], 0, x, [w], 0, c, 1)
  {
    var x, d, w, c := 2 * B26 - 1, B26 - 1, B26 - 1, 3 * B26 - 1;
    assert x * d + w + c == EXACT + B26 - 1;
    assert !FirstExact([d], 0, x, [w], 0, c, 1);
  }
}
