/** Division of numbers in words (crypto.js:775-830, 833-838, 1410-1415). */
module DivRem {
  import opened Arith
  import opened Digits
  import opened Bits
  import opened BigIntegers
  import opened Shifts
  import opened Division

  /** The words of a natural number. */
  function ToWords(v: nat): seq<int>
    decreases v
  {
    if v == 0 then [] else [v % DV] + ToWords(v / DV)
  }

  lemma {:induction false} ToWordsValue(v: nat)
    ensures ClampedWords(ToWords(v), |ToWords(v)|, 0) && Signed(ToWords(v), |ToWords(v)|, 0) == v
    decreases v
  {
    var w := ToWords(v);
    TermSmall(|w|);
    if v > 0 {
      ToWordsValue(v / DV);
      var u := ToWords(v / DV);
      TermSmall(|u|);
      assert w[1..] == u;
      SumLow(w, 0, |w|);
      SumEqual(w, 1, u, 0, |u|);
    }
  }

  /** Shifting both numbers left keeps the quotient and shifts the remainder. */
  lemma ScaledDivision(a: int, b: int, k: int)
    requires b > 0 && k > 0
    ensures b * k > 0 && a * k / (b * k) == a / b && a * k % (b * k) == a % b * k
  {
    var q, e := a / b, a % b;
    assert a == q * b + e;
    MulMono(1, b, k);
    MulMono(e, b - 1, k);
    MulMono(0, e, k);
    assert (b - 1) * k == b * k - k;
    assert (q * b + e) * k == q * (b * k) + e * k;
    DivUnique(a * k, b * k, q, e * k);
  }

  /** A divisor shifted until its top word is at least DV / 2. */
  lemma Normalized(w: seq<int>, t: nat, nb: nat, u: seq<int>, t': nat)
    requires ClampedWords(w, t, 0) && t > 0 && 1 <= nb && P2(nb - 1) <= w[t - 1] < P2(nb)
    requires nb <= DB && ClampedWords(u, t', 0) && Signed(u, t', 0) == Signed(w, t, 0) * P2(DB - nb)
    ensures t' == t && Normal(Signed(u, t', 0), t')
  {
    var k, top := P2(DB - nb), w[t - 1];
    P2Positive(DB - nb);
    NormalTop(top, nb);
    SumBound(w, 0, t - 1);
    TermSmall(t);
    var v, W1 := Sum(w, 0, t), W(t - 1);
    hide P2;
    assert top * W1 <= v < (top + 1) * W1;
    ScaledRange(v, top, W1, k);
    assert W(t) == DV * W1;
    TermSmall(t');
    SameLength(u, t', t);
  }

  lemma NormalTop(top: int, nb: nat)
    requires 1 <= nb <= DB && P2(nb - 1) <= top < P2(nb)
    ensures DV / 2 <= top * P2(DB - nb) && (top + 1) * P2(DB - nb) <= DV
  {
    P2Word();
    P2Add(nb, DB - nb);
    P2Positive(DB - nb);
    assert P2(nb) == 2 * P2(nb - 1);
    hide P2;
    HalfAndWhole(top, P2(nb - 1), P2(DB - nb));
  }

  lemma HalfAndWhole(top: int, h: int, k: int)
    requires k > 0 && h <= top < 2 * h && 2 * h * k == DV
    ensures DV / 2 <= top * k && (top + 1) * k <= DV
  {
    assert 2 * h * k == 2 * (h * k);
    MulMono(h, top, k);
    MulMono(top + 1, 2 * h, k);
  }

  lemma ScaledRange(v: int, top: int, w: int, k: int)
    requires w > 0 && k > 0 && top * w <= v < (top + 1) * w && DV / 2 <= top * k && (top + 1) * k <= DV
    ensures w * (DV / 2) <= v * k < DV * w
  {
    MulMono(top * w, v, k);
    MulMono(v + 1, (top + 1) * w, k);
    assert top * w * k == top * k * w && (top + 1) * w * k == (top + 1) * k * w;
    MulMono(DV / 2, top * k, w);
    MulMono((top + 1) * k, DV, w);
    MulComm(w, DV / 2);
    assert (v + 1) * k == v * k + k;
  }

  lemma SameLength(u: seq<int>, t': nat, t: nat)
    requires ClampedWords(u, t', 0) && t > 0 && W(t - 1) <= Signed(u, t', 0) < W(t)
    ensures t' == t
  {
    ClampedRange(u, t', 0);
    WeightPositive(t - 1);
    if t' > t { PowMonotone(DV, t, t' - 1); }
    if t' < t { PowMonotone(DV, t', t - 1); }
  }

  /** r = the remainder of x by m, with the sign of x; q is the quotient, rounded toward zero.
      For m = 0 nothing happens. Between the shifts the division is one of numbers, and the
      digits are tried without the rounding of floating point. */
  method DivRemTo(x: BigInteger, m: BigInteger, r: BigInteger) returns (q: int)
    requires x.Valid() && m.Clamped() && (x.Clamped() || x.Value() == 0)
    modifies r
    ensures old(m.Value()) == 0 ==> unchanged(r)
    ensures old(m.Value()) != 0 ==>
      && r.Valid() && r.Value() == JsRem(old(x.Value()), Magnitude(old(m.Value())))
      && q == JsQuot(old(x.Value()), old(m.Value()))
    ensures old(m.Value()) != 0 && old(x.Clamped() || (m.s == 0 && x.t >= m.t)) ==> r.Clamped()
  {
    hide JsRem;
    hide JsQuot;
    hide Sum;
    hide Term;
    ghost var v, d := x.Value(), m.Value();
    var pm := m.Abs();
    LengthOfZero(pm.words, pm.t);
    q := 0;
    if pm.t <= 0 {
      return;
    }
    var pt := x.Abs();
    var ts, ms := x.s, m.s;
    SignAgrees(x.words, x.t, x.s);
    SignAgrees(m.words, m.t, m.s);
    if pt.t < pm.t {
      ShortDividend(pt.words, pt.t, pm.words, pm.t, v, d);
      if r != x { x.CopyTo(r); }
      return;
    }
    var bits := TopBits(pm);
    q := DivideNormalized(pt, pm, DB - bits, r);
    Signs(v, d);
    if ts != ms { q := -q; }
    if ts < 0 {
      var zero := new BigInteger();
      zero.SubTo(r, r);
    }
  }

  lemma LengthOfZero(w: seq<int>, t: nat)
    requires ClampedWords(w, t, 0)
    ensures Signed(w, t, 0) >= 0 && (t == 0 <==> Signed(w, t, 0) == 0)
  {
    ClampedRange(w, t, 0);
    if t > 0 { WeightPositive(t - 1); }
  }

  lemma SignAgrees(w: seq<int>, t: nat, s: int)
    requires AreDigits(w, 0, t) && (s == 0 || s == -1)
    ensures s < 0 <==> Signed(w, t, s) < 0
  {
    SumBound(w, 0, t);
    TermSmall(t);
  }

  /** A number of fewer words is its own remainder. */
  lemma ShortDividend(u: seq<int>, t': nat, w: seq<int>, t: nat, v: int, d: int)
    requires AreDigits(u, 0, t') && ClampedWords(w, t, 0) && t' < t && d != 0
    requires Signed(u, t', 0) == Magnitude(v) && Signed(w, t, 0) == Magnitude(d)
    ensures JsRem(v, Magnitude(d)) == v && JsQuot(v, d) == 0
  {
    NotNegative(u, t');
    ClampedRange(w, t, 0);
    PowMonotone(DV, t', t - 1);
    DivUnique(Magnitude(v), Magnitude(d), 0, Magnitude(v));
  }

  lemma Signs(v: int, d: int)
    requires d != 0
    ensures JsRem(v, Magnitude(d)) == if v < 0 then -(Magnitude(v) % Magnitude(d)) else Magnitude(v) % Magnitude(d)
    ensures JsQuot(v, d) == if (v < 0) == (d < 0) then Magnitude(v) / Magnitude(d) else -(Magnitude(v) / Magnitude(d))
  {}

  // how many bits the top word has
  method TopBits(m: BigInteger) returns (n: nat)
    requires m.Clamped() && m.s == 0 && m.t > 0
    ensures 1 <= n <= DB && P2(n - 1) <= m.words[m.t - 1] < P2(n)
  {
    n := NBits(m.words[m.t - 1]);
    P2Word();
    if n > DB { PowMonotone(2, DB, n - 1); }
  }

  // r = pt mod pm, both shifted left by nsh bits and r back again; the quotient is returned
  method DivideNormalized(pt: BigInteger, pm: BigInteger, nsh: nat, r: BigInteger) returns (q: int)
    requires pt.Valid() && pt.s == 0 && (pt.Clamped() || pt.Value() == 0)
    requires pm.Clamped() && pm.s == 0 && pm.t > 0 && pt.t >= pm.t && nsh < DB
    requires P2(DB - nsh - 1) <= pm.words[pm.t - 1] < P2(DB - nsh)
    modifies r
    ensures old(pm.Value()) > 0 && r.Clamped() && r.Value() == old(pt.Value()) % old(pm.Value())
    ensures q == old(pt.Value()) / old(pm.Value())
  {
    ghost var a, b := pt.Value(), pm.Value();
    var y, n := Shift(pt, pm, nsh, r);
    ScaledDivision(a, b, P2(nsh));
    var rem;
    q, rem := LongDivision(r.Value(), y.Value(), y.t, n);
    r.words, r.t, r.s := ToWords(rem), |ToWords(rem)|, 0;
    ToWordsValue(rem);
    if nsh > 0 { RShiftTo(r, nsh, r); }
    ShiftBack(a % b, nsh, rem);
  }

  lemma ShiftBack(v: int, n: nat, w: int)
    requires w == v * P2(n)
    ensures Shr(w, n) == v && (n == 0 ==> w == v)
  {
    P2Positive(n);
    ShrUnique(w, n, v, 0);
  }

  // y = pm << nsh and r = pt << nsh; the dividend has at most n words
  method Shift(pt: BigInteger, pm: BigInteger, nsh: nat, r: BigInteger) returns (y: BigInteger, n: nat)
    requires pt.Valid() && pt.s == 0 && (pt.Clamped() || pt.Value() == 0)
    requires pm.Clamped() && pm.s == 0 && pm.t > 0 && pt.t >= pm.t && nsh < DB
    requires P2(DB - nsh - 1) <= pm.words[pm.t - 1] < P2(DB - nsh)
    modifies r
    ensures fresh(y) && P2(nsh) > 0 && old(pm.Value()) > 0 && y.t <= |y.words| && r.t <= |r.words|
    ensures y.Value() == old(pm.Value()) * P2(nsh) && r.Value() == old(pt.Value()) * P2(nsh)
    ensures 0 < y.t <= n && Normal(y.Value(), y.t) && 0 <= r.Value() < W(n)
  {
    hide P2;
    hide Term;
    hide Sum;
    ghost var w, t, u, l, a := pm.words, pm.t, pt.words, pt.t, pt.Value();
    P2Positive(nsh);
    ClampedRange(w, t, 0);
    WeightPositive(t - 1);
    NotNegative(u, l);
    y := new BigInteger();
    if nsh > 0 {
      LShiftTo(pm, nsh, y);
      LShiftTo(pt, nsh, r);
    } else {
      NoShift();
      pm.CopyTo(y);
      if r != pt { pt.CopyTo(r); }
    }
    MulMono(0, a, P2(nsh));
    SignOfProduct(w, t, y.words, y.t, y.s, P2(nsh));
    SignOfValue(r.words, r.t, r.s, a * P2(nsh));
    Normalized(w, t, DB - nsh, y.words, y.t);
    n := if r.t < y.t then y.t else r.t;
    PowMonotone(DV, r.t, n);
  }

  /** bnMod: the remainder in 0..a. */
  method Mod(x: BigInteger, a: BigInteger) returns (r: BigInteger)
    requires x.Clamped() && a.Clamped() && a.Value() > 0
    ensures fresh(r) && r.Clamped() && 0 <= r.Value() < a.Value() && Cong(r.Value(), x.Value(), a.Value())
  {
    r := new BigInteger();
    var zero := new BigInteger();
    var y := x.Abs();
    ClampedRange(x.words, x.t, x.s);
    var q := DivRemTo(y, a, r);
    ClampedRange(r.words, r.t, r.s);
    ghost var rem := r.Value();
    var c := r.CompareTo(zero);
    if x.s < 0 && c > 0 {
      a.SubTo(r, r);
    }
    ModFacts(x.Value(), y.Value(), rem, r.Value(), a.Value());
  }

  lemma ModFacts(v: int, y: int, rem: int, r: int, a: int)
    requires a > 0 && y == (if v < 0 then -v else v) && 0 <= rem < a && Cong(rem, y, a)
    requires r == if v < 0 && rem > 0 then a - rem else rem
    ensures 0 <= r < a && Cong(r, v, a)
  {
    var k :| Multiple(k, a, rem, y);
    if v < 0 {
      if rem > 0 { CongIntro(r, v, a, 1 - k) by { assert (1 - k) * a == a - k * a; } }
      else { CongIntro(r, v, a, -k) by { assert (-k) * a == -(k * a); } }
    }
  }

  lemma NoShift()
    ensures P2(0) == 1
  {}

  lemma NotNegative(w: seq<int>, t: nat)
    requires AreDigits(w, 0, t)
    ensures 0 <= Signed(w, t, 0) < W(t)
  {
    SumBound(w, 0, t);
    TermSmall(t);
  }

  lemma SignOfValue(w: seq<int>, t: nat, s: int, v: int)
    requires AreDigits(w, 0, t) && (s == 0 || s == -1) && Signed(w, t, s) == v >= 0
    ensures s == 0 && v < W(t)
  {
    SumBound(w, 0, t);
    TermSmall(t);
  }

  lemma SignOfProduct(w: seq<int>, t: nat, u: seq<int>, t': nat, s: int, k: int)
    requires ClampedWords(w, t, 0) && ClampedWords(u, t', s) && k > 0 && Signed(u, t', s) == Signed(w, t, 0) * k
    ensures s == 0
  {
    NotNegative(w, t);
    MulMono(0, Signed(w, t, 0), k);
    SignOfValue(u, t', s, Signed(w, t, 0) * k);
  }

  // this / a, rounded toward zero
  method Divide(x: BigInteger, a: BigInteger) returns (r: BigInteger)
    requires x.Clamped() && a.Clamped() && a.Value() != 0
    ensures fresh(r) && r.Clamped() && r.Value() == JsQuot(x.Value(), a.Value())
  {
    r := new BigInteger();
    var rest := new BigInteger();
    var q := DivRemTo(x, a, rest);
    ToWordsValue(Magnitude(q));
    r.words, r.t, r.s := ToWords(Magnitude(q)), |ToWords(Magnitude(q))|, 0;
    if q < 0 {
      var zero := new BigInteger();
      zero.SubTo(r, r);
    }
  }
}
