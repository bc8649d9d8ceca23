/** The binary greatest common divisor (crypto.js:1274-1305, 1643-1672). */
module BinaryGcd {
  import opened Arith
  import opened Digits
  import opened Bits
  import opened BigIntegers
  import opened Shifts

  ghost predicate Divides(e: int, x: int) {
    exists k: int :: Factor(k, e, x)
  }

  ghost predicate Factor(k: int, e: int, x: int) {
    x == e * k
  }

  ghost predicate Common(e: int, x: int, y: int) {
    Divides(e, x) && Divides(e, y)
  }

  /** d divides both x and y, and every number that does divides d. */
  ghost predicate IsGcd(d: int, x: int, y: int) {
    && d >= 0 && Common(d, x, y)
    && forall e | Common(e, x, y) :: Divides(e, d)
  }

  lemma DividesIs(e: int, k: int)
    ensures Divides(e, e * k)
  {
    assert Factor(k, e, e * k);
  }

  lemma DividesSum(e: int, x: int, y: int)
    requires Common(e, x, y)
    ensures Divides(e, x + y) && Divides(e, x - y)
  {
    var k :| Factor(k, e, x);
    var l :| Factor(l, e, y);
    assert e * (k + l) == x + y && e * (k - l) == x - y;
    assert Factor(k + l, e, x + y) && Factor(k - l, e, x - y);
  }

  lemma DividesTwice(e: int, x: int)
    ensures Divides(e, x) ==> Divides(e, 2 * x)
    ensures Divides(e, x) <==> Divides(2 * e, 2 * x)
  {
    if k :| Factor(k, e, x) {
      assert e * (2 * k) == 2 * x && 2 * e * k == 2 * x;
      assert Factor(2 * k, e, 2 * x) && Factor(k, 2 * e, 2 * x);
    }
    if k :| Factor(k, 2 * e, 2 * x) {
      assert 2 * (e * k) == 2 * x;
      assert Factor(k, e, x);
    }
  }

  /** An odd divisor of 2x divides x. */
  lemma OddDivides(e: int, x: int)
    requires Divides(e, 2 * x) && e % 2 == 1
    ensures Divides(e, x)
  {
    var k :| Factor(k, e, 2 * x);
    var h := e / 2;
    assert e * k == 2 * (h * k) + k;
    assert Factor(k / 2, e, x) by {
      assert k == 2 * (k / 2);
      assert e * (2 * (k / 2)) == 2 * (e * (k / 2));
    }
  }

  lemma DivisorOfOdd(e: int, y: int)
    requires Divides(e, y) && y % 2 == 1
    ensures e % 2 == 1
  {
    var k :| Factor(k, e, y);
    EvenFactor(e, k);
  }

  lemma EvenFactor(e: int, k: int)
    ensures e % 2 == 0 ==> e * k % 2 == 0
  {
    if e % 2 == 0 { assert e * k == 2 * (e / 2 * k); }
  }

  lemma GcdSwap(d: int, x: int, y: int)
    requires IsGcd(d, x, y)
    ensures IsGcd(d, y, x)
  {
    forall e | Common(e, y, x) ensures Divides(e, d) { assert Common(e, x, y); }
  }

  /** A factor of two in x does not matter while y is odd. */
  lemma GcdDouble(d: int, x: int, y: int)
    requires IsGcd(d, x, y) && y % 2 == 1
    ensures IsGcd(d, 2 * x, y)
  {
    DividesTwice(d, x);
    forall e | Common(e, 2 * x, y) ensures Divides(e, d) {
      DivisorOfOdd(e, y);
      OddDivides(e, x);
      assert Common(e, x, y);
    }
  }

  lemma {:induction false} GcdShifted(d: int, x: int, y: int, i: nat)
    requires IsGcd(d, x, y) && (y % 2 == 1 || i == 0)
    ensures IsGcd(d, x * P2(i), y)
    decreases i
  {
    if i > 0 {
      GcdShifted(d, x, y, i - 1);
      GcdDouble(d, x * P2(i - 1), y);
      assert x * P2(i) == 2 * (x * P2(i - 1));
    }
  }

  lemma GcdAdd(d: int, x: int, y: int)
    requires IsGcd(d, x, y)
    ensures IsGcd(d, x + y, y)
  {
    DividesSum(d, x, y);
    forall e | Common(e, x + y, y) ensures Divides(e, d) {
      DividesSum(e, x + y, y);
      assert Common(e, x, y);
    }
  }

  lemma GcdTwice(d: int, x: int, y: int)
    requires IsGcd(d, x, y)
    ensures IsGcd(2 * d, 2 * x, 2 * y)
  {
    DividesTwice(d, x);
    DividesTwice(d, y);
    forall e | Common(e, 2 * x, 2 * y) ensures Divides(e, 2 * d) {
      if e % 2 == 1 {
        OddDivides(e, x);
        OddDivides(e, y);
        assert Common(e, x, y);
        DividesTwice(e, d);
      } else {
        var f := e / 2;
        DividesTwice(f, x);
        DividesTwice(f, y);
        assert Common(f, x, y);
        DividesTwice(f, d);
      }
    }
  }

  lemma {:induction false} GcdScaled(d: int, x: int, y: int, g: nat)
    requires IsGcd(d, x, y)
    ensures IsGcd(d * P2(g), x * P2(g), y * P2(g))
    decreases g
  {
    if g > 0 {
      GcdScaled(d, x, y, g - 1);
      GcdTwice(d * P2(g - 1), x * P2(g - 1), y * P2(g - 1));
      assert d * P2(g) == 2 * (d * P2(g - 1)) && x * P2(g) == 2 * (x * P2(g - 1)) && y * P2(g) == 2 * (y * P2(g - 1));
    }
  }

  lemma GcdZero(x: int)
    requires x >= 0
    ensures IsGcd(x, x, 0) && IsGcd(x, 0, x)
  {
    DividesIs(x, 1);
    DividesIs(x, 0);
    assert Common(x, x, 0) && Common(x, 0, x);
  }

  /** There is only one greatest common divisor. */
  lemma GcdUnique(d: int, d': int, x: int, y: int)
    requires IsGcd(d, x, y) && IsGcd(d', x, y)
    ensures d == d'
  {
    DividesBelow(d, d');
    DividesBelow(d', d);
  }

  lemma DividesBelow(e: int, x: int)
    requires Divides(e, x) && e >= 0 && x >= 0
    ensures x > 0 ==> e <= x
    ensures e == 0 ==> x == 0
  {
    var k :| Factor(k, e, x);
    if x > 0 {
      if k <= 0 { MulMono(k, 0, e); MulComm(k, e); }
      MulMono(1, k, e);
      MulComm(k, e);
    }
  }

  /** x == odd * 2^n */
  ghost predicate LowestBit(x: int, n: nat) {
    x == Shr(x, n) * P2(n) && Shr(x, n) % 2 == 1
  }

  lemma LowestBitIs(x: int, odd: int, n: nat)
    requires x == odd * P2(n) && odd % 2 == 1
    ensures LowestBit(x, n) && Shr(x, n) == odd
  {
    P2Positive(n);
    ShrUnique(x, n, odd, 0);
  }

  // one of lbit's steps: halve k times when the k low bits are zero
  method Skip(ghost x0: int, x: int, r: nat, k: nat, f: int) returns (x': int, r': nat)
    requires x0 == x * P2(r) && f == P2(k) && 0 < f && 0 < x && x % (f * f) != 0
    ensures x0 == x' * P2(r') && 0 < x' && x' % f != 0
  {
    x', r' := x, r;
    if x % f == 0 {
      x', r' := x / f, r + k;
      SkipAlgebra(x', f, P2(r));
      P2Add(k, r);
      SkipOnce(x, f);
    }
  }

  lemma SkipOnce(x: int, f: int)
    requires f > 0 && x > 0 && x % f == 0 && x % (f * f) != 0
    ensures x / f > 0 && x / f % f != 0
  {
    var y := x / f;
    assert x == y * f;
    if y <= 0 { MulMono(y, 0, f); }
    if y % f == 0 {
      assert y / f * f * f == y / f * (f * f);
      DivUnique(x, f * f, y / f, 0);
    }
  }

  lemma SkipAlgebra(x: int, f: int, p: int)
    ensures x * f * p == x * (f * p)
  {}

  // the position of the lowest bit of x, or -1
  method LBit(x0: int) returns (r: int)
    requires 0 <= x0 < 0x8000_0000
    ensures if x0 == 0 then r == -1 else r >= 0 && LowestBit(x0, r)
  {
    if x0 == 0 { return -1; }
    var x, n := x0, 0;
    SmallPowers();
    hide P2;
    hide LowestBit;
    x, n := Skip(x0, x, n, 16, 0x1_0000);
    x, n := Skip(x0, x, n, 8, 0x100);
    x, n := Skip(x0, x, n, 4, 0x10);
    x, n := Skip(x0, x, n, 2, 4);
    LastBit(x0, x, n);
    if x % 2 == 0 { n := n + 1; }
    r := n;
  }

  lemma LastBit(x0: int, x: int, n: nat)
    requires x0 == x * P2(n) && x % 4 != 0
    ensures LowestBit(x0, if x % 2 == 0 then n + 1 else n)
  {
    if x % 2 == 0 {
      assert P2(n + 1) == 2 * P2(n);
      SkipAlgebra(x / 2, 2, P2(n));
      LowestBitIs(x0, x / 2, n + 1);
    } else {
      LowestBitIs(x0, x, n);
    }
  }

  /** DV = 2^l * (2 * h) */
  lemma WordBits(l: nat)
    requires l < DB
    ensures DV == P2(l) * (2 * P2(DB - l - 1))
  {
    P2Add(l, DB - l);
    P2Word();
    P2Add(DB - l - 1, 1);
    assert P2(1) == 2;
  }

  lemma LowestOfSum(d: int, l: nat, H: int, i: nat)
    requires 0 < d < DV && LowestBit(d, l)
    ensures LowestBit((d + DV * H) * P2(DB * i), DB * i + l)
  {
    var odd := Shr(d, l);
    hide P2;
    hide Shr;
    LowBitFits(d, odd, l);
    WordBits(l);
    P2Add(l, DB * i);
    var p, q, h := P2(l), P2(DB * i), P2(DB - l - 1);
    LowestAlgebra(odd, p, h, H, q);
    TwicePlus(odd, h * H);
    LowestSame(d, DV, odd, p, h, H, q);
    LowestBitIs((d + DV * H) * P2(DB * i), odd + 2 * (h * H), DB * i + l);
  }

  /** The lowest bit lies in the lowest word that is not zero. */
  lemma LowestWord(w: seq<int>, t: nat, s: int, i: nat, l: nat)
    requires AreDigits(w, 0, t) && i < t && w[i] != 0 && LowestBit(w[i], l)
    requires forall k | 0 <= k < i :: w[k] == 0
    ensures LowestBit(Signed(w, t, s), DB * i + l)
  {
    hide LowestBit;
    hide P2;
    var v, m := w[i..], t - i;
    ShiftUp(v, m, s, i, w);
    WeightIsPower(i);
    SumLow(v, 0, m);
    TermUp(s, m - 1);
    TermMul(DV, s, m - 1);
    LowestOfSum(w[i], l, Sum(v, 1, m - 1) + Term(s, m - 1), i);
  }

  lemma TwicePlus(a: int, b: int)
    ensures (a + 2 * b) % 2 == a % 2
  {}

  lemma LowestSame(d: int, D: int, odd: int, p: int, h: int, H: int, q: int)
    requires d == odd * p && D == p * (2 * h)
    ensures (d + D * H) * q == (odd * p + p * (2 * h) * H) * q
  {}

  lemma LowestAlgebra(odd: int, p: int, h: int, H: int, q: int)
    ensures (odd * p + p * (2 * h) * H) * q == (odd + 2 * (h * H)) * (p * q)
  {
    assert odd * p + p * (2 * h) * H == (odd + 2 * (h * H)) * p;
    assert (odd + 2 * (h * H)) * p * q == (odd + 2 * (h * H)) * (p * q);
  }

  lemma LowBitFits(d: int, odd: int, l: nat)
    requires 0 < d < DV && d == odd * P2(l)
    ensures l < DB
  {
    P2Positive(l);
    if odd <= 0 { MulMono(odd, 0, P2(l)); }
    MulMono(1, odd, P2(l));
    if l >= DB { PowMonotone(2, DB, l); P2Word(); }
  }

  // the position of the lowest bit of x, or -1
  method GetLowestSetBit(x: BigInteger) returns (r: int)
    requires x.Clamped()
    ensures if x.Value() == 0 then r == -1 else r >= 0 && LowestBit(x.Value(), r)
  {
    hide P2;
    hide Term;
    ClampedRange(x.words, x.t, x.s);
    var i := 0;
    while i < x.t
      invariant 0 <= i <= x.t && forall k | 0 <= k < i :: x.words[k] == 0
    {
      if x.words[i] != 0 {
        var l := LBit(x.words[i]);
        LowestWord(x.words, x.t, x.s, i, l);
        return i * DB + l;
      }
      i := i + 1;
    }
    SumOfZeros(x.words, 0, x.t);
    TermSmall(x.t);
    if x.s < 0 {
      WeightIsPower(x.t);
      LowestBitIs(x.Value(), -1, DB * x.t);
      return x.t * DB;
    }
    return -1;
  }

  method SigNum(x: BigInteger) returns (r: int)
    requires x.Clamped()
    ensures SameSign(r, x.Value())
  {
    ClampedRange(x.words, x.t, x.s);
    TermZero(if x.t == 1 then x.words[0] else 0);
    if x.s < 0 {
      r := -1;
    } else if x.t <= 0 || (x.t == 1 && x.words[0] <= 0) {
      r := 0;
    } else {
      r := 1;
    }
  }

  // |x| in a number of its own
  method Magnitude(x: BigInteger) returns (r: BigInteger)
    requires x.Clamped()
    ensures fresh(r) && r.Clamped() && r.s == 0 && r.Value() == if x.Value() < 0 then -x.Value() else x.Value()
  {
    ClampedRange(x.words, x.t, x.s);
    if x.s < 0 {
      r := x.Negate();
    } else {
      r := new BigInteger();
      x.CopyTo(r);
    }
    ClampedRange(r.words, r.t, r.s);
  }

  /** Whatever divides x and y exactly as d does is, scaled by 2^g, the gcd of a and b. */
  ghost predicate Leads(x: int, y: int, g: nat, a: int, b: int) {
    forall d | IsGcd(d, x, y) :: IsGcd(d * P2(g), a, b)
  }

  lemma LeadsHalved(x: int, y: int, g: nat, a: int, b: int, i: nat)
    requires Leads(x, y, g, a, b) && LowestBit(x, i) && (y % 2 == 1 || i == 0)
    ensures Leads(Shr(x, i), y, g, a, b)
  {
    forall d | IsGcd(d, Shr(x, i), y) ensures IsGcd(d * P2(g), a, b) {
      GcdShifted(d, Shr(x, i), y, i);
    }
  }

  lemma LeadsSwap(x: int, y: int, g: nat, a: int, b: int)
    requires Leads(x, y, g, a, b)
    ensures Leads(y, x, g, a, b)
  {
    forall d | IsGcd(d, y, x) ensures IsGcd(d * P2(g), a, b) { GcdSwap(d, y, x); }
  }

  /** x - y is even when both are odd. */
  lemma LeadsSubtract(x: int, y: int, g: nat, a: int, b: int)
    requires Leads(x, y, g, a, b) && x % 2 == 1 && y % 2 == 1
    ensures Shr(x - y, 1) == (x - y) / 2 && Leads((x - y) / 2, y, g, a, b)
  {
    var h := (x - y) / 2;
    assert P2(1) == 2 && Shr(x - y, 1) == h;
    forall d | IsGcd(d, h, y) ensures IsGcd(d * P2(g), a, b) {
      GcdDouble(d, h, y);
      GcdAdd(d, 2 * h, y);
    }
  }

  lemma LowestSmaller(x: int, i: nat, j: nat)
    requires LowestBit(x, i) && j <= i && x > 0
    ensures LowestBit(Shr(x, j), i - j) && x == Shr(x, j) * P2(j) && Shr(x, j) > 0
    ensures i == j ==> Shr(x, j) % 2 == 1
  {
    var odd := Shr(x, i);
    P2Add(i - j, j);
    SkipAlgebra(odd, P2(i - j), P2(j));
    P2Positive(j);
    P2Positive(i);
    P2Positive(i - j);
    ShrUnique(x, j, odd * P2(i - j), 0);
    LowestBitIs(odd * P2(i - j), odd, i - j);
    if odd <= 0 { MulMono(odd, 0, P2(i)); }
    MulMono(1, odd, P2(i - j));
  }

  // x without its factors of two
  method StripTwos(x: BigInteger) returns (ghost i: nat)
    requires x.Clamped() && x.s == 0 && x.Value() > 0
    modifies x
    ensures x.Clamped() && x.s == 0 && LowestBit(old(x.Value()), i)
    ensures x.Value() == Shr(old(x.Value()), i) && 0 < x.Value() <= old(x.Value())
  {
    ghost var v := x.Value();
    var low := GetLowestSetBit(x);
    i := low;
    LowestSmaller(v, i, i);
    assert Shr(v, 0) == v by { assert P2(0) == 1; }
    ShrSmaller(v, i);
    if low > 0 { RShiftTo(x, low, x); }
    ClampedRange(x.words, x.t, x.s);
  }

  lemma ShrSmaller(x: int, n: nat)
    requires x > 0
    ensures Shr(x, n) <= x
  {
    P2Positive(n);
    var q := Shr(x, n);
    if q > 0 { MulMono(1, P2(n), q); MulComm(q, P2(n)); }
  }

  // x = (x - y) / 2 for odd x >= y
  method SubtractHalve(x: BigInteger, y: BigInteger, ghost g: nat, ghost a: int, ghost b: int)
    requires x != y && x.Clamped() && y.Clamped() && x.Value() >= y.Value() > 0
    requires x.Value() % 2 == 1 && y.Value() % 2 == 1 && Leads(x.Value(), y.Value(), g, a, b)
    modifies x
    ensures x.Clamped() && x.s == 0 && 0 <= x.Value() == (old(x.Value()) - y.Value()) / 2
    ensures Leads(x.Value(), y.Value(), g, a, b)
  {
    LeadsSubtract(x.Value(), y.Value(), g, a, b);
    x.SubTo(y, x);
    RShiftTo(x, 1, x);
    ClampedRange(x.words, x.t, x.s);
  }

  /** The common factors of two taken out of x and y, which are a and b in some order. */
  lemma CommonTwos(x: int, y: int, i: nat, j: nat, g: nat, a: int, b: int)
    requires x > 0 && y > 0 && LowestBit(x, i) && LowestBit(y, j) && g == (if i < j then i else j)
    requires (x == a && y == b) || (x == b && y == a)
    ensures Shr(x, g) > 0 && Shr(y, g) > 0 && (Shr(x, g) % 2 == 1 || Shr(y, g) % 2 == 1)
    ensures Leads(Shr(x, g), Shr(y, g), g, a, b)
    ensures g == 0 ==> Shr(x, g) == x && Shr(y, g) == y
  {
    LowestSmaller(x, i, g);
    LowestSmaller(y, j, g);
    assert g == 0 ==> P2(g) == 1;
    forall d | IsGcd(d, Shr(x, g), Shr(y, g)) ensures IsGcd(d * P2(g), a, b) {
      GcdScaled(d, Shr(x, g), Shr(y, g), g);
      if x == b { GcdSwap(d * P2(g), x, y); }
    }
  }

  /** Positive numbers, or x zero; one of them odd. */
  ghost predicate Running(x: BigInteger, y: BigInteger, g: nat, a: int, b: int)
    reads x, y
  {
    && x != y && x.Clamped() && y.Clamped() && x.s == 0 && y.s == 0 && x.Value() >= 0 && y.Value() > 0
    && (x.Value() % 2 == 1 || y.Value() % 2 == 1)
    && Leads(x.Value(), y.Value(), g, a, b)
  }

  // both numbers lose their factors of two
  method StripBoth(x: BigInteger, y: BigInteger, ghost g: nat, ghost a: int, ghost b: int)
    requires Running(x, y, g, a, b) && x.Value() > 0
    modifies x, y
    ensures Running(x, y, g, a, b) && x.Value() % 2 == 1 && y.Value() % 2 == 1
    ensures 0 < x.Value() <= old(x.Value()) && y.Value() <= old(y.Value())
  {
    hide Leads;
    ghost var i, u, v := 0, x.Value(), y.Value();
    i := StripTwos(x);
    if u % 2 == 1 { OddBit(u, i); }
    LeadsHalved(u, v, g, a, b, i);
    LeadsSwap(x.Value(), v, g, a, b);
    OddResult(u, i);
    i := StripTwos(y);
    LeadsHalved(v, x.Value(), g, a, b, i);
    OddResult(v, i);
    LeadsSwap(y.Value(), x.Value(), g, a, b);
  }

  lemma OddResult(x: int, i: nat)
    requires LowestBit(x, i)
    ensures Shr(x, i) % 2 == 1
  {}

  // one round of the loop: the larger number is replaced by half the difference
  method Round(x: BigInteger, y: BigInteger, ghost g: nat, ghost a: int, ghost b: int)
    requires Running(x, y, g, a, b) && x.Value() > 0
    modifies x, y
    ensures Running(x, y, g, a, b) && x.Value() + y.Value() < old(x.Value() + y.Value())
  {
    hide Leads;
    hide Sum;
    hide Term;
    StripBoth(x, y, g, a, b);
    var c := x.CompareTo(y);
    if c >= 0 {
      SubtractHalve(x, y, g, a, b);
    } else {
      LeadsSwap(x.Value(), y.Value(), g, a, b);
      SubtractHalve(y, x, g, a, b);
      LeadsSwap(y.Value(), x.Value(), g, a, b);
    }
  }

  // the gcd of x and y, one of which is odd; both are used up
  method OddGcd(x: BigInteger, y: BigInteger, ghost g: nat, ghost a: int, ghost b: int)
    requires Running(x, y, g, a, b) && x.Value() > 0
    modifies x, y
    ensures y.Clamped() && IsGcd(y.Value() * P2(g), a, b)
  {
    hide IsGcd;
    hide P2;
    var sign := SigNum(x);
    while sign > 0
      invariant Running(x, y, g, a, b) && SameSign(sign, x.Value())
      decreases x.Value() + y.Value()
    {
      Round(x, y, g, a, b);
      sign := SigNum(x);
    }
    GcdZero(y.Value());
  }

  lemma OddBit(x: int, i: nat)
    requires LowestBit(x, i) && x % 2 == 1
    ensures i == 0
  {
    if i > 0 {
      P2Add(1, i - 1);
      assert P2(1) == 2;
      EvenFactor(P2(i), Shr(x, i));
      MulComm(P2(i), Shr(x, i));
    }
  }

  // y becomes the gcd of x and y, whose lowest bits are i and j
  method PositiveGcd(x: BigInteger, y: BigInteger, i: nat, j: nat, ghost a: int, ghost b: int)
    requires x != y && x.Clamped() && y.Clamped() && x.s == 0 && y.s == 0 && x.Value() > 0 && y.Value() > 0
    requires LowestBit(x.Value(), i) && LowestBit(y.Value(), j)
    requires (x.Value() == a && y.Value() == b) || (x.Value() == b && y.Value() == a)
    modifies x, y
    ensures y.Clamped() && IsGcd(y.Value(), a, b)
  {
    NoScale();
    hide P2;
    hide IsGcd;
    hide LowestBit;
    var g := j;
    if i < g { g := i; }
    CommonTwos(x.Value(), y.Value(), i, j, g, a, b);
    if g > 0 {
      RShiftTo(x, g, x);
      RShiftTo(y, g, y);
    }
    ClampedRange(x.words, x.t, x.s);
    ClampedRange(y.words, y.t, y.s);
    OddGcd(x, y, g, a, b);
    if g > 0 { LShiftTo(y, g, y); }
  }

  /** The greatest common divisor of |u| and |v|; neither is changed. */
  method Gcd(u: BigInteger, v: BigInteger) returns (r: BigInteger)
    requires u.Clamped() && v.Clamped()
    ensures fresh(r) && r.Clamped() && IsGcd(r.Value(), Abs(u.Value()), Abs(v.Value()))
  {
    hide IsGcd;
    hide LowestBit;
    var x := Magnitude(u);
    var y := Magnitude(v);
    ghost var a, b := x.Value(), y.Value();
    ClampedRange(x.words, x.t, x.s);
    ClampedRange(y.words, y.t, y.s);
    var c := x.CompareTo(y);
    if c < 0 {
      x, y := y, x;
    }
    var i := GetLowestSetBit(x);
    var g := GetLowestSetBit(y);
    if g < 0 {
      GcdZero(x.Value());
      return x;
    }
    PositiveGcd(x, y, i, g, a, b);
    return y;
  }

  lemma NoScale()
    ensures P2(0) == 1
  {}

  function Abs(x: int): int {
    if x < 0 then -x else x
  }
}
