/** The reducers that exponentiation works over (crypto.js:833-872, 901-966, 1452-1470, 1508-1562).
    A number v is represented modulo m by x = v * R mod m, where R is DV^(m.t) for Montgomery's
    reducer and 1 for the others; the null reducer leaves every number as it is. */
module Reducers {
  import opened Arith
  import opened Digits
  import opened BigIntegers
  import opened DivRem
  import M = Montgomery
  import B = Barrett

  // ---------- reducers ----------

  datatype Reducer =
    | Null
    | Classic(m: BigInteger)
    | Montgomery(m: BigInteger, mp: int)
    | Barrett(m: BigInteger, mu: BigInteger)

  /** The numbers a reducer refers to. */
  function Numbers(z: Reducer): set<BigInteger> {
    match z
    case Null => {}
    case Classic(m) => {m}
    case Montgomery(m, _) => {m}
    case Barrett(m, mu) => {m, mu}
  }

  predicate Apart(z: Reducer, r: BigInteger) {
    r !in Numbers(z)
  }

  ghost predicate Ready(z: Reducer)
    reads Numbers(z)
  {
    !z.Null? ==>
      && z.m.Clamped() && z.m.s == 0 && z.m.Value() > 0
      && (z.Montgomery? ==>
            z.m.t > 0 && z.m.words[0] % 2 == 1 && 0 <= z.mp < DV && Cong(z.m.words[0] * z.mp, -1, DV))
      && (z.Barrett? ==>
            z.m.t + 4 <= DV && z.mu.Clamped() && z.mu.s == 0 && z.mu.Value() == W(2 * z.m.t) / z.m.Value())
  }

  ghost function Radix(z: Reducer): int
    reads Numbers(z)
  {
    if z.Montgomery? then W(z.m.t) else 1
  }

  /** The numbers that one step of reduction can bring down to 0..m. */
  ghost predicate Reducible(z: Reducer, v: int)
    reads Numbers(z)
    requires Ready(z) && !z.Null?
  {
    && 0 <= v
    && (z.Montgomery? ==> v < z.m.Value() * Radix(z))
    && (z.Barrett? ==> v < W(2 * z.m.t))
  }

  /** x is the representation of v. */
  ghost predicate Rep(z: Reducer, x: int, v: int)
    requires Ready(z)
    reads Numbers(z)
  {
    if z.Null? then x == v else 0 <= x < z.m.Value() && Cong(x, v * Radix(z), z.m.Value())
  }

  /** r is what v comes down to: its residue in 0..m, or v itself without a modulus. */
  ghost predicate Denotes(z: Reducer, r: int, v: int)
    requires Ready(z)
    reads Numbers(z)
  {
    if z.Null? then r == v else 0 <= r < z.m.Value() && Cong(r, v, z.m.Value())
  }

  lemma {:induction false} PowOfDV(n: nat)
    ensures Pow(2, 28) == DV && W(n) == Pow(Pow(2, 28), n)
  {
    assert Pow(2, 7) == 128;
    PowAdd(2, 7, 7);
    PowAdd(2, 14, 14);
  }

  /** An odd modulus has an inverse of R. */
  lemma RadixInverse(m: int, n: nat) returns (inv: int)
    requires m > 0 && m % 2 == 1
    ensures Cong(W(n) * inv, 1, m)
  {
    var half := (m + 1) / 2;
    PowOfDV(n);
    CongIntro(2 * half, 1, m, 1);
    PowCong(2 * half, 1, 28, m);
    PowOfProduct(2, half, 28);
    PowOne(28);
    PowOne(n);
    var d := Pow(half, 28);
    inv := Pow(d, n);
    PowCong(DV * d, 1, n, m);
    PowOfProduct(DV, d, n);
  }

  lemma {:induction false} PowOne(n: nat)
    ensures Pow(1, n) == 1
    decreases n
  {
    if n > 0 { PowOne(n - 1); }
  }

  lemma Odd(m: BigInteger)
    requires m.Clamped() && m.s == 0 && m.t > 0
    ensures m.Value() % 2 == m.words[0] % 2
  {
    hide Term;
    hide Sum;
    TermSmall(m.t);
    SumLow(m.words, 0, m.t);
    AddedWords(m.words[0], Sum(m.words, 1, m.t - 1));
  }

  lemma AddedWords(d: int, H: int)
    ensures (d + DV * H) % 2 == d % 2
  {
    DivUnique(d + DV * H, 2, d / 2 + 0x800_0000 * H, d % 2);
  }

  lemma Cancel(a: int, b: int, R: int, inv: int, m: int)
    requires m > 0 && Cong(a * R, b * R, m) && Cong(R * inv, 1, m)
    ensures Cong(a, b, m)
  {
    CancelOne(a, R, inv, m);
    CancelOne(b, R, inv, m);
    CongIntro(inv, inv, m, 0);
    CongMul(a * R, b * R, inv, inv, m);
    CongSym(a * R * inv, a, m);
    CongTrans(a, a * R * inv, b * R * inv, m);
    CongTrans(a, b * R * inv, b, m);
  }

  lemma CancelOne(a: int, R: int, inv: int, m: int)
    requires m > 0 && Cong(R * inv, 1, m)
    ensures Cong(a * R * inv, a, m)
  {
    CongIntro(a, a, m, 0);
    CongMul(a, a, R * inv, 1, m);
    assert a * (R * inv) == a * R * inv;
  }

  lemma CancelRadix(z: Reducer, a: int, b: int)
    requires Ready(z) && !z.Null? && Cong(a * Radix(z), b * Radix(z), z.m.Value())
    ensures Cong(a, b, z.m.Value())
  {
    if z.Montgomery? {
      Odd(z.m);
      var inv := RadixInverse(z.m.Value(), z.m.t);
      Cancel(a, b, W(z.m.t), inv, z.m.Value());
    }
  }

  method NewMontgomery(m: BigInteger) returns (z: Reducer)
    requires m.Clamped() && m.s == 0 && m.t > 0 && m.words[0] % 2 == 1
    ensures z.Montgomery? && z.m == m && Ready(z)
  {
    ClampedRange(m.words, m.t, m.s);
    WeightPositive(m.t - 1);
    var mp := M.InvDigit(m);
    z := Montgomery(m, mp);
  }

  // mu = DV^(2 * m.t) / m
  method NewBarrett(m: BigInteger) returns (z: Reducer)
    requires m.Clamped() && m.s == 0 && m.Value() > 0 && m.t + 4 <= DV
    ensures z.Barrett? && z.m == m && fresh(z.mu) && Ready(z)
  {
    var r2 := new BigInteger();
    var one := One();
    one.DLShiftTo(2 * m.t, r2);
    var mu := Divide(r2, m);
    WeightPositive(2 * m.t);
    ReciprocalPositive(W(2 * m.t), m.Value());
    ClampedRange(mu.words, mu.t, mu.s);
    z := Barrett(m, mu);
  }

  lemma ReciprocalPositive(w: int, m: int)
    requires w > 0 && m > 0
    ensures JsQuot(w, m) == w / m >= 0
  {
    if w / m < 0 { MulMono(w / m, -1, m); }
  }

  method One() returns (r: BigInteger)
    ensures fresh(r) && r.Clamped() && r.Value() == 1 && r.t > 0
  {
    r := new BigInteger();
    r.words, r.t, r.s := [1], 1, 0;
    TermSmall(0);
    TermSmall(1);
    assert Sum([1], 0, 1) == Sum([1], 0, 0) + Term(1, 0);
  }

  /** x = x/R mod m, in 0..m. */
  method ReduceBy(z: Reducer, x: BigInteger)
    requires Ready(z) && !z.Null? && Apart(z, x) && x.Clamped() && Reducible(z, x.Value())
    modifies x
    ensures x.Clamped() && 0 <= x.Value() < z.m.Value()
    ensures Cong(x.Value() * Radix(z), old(x.Value()), z.m.Value())
  {
    match z
    case Classic(m) =>
      var q := DivRemTo(x, m, x);
    case Montgomery(m, mp) =>
      M.Reduce(x, m, mp);
    case Barrett(m, mu) =>
      B.Reduce(x, m, mu);
  }

  method Convert(z: Reducer, x: BigInteger) returns (r: BigInteger)
    requires Ready(z) && x.Clamped()
    ensures (r == x || fresh(r)) && r.Clamped() && Rep(z, r.Value(), x.Value())
  {
    match z
    case Null =>
      r := x;
    case Classic(m) =>
      r := ConvertClassic(x, m);
    case Montgomery(m, mp) =>
      r := ConvertMontgomery(x, m);
    case Barrett(m, mu) =>
      r := ConvertBarrett(x, m, mu);
  }

  method ConvertClassic(x: BigInteger, m: BigInteger) returns (r: BigInteger)
    requires x.Clamped() && m.Clamped() && m.s == 0 && m.Value() > 0
    ensures r == x || fresh(r)
    ensures r.Clamped() && 0 <= r.Value() < m.Value() && Cong(r.Value(), x.Value(), m.Value())
  {
    ClampedRange(x.words, x.t, x.s);
    CongIntro(x.Value(), x.Value(), m.Value(), 0);
    var c := x.CompareTo(m);
    if x.s < 0 || c >= 0 {
      r := Mod(x, m);
    } else {
      r := x;
    }
  }

  // x * DV^(m.t) mod m
  method ConvertMontgomery(x: BigInteger, m: BigInteger) returns (r: BigInteger)
    requires x.Clamped() && m.Clamped() && m.s == 0 && m.Value() > 0
    ensures fresh(r) && r.Clamped() && 0 <= r.Value() < m.Value()
    ensures Cong(r.Value(), x.Value() * W(m.t), m.Value())
  {
    var zero := new BigInteger();
    ClampedRange(x.words, x.t, x.s);
    r := new BigInteger();
    var y := x.Abs();
    y.DLShiftTo(m.t, r);
    WeightPositive(m.t);
    MulMono(0, y.Value(), W(m.t));
    ghost var u := r.Value();
    var q := DivRemTo(r, m, r);
    ghost var rem := r.Value();
    ClampedRange(r.words, r.t, r.s);
    var c := r.CompareTo(zero);
    if x.s < 0 && c > 0 {
      m.SubTo(r, r);
    }
    NegatedProduct(x.Value(), W(m.t), y.Value());
    ModFacts(x.Value() * W(m.t), u, rem, r.Value(), m.Value());
  }

  method ConvertBarrett(x: BigInteger, m: BigInteger, mu: BigInteger) returns (r: BigInteger)
    requires x.Clamped() && m.Clamped() && m.s == 0 && m.Value() > 0 && m.t + 4 <= DV
    requires mu.Clamped() && mu.s == 0 && mu.Value() == W(2 * m.t) / m.Value()
    ensures r == x || fresh(r)
    ensures r.Clamped() && 0 <= r.Value() < m.Value() && Cong(r.Value(), x.Value(), m.Value())
  {
    hide W;
    hide Term;
    hide Sum;
    ClampedRange(x.words, x.t, x.s);
    if x.s < 0 || x.t > 2 * m.t {
      r := Mod(x, m);
      return;
    }
    CongIntro(x.Value(), x.Value(), m.Value(), 0);
    var c := x.CompareTo(m);
    if c < 0 {
      r := x;
    } else {
      r := new BigInteger();
      x.CopyTo(r);
      PowMonotone(DV, x.t, 2 * m.t);
      assert W(x.t) <= W(2 * m.t) by { B.WeightMonotoneTo(x.t, 2 * m.t); }
      B.Reduce(r, m, mu);
    }
  }

  lemma NegatedProduct(v: int, w: int, y: int)
    requires w > 0 && y == if v < 0 then -v else v
    ensures y * w == (if v * w < 0 then -(v * w) else v * w) && (v * w < 0 <==> v < 0)
  {
    if v < 0 { MulMono(v, -1, w); assert (-v) * w == -(v * w); } else { MulMono(0, v, w); }
  }

  /** The number that x represents. */
  method Revert(z: Reducer, x: BigInteger, ghost v: int) returns (r: BigInteger)
    requires Ready(z) && x.Clamped() && Rep(z, x.Value(), v) && Apart(z, x)
    ensures r.Clamped() && Denotes(z, r.Value(), v)
  {
    if !z.Montgomery? {
      r := x;
    } else {
      r := new BigInteger();
      x.CopyTo(r);
      WeightPositive(z.m.t);
      MulMono(1, W(z.m.t), z.m.Value());
      ReduceBy(z, r);
      CongTrans(r.Value() * Radix(z), x.Value(), v * Radix(z), z.m.Value());
      CancelRadix(z, r.Value(), v);
    }
  }

  /** r = the representation of the product of what x and y represent. */
  method MulTo(z: Reducer, x: BigInteger, y: BigInteger, r: BigInteger, ghost u: int, ghost v: int)
    requires Ready(z) && x.Clamped() && y.Clamped() && r != x && r != y && Apart(z, r)
    requires Rep(z, x.Value(), u) && Rep(z, y.Value(), v)
    modifies r
    ensures r.Clamped() && Rep(z, r.Value(), u * v)
  {
    if z.Null? {
      x.MultiplyTo(y, r);
    } else {
      ProductFits(z, x.Value(), y.Value());
      x.MultiplyTo(y, r);
      ReduceBy(z, r);
      ProductRep(z, r.Value(), x.Value(), y.Value(), u, v);
    }
  }

  method SqrTo(z: Reducer, x: BigInteger, r: BigInteger, ghost u: int)
    requires Ready(z) && x.Clamped() && r != x && Apart(z, r) && Rep(z, x.Value(), u)
    modifies r
    ensures r.Clamped() && Rep(z, r.Value(), u * u)
  {
    if z.Null? {
      x.SquareTo(r);
    } else {
      ProductFits(z, x.Value(), x.Value());
      x.SquareTo(r);
      ReduceBy(z, r);
      ProductRep(z, r.Value(), x.Value(), x.Value(), u, u);
    }
  }

  lemma ProductFits(z: Reducer, x: int, y: int)
    requires Ready(z) && !z.Null? && 0 <= x < z.m.Value() && 0 <= y < z.m.Value()
    ensures Reducible(z, x * y)
  {
    var m, w := z.m.Value(), W(z.m.t);
    ClampedRange(z.m.words, z.m.t, z.m.s);
    WeightAdd(z.m.t, z.m.t);
    assert z.m.t + z.m.t == 2 * z.m.t;
    hide W;
    ProductBound(x, m, y, m);
    ProductGap(m, m);
    MulMono(m, w, m);
    MulComm(m, w);
    MulMono(m, w, w);
  }

  lemma ProductRep(z: Reducer, r: int, x: int, y: int, u: int, v: int)
    requires Ready(z) && !z.Null? && Rep(z, x, u) && Rep(z, y, v)
    requires 0 <= r < z.m.Value() && Cong(r * Radix(z), x * y, z.m.Value())
    ensures Rep(z, r, u * v)
  {
    var m, R := z.m.Value(), Radix(z);
    CongMul(x, u * R, y, v * R, m);
    CongTrans(r * R, x * y, (u * R) * (v * R), m);
    Regroup(u, R, v, R);
    assert (u * R) * (v * R) == (u * v * R) * R by { assert (u * v) * (R * R) == (u * v * R) * R; }
    CancelRadix(z, r, u * v * R);
  }
}
