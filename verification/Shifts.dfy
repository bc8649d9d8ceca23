/** Shifts by any number of bits (crypto.js:659-699). The result may overwrite the operand.

    An or of two words without common bits is written as their sum. */
module Shifts {
  import opened Arith
  import opened Digits
  import opened Bits
  import opened BigIntegers

  /** The i-th of t words, followed by sign words. */
  function WordOr(w: seq<int>, t: nat, s: int, i: nat): int
    requires t <= |w|
  {
    if i < t then w[i] else s
  }

  /** Word i of x shifted left: the high bits of word i - 1 below the low bits of word i. */
  ghost predicate LeftWord(w: seq<int>, t: nat, s: int, p: int, q: int, i: nat, v: int)
    requires t <= |w| && p > 0
  {
    v == (if i == 0 then 0 else WordOr(w, t, s, i - 1) / p) + WordOr(w, t, s, i) % p * q
  }

  /** Words d + lo .. d + t of r hold those of the shifted number. */
  ghost predicate LeftWords(w: seq<int>, t: nat, s: int, p: int, q: int, d: nat, lo: nat, r: seq<int>)
    requires t <= |w| && p > 0
  {
    d + t + 1 <= |r| && forall k | d + lo <= k <= d + t :: LeftWord(w, t, s, p, q, k - d, r[k])
  }

  /** Word i of x shifted right: the high bits of word i below the low bits of word i + 1. */
  ghost predicate RightWord(w: seq<int>, t: nat, s: int, p: int, q: int, i: nat, v: int)
    requires t <= |w| && q > 0
  {
    v == WordOr(w, t, s, i) / q + WordOr(w, t, s, i + 1) % q * p
  }

  /** The k lowest words of o are those of the number shifted right. */
  ghost predicate RightWords(w: seq<int>, t: nat, s: int, p: int, q: int, k: nat, o: seq<int>)
    requires t <= |w| && q > 0
  {
    k <= |o| && forall i | 0 <= i < k :: RightWord(w, t, s, p, q, i, o[i])
  }

  /** The bits of one word of a shifted number do not overlap and fill at most one word. */
  lemma JoinBound(a: int, b: int, p: int, q: int)
    requires p > 0 && q > 0 && p * q == DV && 0 <= a < DV
    ensures 0 <= a / p < q && 0 <= b % p * q && 0 <= a / p + b % p * q < DV
  {
    var h := a / p;
    MulComm(p, q);
    assert a == h * p + a % p;
    if h >= q { MulMono(q, h, p); }
    if h < 0 { MulMono(h, -1, p); }
    MulMono(b % p, p - 1, q);
    MulMono(0, b % p, q);
    assert (p - 1) * q == DV - q;
  }

  lemma LeftAlgebra(S: int, a: int, b: int, p: int, q: int, k: nat)
    requires p > 0 && p * q == DV
    ensures q * S + Term(a % p * q, k) + Term(a / p + b % p * q, k + 1) == q * (S + Term(a, k)) + Term(b % p * q, k + 1)
  {
    var h, low := a / p, a % p;
    TermAdd(h, b % p * q, k + 1);
    TermUp(h, k);
    assert q * a == h * DV + low * q by {
      assert q * (h * p + low) == h * (p * q) + low * q;
    }
    TermMul(q, a, k);
    TermAdd(h * DV, low * q, k);
    hide Term;
    assert q * (S + Term(a, k)) == q * S + q * Term(a, k);
  }

  lemma {:induction false} LeftSum(w: seq<int>, t: nat, s: int, o: seq<int>, p: int, q: int, k: nat)
    requires p > 0 && p * q == DV && k <= t <= |w| && k + 1 <= |o|
    requires forall i | 0 <= i <= k :: LeftWord(w, t, s, p, q, i, o[i])
    ensures Sum(o, 0, k + 1) == q * Sum(w, 0, k) + Term(WordOr(w, t, s, k) % p * q, k)
    decreases k
  {
    hide Term;
    assert LeftWord(w, t, s, p, q, k, o[k]);
    if k > 0 {
      LeftSum(w, t, s, o, p, q, k - 1);
      LeftAlgebra(Sum(w, 0, k - 1), w[k - 1], WordOr(w, t, s, k), p, q, k - 1);
      assert Sum(w, 0, k) == Sum(w, 0, k - 1) + Term(w[k - 1], k - 1);
    }
  }

  lemma LeftTop(s: int, p: int, q: int, k: nat)
    requires (s == 0 || s == -1) && p > 0 && p * q == DV
    ensures Term(s % p * q, k) + Term(s, k + 1) == q * Term(s, k)
  {
    TermUp(s, k);
    TermMul(q, s, k);
    TermAdd(s % p * q, s * DV, k);
    assert s % p == (if s == 0 then 0 else p - 1) by {
      if s == -1 { DivUnique(-1, p, -1, p - 1); }
    }
    assert (p - 1) * q == p * q - q;
    hide Term;
  }

  lemma LeftAll(w: seq<int>, t: nat, s: int, o: seq<int>, p: int, q: int)
    requires p > 0 && p * q == DV && t <= |w| && t + 1 <= |o| && (s == 0 || s == -1)
    requires forall i | 0 <= i <= t :: LeftWord(w, t, s, p, q, i, o[i])
    ensures Signed(o, t + 1, s) == Signed(w, t, s) * q
  {
    hide Term;
    LeftSum(w, t, s, o, p, q, t);
    LeftTop(s, p, q, t);
    assert (Sum(w, 0, t) + Term(s, t)) * q == q * Sum(w, 0, t) + q * Term(s, t);
  }

  /** The words of a left shift by d words and b bits. */
  lemma LeftValue(w: seq<int>, t: nat, s: int, d: nat, b: nat, r: seq<int>)
    requires t <= |w| && (s == 0 || s == -1) && b < DB
    requires P2(DB - b) > 0 && LeftWords(w, t, s, P2(DB - b), P2(b), d, 0, r)
    requires forall i | 0 <= i < d :: r[i] == 0
    ensures Signed(r, d + t + 1, s) == Signed(w, t, s) * P2(DB * d + b)
  {
    var p, q, o := P2(DB - b), P2(b), r[d..];
    P2Add(DB - b, b);
    P2Word();
    hide P2;
    hide Pow;
    hide Sum;
    hide Term;
    forall i | 0 <= i <= t ensures LeftWord(w, t, s, p, q, i, o[i]) {
      assert LeftWord(w, t, s, p, q, (d + i) - d, r[d + i]);
    }
    LeftAll(w, t, s, o, p, q);
    ShiftUp(o, t + 1, s, d, r);
    WeightIsPower(d);
    P2Add(b, DB * d);
    hide Signed;
    MulAssoc(Signed(w, t, s), q, P2(DB * d));
  }

  lemma MulAssoc(a: int, b: int, c: int)
    ensures a * b * c == a * (b * c)
  {}

  lemma RightAlgebra(S: int, T: int, low: int, a: int, b: int, p: int, q: int, k: nat)
    requires q > 0 && p * q == DV && q * S + low == T + Term(a % q, k)
    ensures q * (S + Term(a / q + b % q * p, k)) + low == T + Term(a, k) + Term(b % q, k + 1)
  {
    var h, v := a / q, b % q;
    assert q * (h + v * p) == (a - a % q) + v * DV by {
      assert q * (h + v * p) == h * q + v * (p * q);
    }
    TermMul(q, h + v * p, k);
    TermAdd(a - a % q, v * DV, k);
    TermAdd(a, a % q, k);
    TermUp(v, k);
    hide Term;
    assert q * (S + Term(h + v * p, k)) == q * S + q * Term(h + v * p, k);
  }

  lemma {:induction false} RightSum(w: seq<int>, t: nat, s: int, o: seq<int>, p: int, q: int, k: nat)
    requires q > 0 && p * q == DV && k <= t <= |w| && RightWords(w, t, s, p, q, k, o)
    ensures q * Sum(o, 0, k) + WordOr(w, t, s, 0) % q == Sum(w, 0, k) + Term(WordOr(w, t, s, k) % q, k)
    decreases k
  {
    TermZero(WordOr(w, t, s, 0) % q);
    hide Term;
    if k > 0 {
      RightSum(w, t, s, o, p, q, k - 1);
      assert RightWord(w, t, s, p, q, k - 1, o[k - 1]);
      RightAlgebra(Sum(o, 0, k - 1), Sum(w, 0, k - 1), WordOr(w, t, s, 0) % q, w[k - 1], WordOr(w, t, s, k), p, q, k - 1);
    }
  }

  lemma SignBits(s: int, q: int, t: nat)
    requires (s == 0 || s == -1) && q > 0
    ensures Term(s % q, t) == Term(s, t) - q * Term(s, t)
  {
    assert s % q == s - q * s by {
      if s == -1 { DivUnique(-1, q, -1, q - 1); }
    }
    TermMul(q, s, t);
    TermAdd(s, q * s, t);
  }

  lemma RightAll(w: seq<int>, t: nat, s: int, o: seq<int>, p: int, b: nat)
    requires P2(b) > 0 && p * P2(b) == DV && t <= |w| && (s == 0 || s == -1)
    requires RightWords(w, t, s, p, P2(b), t, o)
    ensures Signed(o, t, s) == Shr(Signed(w, t, s), b)
  {
    hide P2;
    hide Pow;
    hide Term;
    var q := P2(b);
    RightSum(w, t, s, o, p, q, t);
    SignBits(s, q, t);
    assert Signed(o, t, s) * q == q * Sum(o, 0, t) + q * Term(s, t);
    ShrUnique(Signed(w, t, s), b, Signed(o, t, s), WordOr(w, t, s, 0) % q);
  }

  /** The words above the d lowest. */
  lemma DropLow(w: seq<int>, t: nat, s: int, d: nat)
    requires AreDigits(w, 0, t) && (s == 0 || s == -1)
    ensures Shr(Signed(w, t, s), DB * d) == if d <= t then Signed(w[d..], t - d, s) else s
  {
    hide Term;
    hide Pow;
    ShiftDown(w, t, s, d, if d <= t then w[d..] else []);
    WeightIsPower(d);
    TermZero(s);
  }

  /** The words of a right shift by d words and b bits. */
  lemma RightValue(w: seq<int>, t: nat, s: int, d: nat, b: nat, o: seq<int>)
    requires AreDigits(w, 0, t) && (s == 0 || s == -1) && b < DB && d < t
    requires P2(b) > 0 && RightWords(w[d..], t - d, s, P2(DB - b), P2(b), t - d, o)
    ensures Signed(o, t - d, s) == Shr(Signed(w, t, s), DB * d + b)
  {
    P2Add(DB - b, b);
    P2Word();
    hide P2;
    hide Shr;
    hide Signed;
    DropLow(w, t, s, d);
    RightAll(w[d..], t - d, s, o, P2(DB - b), b);
    ShrShr(Signed(w, t, s), DB * d, b);
  }

  /** Shifting out every word leaves the sign. */
  lemma RightOver(w: seq<int>, t: nat, s: int, d: nat, b: nat)
    requires AreDigits(w, 0, t) && (s == 0 || s == -1) && t <= d
    ensures Shr(Signed(w, t, s), DB * d + b) == s
  {
    DropLow(w, t, s, d);
    TermZero(s);
    P2Positive(b);
    hide P2;
    hide Term;
    assert d == t ==> Signed(w[d..], 0, s) == s;
    hide Signed;
    ShrShr(Signed(w, t, s), DB * d, b);
    if s == 0 { ShrUnique(0, b, 0, 0); } else { ShrUnique(-1, b, -1, P2(b) - 1); }
  }

  // r = x << n
  method LShiftTo(x: BigInteger, n: nat, r: BigInteger)
    requires x.Valid()
    modifies r
    ensures r.Clamped() && r.Value() == old(x.Value()) * P2(n)
  {
    hide P2;
    hide Term;
    hide Pow;
    hide Sum;
    hide LeftWord;
    P2Positive(n % DB);
    P2Positive(DB - n % DB);
    P2Add(DB - n % DB, n % DB);
    P2Word();
    ghost var w, t, s := x.words, x.t, x.s;
    var bs, ds := n % DB, n / DB;
    LeftWordsOf(x, ds, P2(DB - bs), P2(bs), r);
    LeftDigits(w, t, s, P2(DB - bs), P2(bs), ds, r.words);
    LeftValue(w, t, s, ds, bs, r.words);
    r.t := x.t + ds + 1;
    r.s := x.s;
    r.Clamp();
  }

  // r.words = the words of x << (ds * DB + bs); the length of r is still to be set
  method LeftWordsOf(x: BigInteger, ds: nat, p: int, q: int, r: BigInteger)
    requires x.Valid() && p > 0 && q > 0 && p * q == DV
    modifies r`words
    ensures LeftWords(old(x.words), x.t, x.s, p, q, ds, 0, r.words) && forall i | 0 <= i < ds :: r.words[i] == 0
  {
    hide LeftWord;
    ghost var w, t := x.words, x.t;
    var c := x.s * q % DV;
    LeftCarry(x.s, p, q);
    var i: int := x.t - 1;
    while i >= 0
      invariant -1 <= i < t <= |x.words|
      invariant forall k | 0 <= k <= i :: x.words[k] == w[k]
      invariant c == WordOr(w, t, x.s, i + 1) % p * q
      invariant i + 1 < t ==> LeftWords(w, t, x.s, p, q, ds, i + 2, r.words)
    {
      LeftPut(r.words, w, t, x.s, p, q, ds, i, c);
      r.words := Put(r.words, i + ds + 1, x.words[i] / p + c);
      c := x.words[i] % p * q;
      i := i - 1;
    }
    Low(r, ds, w, t, x.s, p, q, c);
  }

  // the zero words at the bottom, and the word above them
  method Low(r: BigInteger, ds: nat, ghost w: seq<int>, ghost t: nat, ghost s: int, ghost p: int, ghost q: int, c: int)
    requires t <= |w| && p > 0 && c == WordOr(w, t, s, 0) % p * q && (t > 0 ==> LeftWords(w, t, s, p, q, ds, 1, r.words))
    modifies r`words
    ensures LeftWords(w, t, s, p, q, ds, 0, r.words) && forall i | 0 <= i < ds :: r.words[i] == 0
  {
    r.ZeroWords(ds);
    r.words := Put(r.words, ds, c);
    assert LeftWord(w, t, s, p, q, 0, r.words[ds]);
  }

  lemma LeftCarry(s: int, p: int, q: int)
    requires (s == 0 || s == -1) && p > 0 && q > 0 && p * q == DV
    ensures s * q % DV == s % p * q
  {
    MulMono(1, p, q);
    if s == -1 {
      DivUnique(-1, p, -1, p - 1);
      DivUnique(-q, DV, -1, DV - q);
      assert (p - 1) * q == p * q - q;
    }
  }

  lemma LeftPut(r: seq<int>, w: seq<int>, t: nat, s: int, p: int, q: int, d: nat, i: nat, c: int)
    requires i < t <= |w| && p > 0 && c == WordOr(w, t, s, i + 1) % p * q
    requires i < t - 1 ==> LeftWords(w, t, s, p, q, d, i + 2, r)
    ensures LeftWords(w, t, s, p, q, d, i + 1, Put(r, i + d + 1, w[i] / p + c))
  {
    var r' := Put(r, i + d + 1, w[i] / p + c);
    assert LeftWord(w, t, s, p, q, i + 1, r'[d + i + 1]);
    forall k | d + i + 1 < k <= d + t ensures LeftWord(w, t, s, p, q, k - d, r'[k]) {
      assert r'[k] == r[k];
    }
  }

  lemma LeftDigits(w: seq<int>, t: nat, s: int, p: int, q: int, d: nat, r: seq<int>)
    requires AreDigits(w, 0, t) && p > 0 && q > 0 && p * q == DV && LeftWords(w, t, s, p, q, d, 0, r)
    requires forall i | 0 <= i < d :: r[i] == 0
    ensures AreDigits(r, 0, d + t + 1)
  {
    forall i | d <= i < d + t + 1 ensures 0 <= r[i] < DV {
      var k := i - d;
      assert LeftWord(w, t, s, p, q, k, r[i]);
      JoinBound(if k == 0 then 0 else w[k - 1], WordOr(w, t, s, k), p, q);
      if k == 0 { DivUnique(0, p, 0, 0); }
    }
  }

  // r = x >> n, rounded down
  method RShiftTo(x: BigInteger, n: nat, r: BigInteger)
    requires x.Valid()
    modifies r
    ensures r.Clamped() && r.Value() == Shr(old(x.Value()), n)
  {
    hide P2;
    hide Term;
    hide Pow;
    hide Sum;
    hide RightWord;
    hide Shr;
    ghost var w, t, s := x.words, x.t, x.s;
    r.s := x.s;
    var ds := n / DB;
    if ds >= x.t {
      RightOver(w, t, s, ds, n % DB);
      SignOnly(r.words, s);
      r.t := 0;
      return;
    }
    var bs := n % DB;
    P2Positive(bs);
    P2Positive(DB - bs);
    P2Add(DB - bs, bs);
    P2Word();
    RightWordsOf(x, ds, P2(DB - bs), P2(bs), bs, r);
    RightDigits(w[ds..], t - ds, s, P2(DB - bs), P2(bs), r.words);
    RightValue(w, t, s, ds, bs, r.words);
    r.t := x.t - ds;
    r.Clamp();
  }

  // r.words = the words of x >> (ds * DB + bs); the length of r is still to be set
  method RightWordsOf(x: BigInteger, ds: nat, p: int, q: int, bs: nat, r: BigInteger)
    requires x.Valid() && ds < x.t && q > 0 && q == P2(bs)
    modifies r`words
    ensures RightWords(old(x.words)[ds..], x.t - ds, x.s, p, q, x.t - ds, r.words)
  {
    hide P2;
    hide RightWord;
    ghost var w, v, m := x.words, x.words[ds..], x.t - ds;
    r.words := Put(r.words, 0, x.words[ds] / q);
    var i := ds + 1;
    while i < x.t
      invariant ds + 1 <= i <= x.t <= |x.words|
      invariant forall k | i <= k < x.t :: x.words[k] == w[k]
      invariant |r.words| >= i - ds && RightWords(v, m, x.s, p, q, i - ds - 1, r.words) && r.words[i - ds - 1] == v[i - ds - 1] / q
    {
      r.words := JoinNext(r.words, i - ds - 1, x.words[i], p, q, v, m, x.s);
      r.words := Put(r.words, i - ds, x.words[i] / q);
      i := i + 1;
    }
    if bs > 0 {
      r.words := JoinNext(r.words, x.t - ds - 1, x.s, p, q, v, m, x.s);
    } else {
      NoBits(v, m, x.s, p, q, r.words);
    }
  }

  /** r[j] |= (d & bm) << cbs, where d is the next word of x or its sign */
  function JoinNext(r: seq<int>, j: nat, d: int, p: int, q: int, ghost v: seq<int>, ghost t: nat, ghost s: int): (r': seq<int>)
    requires q > 0 && t <= |v| && j < |r| && j < t && RightWords(v, t, s, p, q, j, r) && r[j] == v[j] / q && d == WordOr(v, t, s, j + 1)
    ensures RightWords(v, t, s, p, q, j + 1, r')
  {
    r[j := r[j] + d % q * p]
  }

  lemma SignOnly(w: seq<int>, s: int)
    ensures Signed(w, 0, s) == s
  {
    TermZero(s);
  }

  lemma NoBits(w: seq<int>, t: nat, s: int, p: int, q: int, r: seq<int>)
    requires q == P2(0) && 0 < t <= |w| && t <= |r| && RightWords(w, t, s, p, q, t - 1, r) && r[t - 1] == w[t - 1] / q
    ensures RightWords(w, t, s, p, q, t, r)
  {
    assert s % 1 == 0 && 0 * p == 0;
    assert RightWord(w, t, s, p, q, t - 1, r[t - 1]);
  }

  lemma RightDigits(w: seq<int>, t: nat, s: int, p: int, q: int, r: seq<int>)
    requires AreDigits(w, 0, t) && p > 0 && q > 0 && p * q == DV && RightWords(w, t, s, p, q, t, r)
    ensures AreDigits(r, 0, t)
  {
    assert q * p == DV;
    forall k | 0 <= k < t ensures 0 <= r[k] < DV {
      assert RightWord(w, t, s, p, q, k, r[k]);
      JoinBound(w[k], WordOr(w, t, s, k + 1), q, p);
    }
  }
}
