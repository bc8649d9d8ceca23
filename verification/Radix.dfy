/** Printing and reading numbers in radix 2, 4, 8, 16 and 32 (crypto.js:449-466, 496-578).

    Digits of 3 and 5 bits do not divide a word of 28: some of them lie across two words. */
module Radix {
  import opened Arith
  import opened Digits
  import opened Bits
  import opened BigIntegers

  /** The value of a character as a digit, or -1. */
  function IntAt(c: char): int {
    if '0' <= c <= '9' then c as int - '0' as int
    else if 'a' <= c <= 'z' then 10 + (c as int - 'a' as int)
    else if 'A' <= c <= 'Z' then 10 + (c as int - 'A' as int)
    else -1
  }

  /** The n-th of 0 .. 9, a .. z. */
  function Int2Char(n: int): (c: char)
    requires 0 <= n < 36
    ensures IntAt(c) == n && (n > 0 ==> c != '0')
  {
    if n < 10 then ('0' as int + n) as char else ('a' as int + (n - 10)) as char
  }

  /** v in radix b, without leading zeros. */
  function Numeral(v: int, b: int): string
    requires v >= 0 && 2 <= b <= 32
    decreases v
  {
    if v < b then [Int2Char(v)] else Numeral(v / b, b) + [Int2Char(v % b)]
  }

  function Show(v: int, b: int): string
    requires 2 <= b <= 32
  {
    if v < 0 then "-" + Numeral(-v, b) else Numeral(v, b)
  }

  /** How many characters of s are digits. */
  function Count(s: string): nat {
    if s == "" then 0 else (if IntAt(s[0]) < 0 then 0 else 1) + Count(s[1..])
  }

  /** The number its digits denote; other characters are skipped. */
  function Unsigned(s: string, b: int): int {
    if s == "" then 0
    else (if IntAt(s[0]) < 0 then 0 else IntAt(s[0]) * Pow(b, Count(s[1..]))) + Unsigned(s[1..], b)
  }

  /** A minus sign stands before the first digit. */
  function Minus(s: string): bool {
    s != "" && IntAt(s[0]) < 0 && (s[0] == '-' || Minus(s[1..]))
  }

  function Read(s: string, b: int): int {
    if Minus(s) then -Unsigned(s, b) else Unsigned(s, b)
  }

  lemma {:induction false} UnsignedAppend(s: string, c: char, b: int)
    requires IntAt(c) >= 0
    ensures Count(s + [c]) == Count(s) + 1
    ensures Unsigned(s + [c], b) == Unsigned(s, b) * b + IntAt(c)
    ensures Minus(s + [c]) == Minus(s)
    decreases |s|
  {
    hide IntAt;
    if s == "" {
      assert s + [c] == [c] && [c][1..] == "";
      assert Pow(b, 0) == 1;
    } else {
      assert (s + [c])[1..] == s[1..] + [c] && (s + [c])[0] == s[0];
      UnsignedAppend(s[1..], c, b);
      AppendAlgebra(IntAt(s[0]), b, Count(s[1..]), Unsigned(s[1..], b), IntAt(c));
    }
  }

  lemma AppendAlgebra(x: int, b: int, n: nat, u: int, d: int)
    ensures x * Pow(b, n + 1) + (u * b + d) == (x * Pow(b, n) + u) * b + d
  {
    assert Pow(b, n + 1) == b * Pow(b, n);
    assert x * (b * Pow(b, n)) == x * Pow(b, n) * b;
  }

  lemma {:induction false} NumeralReads(v: int, b: int)
    requires v >= 0 && 2 <= b <= 32
    ensures Unsigned(Numeral(v, b), b) == v && !Minus(Numeral(v, b))
    decreases v
  {
    hide IntAt;
    hide Int2Char;
    hide Unsigned;
    hide Minus;
    assert Unsigned("", b) == 0 && !Minus("") by { EmptyReads(b); }
    if v < b {
      UnsignedAppend("", Int2Char(v), b);
      assert "" + [Int2Char(v)] == [Int2Char(v)];
    } else {
      QuotientSmaller(v, b);
      NumeralReads(v / b, b);
      UnsignedAppend(Numeral(v / b, b), Int2Char(v % b), b);
    }
  }

  lemma QuotientSmaller(v: int, b: int)
    requires 2 <= b <= v
    ensures 0 <= v / b < v && v / b * b + v % b == v && 0 <= v % b < b
  {}

  lemma EmptyReads(b: int)
    ensures Unsigned("", b) == 0 && !Minus("")
  {}

  /** Reading what is shown gives the number back. */
  lemma ReadShow(v: int, b: int)
    requires 2 <= b <= 32
    ensures Read(Show(v, b), b) == v
  {
    hide Numeral;
    hide Unsigned;
    NumeralReads(if v < 0 then -v else v, b);
    if v < 0 {
      MinusSign(Numeral(-v, b), b);
    }
  }

  lemma MinusSign(s: string, b: int)
    ensures Unsigned("-" + s, b) == Unsigned(s, b) && Minus("-" + s)
  {
    assert ("-" + s)[1..] == s;
  }

  /** What is shown is made of digits of the radix. */
  lemma {:induction false} NumeralDigits(v: int, b: int)
    requires v >= 0 && 2 <= b <= 32
    ensures forall i | 0 <= i < |Numeral(v, b)| :: 0 <= IntAt(Numeral(v, b)[i]) < b
    ensures |Numeral(v, b)| > 0 && (v > 0 ==> Numeral(v, b)[0] != '0')
    decreases v
  {
    hide Int2Char;
    hide IntAt;
    if v >= b {
      NumeralDigits(v / b, b);
    } else {
    }
  }

  lemma NumeralStep(v: int, d: int, b: int)
    requires v >= 0 && 2 <= b <= 32 && 0 <= d < b
    ensures v * b + d >= 0 && Numeral(v * b + d, b) == (if v == 0 then "" else Numeral(v, b)) + [Int2Char(d)]
  {
    hide Int2Char;
    MulMono(0, v, b);
    DivUnique(v * b + d, b, v, d);
    if v > 0 { MulMono(1, v, b); }
  }

  /** The number of bits in a digit. */
  predicate DigitBits(b: int, k: nat) {
    (b == 2 && k == 1) || (b == 4 && k == 2) || (b == 8 && k == 3) || (b == 16 && k == 4) || (b == 32 && k == 5)
  }

  lemma RadixPower(b: int, k: nat)
    requires DigitBits(b, k)
    ensures b == P2(k)
  {
    assert P2(1) == 2 && P2(2) == 4 && P2(3) == 8;
  }

  // ---- printing ----

  /** The digit below bit 28 * i + p, all of it in word i. */
  lemma DigitInside(w: seq<int>, t: nat, i: nat, p: nat, k: nat)
    requires AreDigits(w, 0, t) && i < t && k <= p <= DB && k > 0
    ensures P2(p - k) > 0 && P2(k) > 0
    ensures Shr(Sum(w, 0, t), DB * i + p - k) % P2(k) == w[i] / P2(p - k) % P2(k)
  {
    hide Sum;
    hide P2;
    BitsInside(w, t, i, p - k, k);
    assert DB * i + p - k == DB * i + (p - k);
  }

  /** The digit below bit 28 * i + p, its upper p bits in word i, the others in word i - 1. */
  lemma DigitAcross(w: seq<int>, t: nat, i: nat, p: nat, k: nat)
    requires AreDigits(w, 0, t) && 0 < i < t && 0 < p < k <= DB
    ensures P2(p) > 0 && P2(k - p) > 0 && P2(DB + p - k) > 0 && P2(k) > 0
    ensures w[i - 1] / P2(DB + p - k) < P2(k - p)
    ensures Shr(Sum(w, 0, t), DB * i + p - k) % P2(k) == w[i] % P2(p) * P2(k - p) + w[i - 1] / P2(DB + p - k)
  {
    hide Sum;
    hide P2;
    BitsAcross(w, t, i, DB + p - k, k - p, p);
    assert DB * (i - 1) + (DB + p - k) == DB * i + p - k;
  }

  /** How far printing has come: the bits of v from pos on are out. */
  ghost predicate Printed(v: int, pos: nat, b: int, m: bool, r: string)
    requires 2 <= b <= 32
  {
    && Shr(v, pos) >= 0 && (m <==> Shr(v, pos) > 0)
    && r == if m then Numeral(Shr(v, pos), b) else ""
  }

  // one digit of the output; leading zeros are dropped
  method PutDigit(d: int, m: bool, r: string, ghost v: int, ghost pos: nat, b: int, ghost k: nat) returns (m': bool, r': string)
    requires DigitBits(b, k) && P2(k) > 0 && d == Shr(v, pos) % P2(k) && Printed(v, pos + k, b, m, r)
    ensures Printed(v, pos, b, m', r')
  {
    RadixPower(b, k);
    hide Int2Char;
    hide P2;
    hide Numeral;
    ShrSplit(v, pos, k);
    hide Shr;
    m', r' := m, r;
    NumeralStep(Shr(v, pos + k), d, b);
    if m { MulMono(1, Shr(v, pos + k), b); }
    if d > 0 { m' := true; }
    if m' { r' := r' + [Int2Char(d)]; }
  }

  method BitsPerDigit(b: int) returns (k: nat)
    requires b in {2, 4, 8, 16, 32}
    ensures DigitBits(b, k)
  {
    if b == 16 { k := 4; }
    else if b == 8 { k := 3; }
    else if b == 2 { k := 1; }
    else if b == 32 { k := 5; }
    else { k := 2; }
  }

  /** Printing stands at bit 28 * i + p, between two digits. */
  ghost predicate AtDigit(i: int, p: int, k: nat) {
    -1 <= i && 0 < p <= DB && k > 0 && (DB * i + p) % k == 0
  }

  lemma NextDigit(i: int, p: nat, k: nat)
    requires AtDigit(i, p, k) && i >= 0 && k <= 5
    ensures DB * i + p - k >= 0 && (DB * i + p - k) % k == 0
    ensures p < k ==> i > 0
  {
    var q := (DB * i + p) / k;
    assert DB * i + p == q * k;
    if q <= 0 { MulMono(q, 0, k); }
    MulMono(1, q, k);
    DivUnique(DB * i + p - k, k, q - 1, 0) by { SubMul(q, 1, k); }
  }

  // the partial digit at the top, if words do not end between digits
  method TopDigit(w: seq<int>, t: nat, b: int, k: nat) returns (m: bool, r: string, p: nat)
    requires AreDigits(w, 0, t) && t > 0 && DigitBits(b, k)
    ensures AtDigit(t - 1, p, k) && Printed(Sum(w, 0, t), DB * (t - 1) + p, b, m, r)
  {
    m, r, p := false, "", DB - t * DB % k;
    TopPosition(t, k, p);
    WordRange(w, t, p, k);
    RadixPower(b, k);
    hide P2;
    hide Shr;
    hide Sum;
    if p < DB {
      P2Positive(p);
      var d := w[t - 1] / P2(p);
      if d > 0 {
        m, r := true, [Int2Char(d)];
      }
    }
  }

  lemma TopPosition(t: nat, k: nat, p: int)
    requires t > 0 && 0 < k <= 5 && p == DB - t * DB % k
    ensures AtDigit(t - 1, p, k) && DB - p < k
  {
    var q := t * DB / k;
    assert t * DB == q * k + t * DB % k;
    DivUnique(DB * (t - 1) + p, k, q, 0);
  }

  lemma WordRange(w: seq<int>, t: nat, p: nat, k: nat)
    requires AreDigits(w, 0, t) && t > 0 && 0 < p <= DB && DB - p < k
    ensures P2(p) > 0 && P2(k) > 0
    ensures Shr(Sum(w, 0, t), DB * (t - 1) + p) == (if p == DB then 0 else w[t - 1] / P2(p))
    ensures 0 <= w[t - 1] / P2(p) < P2(k)
  {
    P2Positive(p);
    P2Positive(k);
    P2Positive(DB - p);
    P2Word();
    P2Add(DB - p, p);
    MulComm(P2(p), P2(DB - p));
    QuotientBound(w[t - 1], P2(p), P2(DB - p));
    PowMonotone(2, DB - p, k);
    if p == DB {
      assert DB * (t - 1) + p == DB * t;
      DropWords(w, t, t);
    } else {
      WordShift(w, t, t - 1, p);
      assert P2(DB - p) * Sum(w, t, 0) == 0;
    }
  }

  // the digits below bit 28 * i + p
  method LowerDigits(w: seq<int>, t: nat, b: int, k: nat, i0: nat, p0: nat, m0: bool, r0: string) returns (m: bool, r: string)
    requires AreDigits(w, 0, t) && DigitBits(b, k) && i0 < t && AtDigit(i0, p0, k)
    requires Printed(Sum(w, 0, t), DB * i0 + p0, b, m0, r0)
    ensures Printed(Sum(w, 0, t), 0, b, m, r)
  {
    hide P2;
    hide Shr;
    hide Sum;
    hide Printed;
    ghost var v := Sum(w, 0, t);
    var i: int, p: int;
    i, p, m, r := i0, p0, m0, r0;
    while i >= 0
      invariant -1 <= i < t && AtDigit(i, p, k) && (i == -1 ==> p == DB)
      invariant Printed(v, DB * i + p, b, m, r)
      decreases DB * i + p
    {
      ghost var pos := DB * i + p - k;
      NextDigit(i, p, k);
      var d;
      if p < k {
        DigitAcross(w, t, i, p, k);
        d := w[i] % P2(p) * P2(k - p);
        i := i - 1;
        p := p + DB - k;
        d := d + w[i] / P2(p);
      } else {
        DigitInside(w, t, i, p, k);
        p := p - k;
        d := w[i] / P2(p) % P2(k);
        if p <= 0 {
          p := p + DB;
          i := i - 1;
        }
      }
      m, r := PutDigit(d, m, r, v, pos, b, k);
    }
  }

  method ToString(x: BigInteger, b: int) returns (r: string)
    requires x.Clamped() && b in {2, 4, 8, 16, 32}
    ensures r == Show(x.Value(), b)
  {
    ClampedRange(x.words, x.t, x.s);
    if x.s < 0 {
      var y := x.Negate();
      ClampedRange(y.words, y.t, y.s);
      r := UnsignedString(y, b);
      r := "-" + r;
    } else {
      r := UnsignedString(x, b);
    }
  }

  method UnsignedString(x: BigInteger, b: int) returns (r: string)
    requires x.Clamped() && x.s == 0 && x.Value() >= 0 && b in {2, 4, 8, 16, 32}
    ensures r == Numeral(x.Value(), b)
  {
    var k := BitsPerDigit(b);
    var m := false;
    r := "";
    if x.t > 0 {
      var p;
      m, r, p := TopDigit(x.words, x.t, b, k);
      m, r := LowerDigits(x.words, x.t, b, k, x.t - 1, p, m, r);
    }
    SignlessValue(x.words, x.t);
    if !m { r := "0"; }
  }

  lemma SignlessValue(w: seq<int>, t: nat)
    requires t <= |w|
    ensures Signed(w, t, 0) == Sum(w, 0, t) && Shr(Sum(w, 0, t), 0) == Sum(w, 0, t)
  {
    TermSmall(t);
    assert P2(0) == 1;
  }

  // ---- reading ----

  /** n bits have been read into t words; v is their value. */
  ghost predicate Packed(w: seq<int>, t: nat, n: nat, v: int) {
    && AreDigits(w, 0, t) && Sum(w, 0, t) == v && v < P2(n)
    && DB * t - DB < n <= DB * t
  }

  /** The bits of the top word are among the n read. */
  lemma TopWordBound(w: seq<int>, t: nat, n: nat, v: int)
    requires Packed(w, t, n, v) && t > 0
    ensures n - DB * (t - 1) >= 0 && 0 <= w[t - 1] < P2(n - DB * (t - 1))
  {
    var k, sh := t - 1, n - DB * (t - 1);
    SumBound(w, 0, k);
    WeightIsPower(k);
    P2Add(sh, DB * k);
    if w[k] >= P2(sh) { TermMono(P2(sh), w[k], k); }
  }

  lemma DigitFits(v: int, x: int, n: nat, k: nat)
    requires v < P2(n) && 0 <= x < P2(k)
    ensures v + x * P2(n) < P2(n + k)
  {
    P2Positive(n);
    P2Add(k, n);
    MulMono(x, P2(k) - 1, P2(n));
    assert (P2(k) - 1) * P2(n) == P2(k) * P2(n) - P2(n);
  }

  // the digit x goes to the bits n .. n + k
  method AddDigit(a: BigInteger, x: int, ghost n: nat, sh: nat, k: nat, ghost v: int)
    requires Packed(a.words, a.t, n, v) && sh == n % DB && 0 < k <= 5 && 0 <= x < P2(k)
    modifies a`words, a`t
    ensures Packed(a.words, a.t, n + k, v + x * P2(n))
  {
    P2Positive(DB - sh);
    Added(a.words, a.t, n, sh, x, k, v);
    if sh != 0 { TopWordBound(a.words, a.t, n, v); }
    hide P2;
    hide Packed;
    if sh == 0 {
      a.words := Put(a.words, a.t, x);
      a.t := a.t + 1;
    } else {
      if sh + k > DB {
        a.words := a.words[a.t - 1 := a.words[a.t - 1] + x % P2(DB - sh) * P2(sh)];
        a.words := Put(a.words, a.t, x / P2(DB - sh));
        a.t := a.t + 1;
      } else {
        a.words := a.words[a.t - 1 := a.words[a.t - 1] + x * P2(sh)];
      }
    }
  }

  /** A new word, a word filled up, or both: the digit is in its place. */
  lemma Added(w: seq<int>, t: nat, n: nat, sh: nat, x: int, k: nat, v: int)
    requires Packed(w, t, n, v) && sh == n % DB && 0 < k <= 5 && 0 <= x < P2(k)
    ensures sh == 0 ==> Packed(Put(w, t, x), t + 1, n + k, v + x * P2(n))
    ensures sh > 0 ==> 0 < t <= |w| && P2(DB - sh) > 0
    ensures sh > 0 && sh + k > DB ==>
      Packed(Put(w[t - 1 := w[t - 1] + x % P2(DB - sh) * P2(sh)], t, x / P2(DB - sh)), t + 1, n + k, v + x * P2(n))
    ensures sh > 0 && sh + k <= DB ==> Packed(w[t - 1 := w[t - 1] + x * P2(sh)], t, n + k, v + x * P2(n))
  {
    DigitFits(v, x, n, k);
    P2Positive(DB - sh);
    hide P2;
    hide Sum;
    if sh == 0 {
      NewWord(w, t, n, x, k);
    } else {
      TopWordBound(w, t, n, v);
      if sh + k > DB {
        SplitWord(w, t, n, sh, x, k);
      } else {
        FillWord(w, t, n, sh, x, k);
      }
    }
  }

  lemma NewWord(w: seq<int>, t: nat, n: nat, x: int, k: nat)
    requires AreDigits(w, 0, t) && n == DB * t && 0 <= x < P2(k) && k <= 5
    ensures AreDigits(Put(w, t, x), 0, t + 1)
    ensures Sum(Put(w, t, x), 0, t + 1) == Sum(w, 0, t) + x * P2(n)
  {
    PowMonotone(2, k, DB);
    P2Word();
    SumPut(w, t, x);
    WeightIsPower(t);
  }

  /** Adding d * 2^sh to the top word of t adds d * 2^n to the number. */
  lemma TopSum(w: seq<int>, t: nat, n: nat, sh: nat, d: int)
    requires 0 < t <= |w| && n == DB * (t - 1) + sh && d >= 0
    ensures Sum(w[t - 1 := w[t - 1] + d * P2(sh)], 0, t) == Sum(w, 0, t) + d * P2(n)
  {
    var k := t - 1;
    var w' := w[k := w[k] + d * P2(sh)];
    SumEqual(w, 0, w', 0, k);
    TermAdd(w[k], d * P2(sh), k);
    WeightIsPower(k);
    P2Add(sh, DB * k);
    hide P2;
    assert Term(d * P2(sh), k) == d * (P2(sh) * P2(DB * k));
    hide Term;
  }

  lemma FillWord(w: seq<int>, t: nat, n: nat, sh: nat, x: int, k: nat)
    requires AreDigits(w, 0, t) && t > 0 && n == DB * (t - 1) + sh && 0 < k && sh + k <= DB && 0 <= x < P2(k)
    requires w[t - 1] < P2(sh)
    ensures var w' := w[t - 1 := w[t - 1] + x * P2(sh)];
      AreDigits(w', 0, t) && Sum(w', 0, t) == Sum(w, 0, t) + x * P2(n)
  {
    TopSum(w, t, n, sh, x);
    DigitFits(w[t - 1], x, sh, k);
    PowMonotone(2, sh + k, DB);
    P2Word();
    P2Positive(sh);
    MulMono(0, x, P2(sh));
  }

  lemma SplitWord(w: seq<int>, t: nat, n: nat, sh: nat, x: int, k: nat)
    requires AreDigits(w, 0, t) && t > 0 && n == DB * (t - 1) + sh && sh < DB && 0 < k <= 5 && sh + k > DB && 0 <= x < P2(k)
    requires w[t - 1] < P2(sh)
    ensures P2(DB - sh) > 0
    ensures var w' := Put(w[t - 1 := w[t - 1] + x % P2(DB - sh) * P2(sh)], t, x / P2(DB - sh));
      AreDigits(w', 0, t + 1) && Sum(w', 0, t + 1) == Sum(w, 0, t) + x * P2(n)
  {
    var q := P2(DB - sh);
    P2Positive(DB - sh);
    var lo, hi := x % q, x / q;
    var w1 := w[t - 1 := w[t - 1] + lo * P2(sh)];
    FillWord(w, t, n, sh, lo, DB - sh);
    HalfBound(x, q, k);
    NewWord(w1, t, DB * t, hi, k);
    P2Add(DB - sh, n);
    assert DB - sh + n == DB * t;
    hide P2;
    assert x == hi * q + lo;
    SplitAlgebra(hi, q, lo, P2(n));
  }

  lemma HalfBound(x: int, q: int, k: nat)
    requires q > 0 && 0 <= x < P2(k)
    ensures 0 <= x / q < P2(k)
  {
    var h := x / q;
    assert x == h * q + x % q;
    if h < 0 { MulMono(h, -1, q); }
    if h > 0 { MulMono(1, q, h); MulComm(h, q); }
  }

  lemma SplitAlgebra(hi: int, q: int, lo: int, p: int)
    ensures lo * p + hi * (q * p) == (hi * q + lo) * p
  {}

  /** Characters that are digits are digits of the radix. */
  predicate InRadix(s: string, b: int) {
    forall i | 0 <= i < |s| :: IntAt(s[i]) < b
  }

  lemma ReadBits(s: string, b: int, k: nat)
    requires DigitBits(b, k)
    ensures k * Count(s) >= 0 && Pow(b, Count(s)) == P2(k * Count(s))
  {
    RadixPower(b, k);
    PowMul(2, k, Count(s));
  }

  /** What is shown can be read, and reading it gives the number back. */
  lemma RoundTrip(v: int, b: int)
    requires 2 <= b <= 32
    ensures InRadix(Show(v, b), b) && Read(Show(v, b), b) == v
  {
    NumeralDigits(if v < 0 then -v else v, b);
    ReadShow(v, b);
    hide Numeral;
  }

  /** One more character to the left. */
  lemma ReadLeft(s: string, i: nat, b: int, k: nat)
    requires i < |s| && DigitBits(b, k)
    ensures var (d, r) := (IntAt(s[i]), s[i + 1..]);
      && Count(s[i..]) == Count(r) + (if d < 0 then 0 else 1)
      && Unsigned(s[i..], b) == Unsigned(r, b) + (if d < 0 then 0 else d * P2(k * Count(r)))
      && Minus(s[i..]) == (d < 0 && (s[i] == '-' || Minus(r)))
  {
    assert s[i..][0] == s[i] && s[i..][1..] == s[i + 1..];
    ReadBits(s[i + 1..], b, k);
  }

  /** a = the number s stands for in radix b */
  method FromString(a: BigInteger, s: string, b: int)
    requires b in {2, 4, 8, 16, 32} && InRadix(s, b)
    modifies a
    ensures a.Clamped() && a.Value() == Read(s, b)
  {
    hide P2;
    hide IntAt;
    hide Sum;
    var k := BitsPerDigit(b);
    a.t, a.s := 0, 0;
    var i, mi, sh := |s|, false, 0;
    EmptyPacked(a.words);
    while i > 0
      invariant 0 <= i <= |s| && a.s == 0 && sh == k * Count(s[i..]) % DB && mi == Minus(s[i..])
      invariant Packed(a.words, a.t, k * Count(s[i..]), Unsigned(s[i..], b))
    {
      i := i - 1;
      ReadLeft(s, i, b, k);
      var x := IntAt(s[i]);
      if x < 0 {
        if s[i] == '-' { mi := true; }
        continue;
      }
      mi := false;
      RadixPower(b, k);
      ghost var n := k * Count(s[i + 1..]);
      NextShift(n, Count(s[i + 1..]), k);
      AddDigit(a, x, n, sh, k, Unsigned(s[i + 1..], b));
      sh := sh + k;
      if sh >= DB { sh := sh - DB; }
    }
    assert s[0..] == s;
    SignlessValue(a.words, a.t);
    a.Clamp();
    if mi {
      var zero := new BigInteger();
      zero.SubTo(a, a);
    }
  }

  lemma EmptyPacked(w: seq<int>)
    ensures Packed(w, 0, 0, 0)
  {
    assert P2(0) == 1;
  }

  lemma NextShift(n: nat, c: nat, k: nat)
    requires n == k * c && 0 < k <= 5
    ensures n + k == k * (c + 1)
    ensures (n + k) % DB == if n % DB + k >= DB then n % DB + k - DB else n % DB + k
  {}
}
