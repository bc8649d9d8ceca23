/** Arbitrary-precision signed integers in two's complement words (crypto.js:325-771).

    `words[..t]` holds the words and `s` (0 or -1) the words from t on; what lies in the array
    beyond t is left over from earlier use. JavaScript arrays grow on assignment (Put). The
    bit operations are written as arithmetic: `x & (2^k - 1)` is x % 2^k, `x >> k` is x / 2^k,
    both rounding down; asserts record that every operand fits the 32-bit integers they act on. */
module BigIntegers {
  import opened Arith
  import opened Digits

  /** One word of a multiply-accumulate: the carry invariant moves up by one position. */
  lemma AmStep(S: int, c: int, S0: int, x: int, A: int, c0: int, k: nat, d: int, w: int, d': int, c': int)
    requires S + Term(c, k) == S0 + Times(x, A) + c0
    requires c' * DV + d' == x * d + w + c
    ensures (S + Term(d', k)) + Term(c', k + 1) == (S0 + Term(w, k)) + Times(x, A + Term(d, k)) + c0
  {
    TermUp(c', k);
    TimesIs(x, Term(d, k));
    TimesAdd(x, A, Term(d, k));
    hide Term;
    hide Times;
    TermAdd(c' * DV, d', k);
    TermAdd(x * d + w, c, k);
    TermAdd(x * d, w, k);
    TermMul(x, d, k);
  }

  /** The two halves of the words, multiplied separately (am3's inner computation). */
  lemma SplitProduct(x: int, d: int, w: int, c: int)
    requires 0 <= x < 2 * DV && 0 <= d < DV && 0 <= w < DV && 0 <= c < 3 * DV
    ensures var (xl, xh, l, h) := (x % 0x4000, x / 0x4000, d % 0x4000, d / 0x4000);
      var m := xh * l + h * xl;
      var l' := xl * l + (m % 0x4000) * 0x4000 + w + c;
      && 0 <= m < 0x8000_0000 && 0 <= l' < 0x8000_0000
      && (l' / DV + m / 0x4000 + xh * h) * DV + l' % DV == x * d + w + c
  {
    var xl, xh, l, h := x % 0x4000, x / 0x4000, d % 0x4000, d / 0x4000;
    var m := xh * l + h * xl;
    ProductBound(xh, 0x8000, l, 0x4000);
    ProductBound(h, 0x4000, xl, 0x4000);
    ProductBound(xl, 0x4000, l, 0x4000);
    assert (xh * 0x4000 + xl) * (h * 0x4000 + l) == xh * h * DV + m * 0x4000 + xl * l by {
      assert (xh * 0x4000 + xl) * (h * 0x4000 + l) == (xh * 0x4000) * (h * 0x4000) + (xh * 0x4000) * l + xl * (h * 0x4000) + xl * l;
      assert (xh * 0x4000) * (h * 0x4000) == xh * h * DV;
    }
  }

  lemma ProductBound(a: int, A: int, b: int, B: int)
    requires 0 <= a < A && 0 <= b < B
    ensures 0 <= a * b <= (A - 1) * (B - 1)
  {
    MulMono(a, A - 1, b);
    MulMono(b, B - 1, A - 1);
    assert (A - 1) * b == b * (A - 1);
    assert (B - 1) * (A - 1) == (A - 1) * (B - 1);
  }

  class BigInteger {
    var words: seq<int>
    var t: nat
    var s: int

    ghost predicate Valid()
      reads this
    {
      AreDigits(words, 0, t) && (s == 0 || s == -1)
    }

    function Value(): int
      requires t <= |words|
      reads this
    {
      Signed(words, t, s)
    }

    /** No leading word that only repeats the sign. */
    ghost predicate Clamped()
      reads this
    {
      ClampedWords(words, t, s)
    }

    constructor ()
      ensures Clamped() && Value() == 0
    {
      words, t, s := [], 0, 0;
    }

    // one word of am3: this[j] += x * d + c, where x = xh * 2^14 + xl
    method AmWord(d: int, ghost x: int, xl: int, xh: int, j: nat, c: int) returns (c': int)
      requires 0 <= d < DV && 0 <= x < 2 * DV && xl == x % 0x4000 && xh == x / 0x4000
      requires j < |words| && 0 <= words[j] < DV && 0 <= c < 3 * DV
      modifies `words
      ensures j < |words| && words == old(words)[j := words[j]] && 0 <= words[j] < DV
      ensures c' * DV + words[j] == x * d + old(words)[j] + c
      ensures 0 <= c' <= 2 * DV && (x < DV && c < DV ==> c' < DV)
    {
      SplitProduct(x, d, words[j], c);
      var l := d % 0x4000;
      var h := d / 0x4000;
      var m := xh * l + h * xl;
      l := xl * l + (m % 0x4000) * 0x4000 + words[j] + c;
      assert 0 <= l < 0x8000_0000 && 0 <= m < 0x8000_0000;
      c' := l / DV + m / 0x4000 + xh * h;
      CarryBound(x, d, words[j], c, c', l % DV);
      words := words[j := l % DV];
    }

    // w[j..j+n) += x * this[i..i+n) + c; the carry out is returned; w may be this for i == j
    method Am3(i0: nat, x: int, w: BigInteger, j0: nat, c0: int, n0: nat) returns (c: int)
      requires (w != this || i0 == j0) && AreDigits(words, i0, n0) && AreDigits(w.words, j0, n0)
      requires 0 <= x < 2 * DV && 0 <= c0 < 3 * DV
      modifies w`words
      ensures |w.words| == |old(w.words)| && AreDigits(w.words, j0, n0)
      ensures forall k | 0 <= k < |w.words| && !(j0 <= k < j0 + n0) :: w.words[k] == old(w.words)[k]
      ensures Sum(w.words, j0, n0) + Term(c, n0) == Sum(old(w.words), j0, n0) + Times(x, Sum(old(words), i0, n0)) + c0
      ensures if x < DV && c0 < DV then 0 <= c < DV else 0 <= c < 3 * DV
      ensures n0 > 0 ==> 0 <= c <= 2 * DV
    {
      hide Term;
      var i, j, n := i0, j0, n0;
      c := c0;
      TermZero(c0);
      TimesIs(x, 0);
      hide Times;
      var xl, xh := x % 0x4000, x / 0x4000;
      ghost var w0, u, k := w.words, words, 0;
      while n > 0
        invariant k + n == n0 && i == i0 + k && j == j0 + k && |w.words| == |w0| && AreDigits(w.words, j0, n0)
        invariant forall q | 0 <= q < |w0| && !(j0 <= q < j) :: w.words[q] == w0[q]
        invariant |words| == |u| && forall q | i <= q < i0 + n0 :: words[q] == u[q]
        invariant Sum(w.words, j0, k) + Term(c, k) == Sum(w0, j0, k) + Times(x, Sum(u, i0, k)) + c0
        invariant if x < DV && c0 < DV then 0 <= c < DV else 0 <= c < 3 * DV
        invariant k > 0 ==> c <= 2 * DV
      {
        n := n - 1;
        ghost var cc, before := c, w.words;
        c := w.AmWord(words[i], x, xl, xh, j, c);
        SumEqual(before, j0, w.words, j0, k);
        AmStep(Sum(before, j0, k), cc, Sum(w0, j0, k), x, Sum(u, i0, k), c0, k, u[i], before[j], w.words[j], c);
        i := i + 1;
        j := j + 1;
        k := k + 1;
      }
    }

    method Clamp()
      requires Valid()
      modifies `t
      ensures Clamped() && Value() == old(Value()) && t <= old(t)
      ensures forall i | t <= i < old(t) :: words[i] == if s < 0 then DM else 0
    {
      hide Term;
      var c := if s < 0 then DM else 0;
      while t > 0 && words[t - 1] == c
        invariant t <= old(t) && Valid() && Value() == old(Value())
        invariant forall i | t <= i < old(t) :: words[i] == c
      {
        ClampStep(words, t, s);
        t := t - 1;
      }
    }

    // this[0..n) = 0, from the top down
    method ZeroWords(n: nat)
      modifies `words
      ensures |words| == (if n > |old(words)| then n else |old(words)|)
      ensures forall k | 0 <= k < n :: words[k] == 0
      ensures forall k | n <= k < |words| :: words[k] == old(words)[k]
    {
      var i := n - 1;
      while i >= 0
        invariant -1 <= i < n
        invariant |words| == if i == n - 1 || n <= |old(words)| then |old(words)| else n
        invariant forall k | i < k < n :: words[k] == 0
        invariant forall k | n <= k < |words| :: words[k] == old(words)[k]
      {
        words := Put(words, i, 0);
        i := i - 1;
      }
    }

    // r = this << n words; only a shifted zero is not clamped
    method DLShiftTo(n: nat, r: BigInteger)
      requires Clamped()
      modifies r
      ensures r.Valid() && r.t == old(t) + n && r.s == old(s)
      ensures r.Clamped() <==> old(t) > 0 || n == 0 || old(s) < 0
      ensures r.Value() == old(Value()) * W(n)
    {
      hide Term;
      hide Sum;
      hide W;
      ghost var w0, t0 := words, t;
      var i: int := t - 1;
      while i >= 0
        invariant -1 <= i < t && t == t0 && s == old(s) && r.t == old(r.t) && r.s == old(r.s)
        invariant |words| >= t && forall k {:trigger words[k]} | 0 <= k <= i :: words[k] == w0[k]
        invariant i < t - 1 ==> MovedUp(w0, t, n, i + 1, r.words)
      {
        MoveUp(w0, t, n, i, r.words);
        r.words := Put(r.words, i + n, words[i]);
        i := i - 1;
      }
      r.ZeroWords(n);
      r.t := t + n;
      r.s := s;
      ShiftUp(w0, t0, s, n, r.words);
      ShiftClamps(w0, t0, s, n, r.words);
    }

    // r = this >> n words
    method DRShiftTo(n: nat, r: BigInteger)
      requires Clamped()
      modifies r
      ensures r.Clamped() && r.t == (if old(t) > n then old(t) - n else 0) && r.s == old(s)
      ensures W(n) > 0 && r.Value() == old(Value()) / W(n)
    {
      hide Term;
      ghost var w0, t0 := words, t;
      var i := n;
      while i < t
        invariant n <= i && (i <= t || i == n) && t == t0 && s == old(s) && r.t == old(r.t) && r.s == old(r.s)
        invariant |words| >= t && forall k | i <= k < t :: words[k] == w0[k]
        invariant |r.words| >= i - n && forall k | 0 <= k < i - n :: r.words[k] == w0[k + n]
      {
        r.words := Put(r.words, i - n, words[i]);
        i := i + 1;
      }
      r.t := if t > n then t - n else 0;
      r.s := s;
      ShiftDown(w0, t0, s, n, r.words);
    }

    method CopyTo(r: BigInteger)
      requires Valid() && r != this
      modifies r
      ensures r.t == t && r.s == s && r.Valid() && r.Value() == Value() && (Clamped() ==> r.Clamped())
    {
      hide Term;
      var i := t - 1;
      while i >= 0
        invariant -1 <= i < t && (i < t - 1 ==> |r.words| >= t)
        invariant forall k | i < k < t :: r.words[k] == words[k]
      {
        r.words := Put(r.words, i, words[i]);
        i := i - 1;
      }
      r.t := t;
      r.s := s;
      SumEqual(r.words, 0, words, 0, t);
    }

    // this[i] = (c + u) & DM, c = (c + u) >> DB: one step of a carry chain
    method Emit(i: nat, c: int, u: int) returns (c': int)
      requires AreDigits(words, 0, i)
      modifies `words
      ensures AreDigits(words, 0, i + 1) && c' == (c + u) / DV && |words| >= |old(words)|
      ensures forall k | i < k < |old(words)| :: words[k] == old(words)[k]
      ensures Sum(words, 0, i + 1) + Term(c', i + 1) == Sum(old(words), 0, i) + Term(c, i) + Term(u, i)
    {
      hide Term;
      var e := c + u;
      TermAdd(c, u, i);
      TermUp(e / DV, i);
      TermAdd(e / DV * DV, e % DV, i);
      SumPut(words, i, (c + u) % DV);
      words := Put(words, i, (c + u) % DV);
      c' := (c + u) / DV;
    }

    // the end of a carry chain: sign, top word and length
    method Finish(i0: nat, c: int)
      requires AreDigits(words, 0, i0) && -2 <= c <= 1
      modifies this
      ensures Clamped() && Value() == Sum(old(words), 0, i0) + Term(c, i0)
    {
      hide Term;
      var i := i0;
      TermSmall(i);
      TermUp(-1, i);
      TermAdd(-DV, DV + c, i);
      TermSmall(i + 1);
      SumPut(words, i, c);
      SumPut(words, i, DV + c);
      s := if c < 0 then -1 else 0;
      if c < -1 {
        words := Put(words, i, DV + c);
        i := i + 1;
      } else if c > 0 {
        words := Put(words, i, c);
        i := i + 1;
      }
      t := i;
      Clamp();
    }

    // the words of this above i0 join the carry chain in r
    method AddRest(r: BigInteger, ghost w: seq<int>, i0: nat, c0: int) returns (c: int)
      requires Valid() && i0 <= t <= |w| && AreDigits(r.words, 0, i0) && -1 <= c0 <= 1
      requires forall k | i0 <= k < t :: words[k] == w[k]
      modifies r`words
      ensures AreDigits(r.words, 0, old(t)) && -1 <= c <= 1
      ensures Sum(r.words, 0, old(t)) + Term(c, old(t))
           == Sum(old(r.words), 0, i0) + Term(c0, i0) + Sum(w, 0, old(t)) - Sum(w, 0, i0)
    {
      ghost var base := Sum(r.words, 0, i0) + Term(c0, i0) - Sum(w, 0, i0);
      var i := i0;
      c := c0;
      while i < t
        invariant i0 <= i <= t && |words| >= t && AreDigits(r.words, 0, i) && -1 <= c <= 1
        invariant forall k | i <= k < t :: words[k] == w[k]
        invariant Sum(r.words, 0, i) + Term(c, i) == base + Sum(w, 0, i)
      {
        c := r.Emit(i, c, words[i]);
        i := i + 1;
      }
    }

    // the words of this above i0 are taken off the carry chain in r
    method SubRest(r: BigInteger, ghost w: seq<int>, i0: nat, c0: int) returns (c: int)
      requires Valid() && i0 <= t <= |w| && AreDigits(r.words, 0, i0) && -2 <= c0 <= 0
      requires forall k | i0 <= k < t :: words[k] == w[k]
      modifies r`words
      ensures AreDigits(r.words, 0, old(t)) && -2 <= c <= 0
      ensures Sum(r.words, 0, old(t)) + Term(c, old(t))
           == Sum(old(r.words), 0, i0) + Term(c0, i0) - Sum(w, 0, old(t)) + Sum(w, 0, i0)
    {
      ghost var base := Sum(r.words, 0, i0) + Term(c0, i0) + Sum(w, 0, i0);
      var i := i0;
      c := c0;
      while i < t
        invariant i0 <= i <= t && |words| >= t && AreDigits(r.words, 0, i) && -2 <= c <= 0
        invariant forall k | i <= k < t :: words[k] == w[k]
        invariant Sum(r.words, 0, i) + Term(c, i) == base - Sum(w, 0, i)
      {
        TermNeg(words[i], i);
        c := r.Emit(i, c, -words[i]);
        i := i + 1;
      }
    }

    // r = this - a; r may be this or a
    method SubTo(a: BigInteger, r: BigInteger)
      requires Valid() && a.Valid()
      modifies r
      ensures r.Clamped() && r.Value() == old(Value()) - old(a.Value())
    {
      hide Term;
      ghost var w, v := words, a.words;
      TermZero(0);
      var i, c, m := 0, 0, if a.t < t then a.t else t;
      while i < m
        invariant 0 <= i <= m && t == old(t) && a.t == old(a.t) && s == old(s) && a.s == old(a.s)
        invariant |words| >= t && |a.words| >= a.t && AreDigits(r.words, 0, i)
        invariant (forall k | i <= k < t :: words[k] == w[k]) && (forall k | i <= k < a.t :: a.words[k] == v[k])
        invariant -1 <= c <= 0 && Sum(r.words, 0, i) + Term(c, i) == Sum(w, 0, i) - Sum(v, 0, i)
      {
        TermAdd(words[i], a.words[i], i);
        c := r.Emit(i, c, words[i] - a.words[i]);
        i := i + 1;
      }
      if a.t < t {
        TermAdd(c, a.s, i);
        c := AddRest(r, w, i, c - a.s);
        i := t;
        TermAdd(c, s, i);
        c := c + s;
      } else {
        TermAdd(c, s, i);
        c := a.SubRest(r, v, i, c + s);
        i := a.t;
        TermAdd(c, a.s, i);
        c := c - a.s;
      }
      r.Finish(i, c);
    }

    /** The sign of the result is that of this - a, except for two negative numbers of different
        lengths, which are ordered the wrong way round. */
    method CompareTo(a: BigInteger) returns (r: int)
      requires Clamped() && a.Clamped()
      ensures !(s < 0 && a.s < 0 && t != a.t) ==> SameSign(r, Value() - a.Value())
      ensures s < 0 && a.s < 0 && t != a.t ==> SameSign(r, a.Value() - Value())
      ensures r == 0 <==> Value() == a.Value()
    {
      hide Term;
      ClampedRange(words, t, s);
      ClampedRange(a.words, a.t, a.s);
      r := s - a.s;
      if r != 0 { return; }
      var i := t;
      r := i - a.t;
      if r != 0 {
        if t > a.t { PowMonotone(DV, a.t, t - 1); } else { PowMonotone(DV, t, a.t - 1); }
        return;
      }
      i := i - 1;
      while i >= 0
        invariant -1 <= i < t && forall k | i < k < t :: words[k] == a.words[k]
      {
        r := words[i] - a.words[i];
        if r != 0 {
          if r < 0 { SumOrder(words, a.words, i, t); } else { SumOrder(a.words, words, i, t); }
          return;
        }
        i := i - 1;
      }
      SumEqual(words, 0, a.words, 0, t);
      return 0;
    }

    // this *= n; words and result share one array
    method DMultiply(n: int)
      requires Clamped() && s == 0 && 1 < n < DV
      modifies this
      ensures Clamped() && s == 0 && Value() == old(Value()) * n
    {
      hide Term;
      ghost var w, S := words, Sum(words, 0, t);
      TermSmall(t);
      TermSmall(t + 1);
      TimesIs(n - 1, S);
      var c := Am3(0, n - 1, this, 0, 0, t);
      assert Times(n - 1, S) == S * n - S;
      SumPut(words, t, c);
      words := Put(words, t, c);
      t := t + 1;
      Clamp();
    }

    method Negate() returns (r: BigInteger)
      requires Valid()
      ensures fresh(r) && r.Clamped() && r.Value() == -Value()
    {
      r := new BigInteger();
      var zero := new BigInteger();
      zero.SubTo(this, r);
    }

    method Abs() returns (r: BigInteger)
      requires Valid()
      ensures r == this || fresh(r)
      ensures r.Valid() && r.s == 0 && r.Value() == if Value() < 0 then -Value() else Value()
      ensures s < 0 || Clamped() ==> r.Clamped()
      ensures s >= 0 ==> r == this
    {
      SumBound(words, 0, t);
      TermSmall(t);
      if s < 0 {
        r := Negate();
        ClampedRange(r.words, r.t, r.s);
      } else {
        r := this;
      }
    }

    // r = this * a
    method MultiplyTo(a: BigInteger, r: BigInteger)
      requires Clamped() && a.Clamped() && r != this && r != a
      modifies r
      ensures r.Clamped() && r.Value() == Value() * a.Value()
    {
      hide Term;
      ClampedRange(words, t, s);
      ClampedRange(a.words, a.t, a.s);
      var x := Abs();
      var y := a.Abs();
      r.MultiplyWords(x, y);
      if s != a.s {
        var zero := new BigInteger();
        zero.SubTo(r, r);
      }
      ghost var u, v := Value(), a.Value();
      assert (-u) * v == -(u * v) && u * (-v) == -(u * v) && (-u) * (-v) == u * v;
    }

    // this[i..i + x.t] += x * d, the last of these words being new
    method AddRow(x: BigInteger, d: int, i: nat)
      requires x.Valid() && x != this && 0 <= d < DV && AreDigits(words, 0, i + x.t)
      modifies `words
      ensures AreDigits(words, 0, i + x.t + 1) && |words| >= |old(words)|
      ensures forall k | i + x.t < k < |old(words)| :: words[k] == old(words)[k]
      ensures Sum(words, 0, i + x.t + 1) == Sum(old(words), 0, i + x.t) + W(i) * (d * Sum(x.words, 0, x.t))
    {
      hide Term;
      hide Pow;
      var c := x.Am3(0, d, this, i, 0, x.t);
      AddAt(old(words), words, i, x.t, c, Times(d, Sum(x.words, 0, x.t)));
      SumPut(words, i + x.t, c);
      words := Put(words, i + x.t, c);
    }

    method MultiplyWords(x: BigInteger, y: BigInteger)
      requires x.Clamped() && y.Clamped() && x.s == 0 && y.s == 0 && x != this && y != this
      modifies this
      ensures Clamped() && s == 0 && Value() == x.Value() * y.Value()
    {
      hide Term;
      t := x.t + y.t;
      ZeroWords(x.t);
      SumOfZeros(words, 0, x.t);
      ghost var X := Sum(x.words, 0, x.t);
      var i := 0;
      while i < y.t
        invariant 0 <= i <= y.t && t == x.t + y.t && AreDigits(words, 0, i + x.t)
        invariant Sum(words, 0, i + x.t) == X * Sum(y.words, 0, i)
      {
        AddRow(x, y.words[i], i);
        RowTerm(X, y.words[i], i, Sum(y.words, 0, i));
        i := i + 1;
      }
      s := 0;
      TermSmall(t);
      TermSmall(x.t);
      TermSmall(y.t);
      Clamp();
    }

    // r = this^2
    method SquareTo(r: BigInteger)
      requires Clamped() && r != this
      modifies r
      ensures r.Clamped() && r.Value() == Value() * Value()
    {
      hide Term;
      ClampedRange(words, t, s);
      var x := Abs();
      r.SquareWords(x);
      ghost var u := Value();
      assert (-u) * (-u) == u * u;
    }

    method SquareWords(x: BigInteger)
      requires x.Clamped() && x.s == 0 && x != this
      modifies this
      ensures Clamped() && s == 0 && Value() == x.Value() * x.Value()
    {
      hide Term;
      hide Pow;
      var n := x.t;
      t := 2 * n;
      ZeroWords(2 * n);
      SumOfZeros(words, 0, 2 * n);
      ghost var X := Sum(x.words, 0, n);
      SquareEnds(X);
      hide SquarePart;
      var i := 0;
      while i + 1 < n
        invariant 0 <= i <= n && (n == 0 || i <= n - 1) && t == 2 * n && AreDigits(words, 0, 2 * n)
        invariant forall k | i + n < k < 2 * n :: words[k] == 0
        invariant Sum(words, 0, 2 * n) == SquarePart(X, Sum(x.words, 0, i))
      {
        SquareRow(x, i);
        i := i + 1;
      }
      if t > 0 {
        SquareLast(x);
      }
      s := 0;
      TermSmall(t);
      TermSmall(n);
      Clamp();
    }

    // the products of word i with itself and with every higher word, the latter twice
    method SquareRow(x: BigInteger, i: nat)
      requires x.Clamped() && x.s == 0 && x != this && i < x.t - 1 && AreDigits(words, 0, 2 * x.t)
      requires forall k | i + x.t < k < 2 * x.t :: words[k] == 0
      requires Sum(words, 0, 2 * x.t) == SquarePart(Sum(x.words, 0, x.t), Sum(x.words, 0, i))
      modifies `words
      ensures AreDigits(words, 0, 2 * x.t) && forall k | i + 1 + x.t < k < 2 * x.t :: words[k] == 0
      ensures Sum(words, 0, 2 * x.t) == SquarePart(Sum(x.words, 0, x.t), Sum(x.words, 0, i + 1))
    {
      hide Term;
      hide Pow;
      hide Times;
      hide SquarePart;
      ghost var w0 := words;
      var n, d := x.t, x.words[i];
      SumZeroTail(words, i + n + 1, 2 * n);
      var c := x.Am3(i, d, this, 2 * i, 0, 1);
      ghost var w1 := words;
      var high := x.Am3(i + 1, 2 * d, this, 2 * i + 1, c, n - i - 1);
      ghost var w2, v := words, words[i + n] + high;
      SquareRowSum(w0, w1, w2, x.words, i, n, c, high);
      TermAdd(words[i + n], high, i + n);
      SquareBound(w2, x.words, i + 1, n, i + n, v);
      CarryOnce(i + n, high, 2 * n);
    }

    // this[top] += high, at most one carry going into the next word, which is still zero
    method CarryOnce(top: nat, high: int, ghost n: nat)
      requires top + 1 < n <= |words| && AreDigits(words, 0, top) && 0 <= words[top] + high < 2 * DV
      requires forall k | top < k < n :: words[k] == 0
      modifies `words
      ensures AreDigits(words, 0, n) && forall k | top + 1 < k < n :: words[k] == 0
      ensures Sum(words, 0, n) == Sum(old(words), 0, top) + Term(old(words)[top] + high, top)
    {
      hide Term;
      hide Pow;
      ghost var v := words[top] + high;
      words := words[top := words[top] + high];
      if words[top] >= DV {
        words := words[top := words[top] - DV];
        words := words[top + 1 := 1];
      }
      CarrySum(old(words), words, top, n, v);
    }

    method SquareLast(x: BigInteger)
      requires x.Clamped() && x.s == 0 && x != this && x.t > 0 && AreDigits(words, 0, 2 * x.t)
      requires Sum(words, 0, 2 * x.t) == SquarePart(Sum(x.words, 0, x.t), Sum(x.words, 0, x.t - 1))
      modifies `words
      ensures AreDigits(words, 0, 2 * x.t)
      ensures Sum(words, 0, 2 * x.t) == SquarePart(Sum(x.words, 0, x.t), Sum(x.words, 0, x.t))
    {
      hide Term;
      hide Pow;
      hide Times;
      hide SquarePart;
      ghost var w0, n, i := words, x.t, x.t - 1;
      var c := x.Am3(x.t - 1, x.words[x.t - 1], this, 2 * (x.t - 1), 0, 1);
      ghost var w1 := words;
      SquareLastSum(w0, w1, x.words, i, c);
      SquareTop(w0, w1, x.words, n, c);
      words := words[2 * x.t - 1 := words[2 * x.t - 1] + c];
    }
  }

  /** The part of X^2 that involves the low part S of X. */
  ghost function SquarePart(X: int, S: int): int {
    X * X - (X - S) * (X - S)
  }

  lemma SquareEnds(X: int)
    ensures SquarePart(X, 0) == 0 && SquarePart(X, X) == X * X
  {}

  lemma RowTerm(X: int, d: int, i: nat, Y: int)
    ensures X * Y + W(i) * (d * X) == X * (Y + Term(d, i))
  {
    hide Pow;
    assert X * (Y + d * W(i)) == X * Y + X * (d * W(i));
    assert X * (d * W(i)) == W(i) * (d * X);
  }

  /** compareTo takes -1 for smaller than -DV - 1: it compares the lengths 0 and 2. */
  lemma LengthsMislead()
    ensures ClampedWords([], 0, -1) && Signed([], 0, -1) == -1
    ensures ClampedWords([DM, DM - 1], 2, -1) && Signed([DM, DM - 1], 2, -1) == -DV - 1
  {
    var w := [DM, DM - 1];
    assert Sum(w, 0, 1) == Sum(w, 0, 0) + Term(DM, 0) && Sum(w, 0, 2) == Sum(w, 0, 1) + Term(DM - 1, 1);
    assert W(0) == 1 && W(1) == DV && W(2) == DV * DV;
  }

  ghost predicate SameSign(r: int, d: int) {
    (r > 0 <==> d > 0) && (r < 0 <==> d < 0)
  }

  /** Words i .. t of w stand n places higher in r. */
  ghost predicate MovedUp(w: seq<int>, t: nat, n: nat, i: int, r: seq<int>)
    requires t <= |w| && i >= 0
  {
    t + n <= |r| && forall k | n + i <= k < n + t :: r[k] == w[k - n]
  }

  lemma MoveUp(w: seq<int>, t: nat, n: nat, i: nat, r: seq<int>)
    requires i < t <= |w| && (i < t - 1 ==> MovedUp(w, t, n, i + 1, r))
    ensures MovedUp(w, t, n, i, Put(r, i + n, w[i]))
  {}

  lemma ShiftClamps(w: seq<int>, t: nat, s: int, n: nat, r: seq<int>)
    requires ClampedWords(w, t, s) && t + n <= |r|
    requires (forall k | n <= k < n + t :: r[k] == w[k - n]) && forall k | 0 <= k < n :: r[k] == 0
    ensures AreDigits(r, 0, t + n) && (ClampedWords(r, t + n, s) <==> t > 0 || n == 0 || s < 0)
  {}

  lemma TermZero(c: int)
    ensures Term(c, 0) == c
  {}

  /** A leading word equal to the sign can be dropped. */
  lemma ClampStep(w: seq<int>, t: nat, s: int)
    requires 0 < t <= |w| && (s == 0 || s == -1) && w[t - 1] == (if s < 0 then DM else 0)
    ensures Signed(w, t, s) == Signed(w, t - 1, s)
  {
    TermUp(s, t - 1);
    hide Term;
    TermAdd(s * DV, w[t - 1], t - 1);
  }

  /** Adding the square of word i at position 2i. */
  lemma SquareDiagonal(w0: seq<int>, w1: seq<int>, x: seq<int>, i: nat, c: int)
    requires 2 * i + 1 <= |w0| && 2 * i + 1 <= |w1| && i < |x|
    requires forall k | 0 <= k < 2 * i :: w1[k] == w0[k]
    requires Sum(w1, 2 * i, 1) + Term(c, 1) == Sum(w0, 2 * i, 1) + Times(x[i], Sum(x, i, 1))
    ensures Sum(w1, 0, 2 * i + 1) + Term(c, 2 * i + 1) == Sum(w0, 0, 2 * i + 1) + W(2 * i) * (x[i] * x[i])
  {
    assert Sum(x, i, 1) == Sum(x, i, 0) + Term(x[i], 0) == x[i] by { TermZero(x[i]); }
    hide Term;
    AddAt(w0, w1, 2 * i, 1, c, x[i] * x[i]);
  }

  /** What row i adds to the part of the square computed so far. */
  lemma SquareStep(x: seq<int>, i: nat, n: nat)
    requires i < n <= |x|
    ensures SquarePart(Sum(x, 0, n), Sum(x, 0, i + 1))
         == SquarePart(Sum(x, 0, n), Sum(x, 0, i)) + W(2 * i) * (x[i] * x[i]) + W(2 * i + 1) * (2 * x[i] * Sum(x, i + 1, n - i - 1))
  {
    hide Pow;
    var U, d := Sum(x, i + 1, n - i - 1), x[i];
    SumSplit(x, 0, i + 1, n - i - 1);
    WeightAdd(i, i);
    WeightAdd(i, i + 1);
    assert 2 * i == i + i && 2 * i + 1 == i + (i + 1);
    SquareAlgebra(Sum(x, 0, n), Sum(x, 0, i), d, W(i), W(2 * i), W(i + 1) * U);
    CrossTerm(d, W(i), W(i + 1), U);
    hide SquarePart;
    hide W;
  }

  lemma SquareLastSum(w0: seq<int>, w1: seq<int>, x: seq<int>, i: nat, c: int)
    requires 2 * i + 1 <= |w0| && 2 * i + 1 <= |w1| && i + 1 <= |x|
    requires forall k | 0 <= k < 2 * i :: w1[k] == w0[k]
    requires Sum(w1, 2 * i, 1) + Term(c, 1) == Sum(w0, 2 * i, 1) + Times(x[i], Sum(x, i, 1))
    ensures Sum(w1, 0, 2 * i + 1) + Term(c, 2 * i + 1) - Sum(w0, 0, 2 * i + 1)
         == SquarePart(Sum(x, 0, i + 1), Sum(x, 0, i + 1)) - SquarePart(Sum(x, 0, i + 1), Sum(x, 0, i))
  {
    hide Term;
    hide SquarePart;
    SquareDiagonal(w0, w1, x, i, c);
    SquareLastStep(x, i);
  }

  /** The carry fits the last word. */
  lemma SquareTop(w0: seq<int>, w1: seq<int>, x: seq<int>, n: nat, c: int)
    requires 0 < n <= |x| && AreDigits(x, 0, n) && |w0| == |w1| && 2 * n <= |w0| && AreDigits(w1, 0, 2 * n - 1)
    requires w1[2 * n - 1] == w0[2 * n - 1] && 0 <= w1[2 * n - 1] && c >= 0
    requires Sum(w0, 0, 2 * n) == SquarePart(Sum(x, 0, n), Sum(x, 0, n - 1))
    requires Sum(w1, 0, 2 * n - 1) + Term(c, 2 * n - 1) - Sum(w0, 0, 2 * n - 1)
      == SquarePart(Sum(x, 0, n), Sum(x, 0, n)) - SquarePart(Sum(x, 0, n), Sum(x, 0, n - 1))
    ensures var w2 := w1[2 * n - 1 := w1[2 * n - 1] + c];
      AreDigits(w2, 0, 2 * n) && Sum(w2, 0, 2 * n) == SquarePart(Sum(x, 0, n), Sum(x, 0, n))
  {
    hide Term;
    hide SquarePart;
    var k := 2 * n - 1;
    var w2 := w1[k := w1[k] + c];
    TermAdd(w1[k], c, k);
    SumEqual(w1, 0, w2, 0, k);
    assert Sum(w2, 0, k + 1) == Sum(w1, 0, k) + Term(w1[k] + c, k);
    assert Sum(w0, 0, k + 1) == Sum(w0, 0, k) + Term(w0[k], k);
    SquareBound(w1, x, n, n, k, w1[k] + c);
  }

  lemma SquareLastStep(x: seq<int>, i: nat)
    requires i < |x|
    ensures SquarePart(Sum(x, 0, i + 1), Sum(x, 0, i + 1))
         == SquarePart(Sum(x, 0, i + 1), Sum(x, 0, i)) + W(2 * i) * (x[i] * x[i])
  {
    hide Pow;
    WeightAdd(i, i);
    assert 2 * i == i + i;
    SquareAlgebra(Sum(x, 0, i + 1), Sum(x, 0, i), x[i], W(i), W(2 * i), 0);
    assert (2 * x[i]) * (W(i) * 0) == 0;
  }

  /** A word below 2 * DV, written as one word and a carry of one. */
  lemma CarrySum(w: seq<int>, w': seq<int>, top: nat, n: nat, v: int)
    requires top + 1 < n <= |w'| && top <= |w| && forall k | 0 <= k < top :: w'[k] == w[k]
    requires v < DV ==> w'[top] == v && w'[top + 1] == 0
    requires v >= DV ==> w'[top] == v - DV && w'[top + 1] == 1
    requires forall k | top + 1 < k < n :: w'[k] == 0
    ensures Sum(w', 0, n) == Sum(w, 0, top) + Term(v, top)
  {
    SumEqual(w, 0, w', 0, top);
    SumZeroTail(w', top + 2, n);
    TermAdd(v, DV, top);
    TermUp(1, top);
    TermSmall(top + 1);
    hide Term;
    assert Sum(w', 0, top + 1) == Sum(w', 0, top) + Term(w'[top], top);
    assert Sum(w', 0, top + 2) == Sum(w', 0, top + 1) + Term(w'[top + 1], top + 1);
  }

  lemma SquareRowSum(w0: seq<int>, w1: seq<int>, w2: seq<int>, x: seq<int>, i: nat, n: nat, c: int, high: int)
    requires i + 1 < n <= |x| && 2 * n <= |w0| && 2 * n <= |w1| && 2 * n <= |w2|
    requires forall k | 0 <= k < 2 * n && k != 2 * i :: w1[k] == w0[k]
    requires Sum(w1, 2 * i, 1) + Term(c, 1) == Sum(w0, 2 * i, 1) + Times(x[i], Sum(x, i, 1))
    requires forall k | 0 <= k < 2 * i + 1 :: w2[k] == w1[k]
    requires var m := n - i - 1;
      Sum(w2, 2 * i + 1, m) + Term(high, m) == Sum(w1, 2 * i + 1, m) + Times(2 * x[i], Sum(x, i + 1, m)) + c
    ensures Sum(w2, 0, i + n) + Term(high, i + n) - Sum(w0, 0, i + n)
         == SquarePart(Sum(x, 0, n), Sum(x, 0, i + 1)) - SquarePart(Sum(x, 0, n), Sum(x, 0, i))
  {
    hide Term;
    hide Pow;
    var m, U := n - i - 1, 2 * x[i] * Sum(x, i + 1, n - i - 1);
    SquareDiagonal(w0, w1, x, i, c);
    SquareStep(x, i, n);
    assert (2 * i + 1) + m == i + n;
    AddAt(w1, w2, 2 * i + 1, m, high, U + c);
    SumTail(w0, w1, 2 * i + 1, i + n);
    TermIsScaled(c, 2 * i + 1, U);
  }

  lemma TermIsScaled(c: int, i: nat, U: int)
    ensures W(i) * (U + c) == W(i) * U + Term(c, i)
  {
    hide Pow;
    assert W(i) * (U + c) == W(i) * U + W(i) * c;
  }

  /** The square of at most n words, k of them used so far, leaves less than 2 * DV at position n + k - 1. */
  lemma SquareBound(w: seq<int>, x: seq<int>, k: nat, n: nat, top: nat, v: int)
    requires 0 < k <= n <= |x| && AreDigits(x, 0, n) && top == n + k - 1 && AreDigits(w, 0, top)
    requires Sum(w, 0, top) + Term(v, top) == SquarePart(Sum(x, 0, n), Sum(x, 0, k))
    ensures v < 2 * DV && (k == n ==> v < DV)
  {
    hide Pow;
    var S, X := Sum(x, 0, k), Sum(x, 0, n);
    SumBound(x, 0, k);
    SumBound(x, 0, n);
    SumBound(w, 0, top);
    SumPrefix(x, k, n);
    WeightAdd(k, n);
    TermSmall(top + 1);
    PartFactors(X, S);
    hide SquarePart;
    if k == n {
      if v >= DV { TermMono(DV, v, top); TermUp(1, top); ProductBound(X, W(n), X, W(n)); ProductGap(W(n), W(n)); }
    } else if v >= 2 * DV {
      TermMono(2 * DV, v, top);
      TermUp(2, top);
      TermAdd(1, 1, top + 1);
      ProductBound(S, W(k), 2 * X - S, 2 * W(n));
      ProductGap(W(k), 2 * W(n));
      TwiceProduct(W(k), W(n));
    }
  }

  lemma PartFactors(X: int, S: int)
    ensures SquarePart(X, S) == S * (2 * X - S)
  {
    assert (X - S) * (X - S) == X * X - 2 * (X * S) + S * S;
    assert S * (2 * X - S) == 2 * (X * S) - S * S;
  }

  lemma TwiceProduct(a: int, b: int)
    ensures a * (2 * b) == 2 * (a * b)
  {}

  lemma ProductGap(a: int, b: int)
    requires a > 0 && b > 0
    ensures (a - 1) * (b - 1) < a * b
  {
    assert (a - 1) * (b - 1) == a * b - a - b + 1;
  }

  lemma SquareAlgebra(X: int, S: int, d: int, w: int, w2: int, V: int)
    requires X - S == d * w + V && w2 == w * w
    ensures SquarePart(X, S + d * w) == SquarePart(X, S) + w2 * (d * d) + (2 * d) * (w * V)
  {
    var a := d * w;
    assert (a + V) * (a + V) == a * a + 2 * (a * V) + V * V;
    assert a * a == w2 * (d * d) by { Regroup(d, w, d, w); assert (d * d) * (w * w) == w2 * (d * d); }
    assert 2 * (a * V) == (2 * d) * (w * V);
  }

  lemma CarryBound(x: int, d: int, w: int, c: int, c': int, d': int)
    requires 0 <= x < 2 * DV && 0 <= d < DV && 0 <= w < DV && 0 <= c < 3 * DV
    requires c' * DV + d' == x * d + w + c && 0 <= d' < DV
    ensures 0 <= c' <= 2 * DV && (x < DV && c < DV ==> c' < DV)
  {
    ProductBound(x, 2 * DV, d, DV);
    if x < DV { ProductBound(x, DV, d, DV); }
  }
}
