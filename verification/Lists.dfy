/** The list test of the Scheme runtime (earley-boyer.js:1151-1169), which follows the links of pairs
    with one pointer twice as fast as the other. */
module Lists {

  datatype Value = Null | PairOf(pair: Pair) | Atom

  class Pair {
    var car: Value
    var cdr: Value

    constructor (car: Value, cdr: Value)
      ensures this.car == car && this.cdr == cdr
    {
      this.car, this.cdr := car, cdr;
    }
  }

  /** The pairs that can be reached are among those of the heap. */
  ghost predicate Closed(o: Value, heap: set<Pair>)
    reads heap
  {
    (o.PairOf? ==> o.pair in heap) && forall p | p in heap && p.cdr.PairOf? :: p.cdr.pair in heap
  }

  /** What is reached after n links; the end of a chain is not left. */
  ghost function Nth(o: Value, n: nat, heap: set<Pair>): (v: Value)
    requires Closed(o, heap)
    reads heap
    ensures Closed(v, heap)
  {
    if n == 0 then o
    else
      var v := Nth(o, n - 1, heap);
      if v.PairOf? then v.pair.cdr else v
  }

  ghost predicate PairsBelow(o: Value, n: nat, heap: set<Pair>)
    requires Closed(o, heap)
    reads heap
  {
    forall m | 0 <= m < n :: Nth(o, m, heap).PairOf?
  }

  ghost predicate EndsAt(o: Value, n: nat, heap: set<Pair>)
    requires Closed(o, heap)
    reads heap
  {
    Nth(o, n, heap) == Null
  }

  lemma {:induction false} StaysAt(o: Value, m: nat, n: nat, heap: set<Pair>)
    requires Closed(o, heap) && m <= n && !Nth(o, m, heap).PairOf?
    ensures Nth(o, n, heap) == Nth(o, m, heap)
    decreases n
  {
    if m < n { StaysAt(o, m, n - 1, heap); }
  }

  /** Once a pair is met again, the chain goes round for ever. */
  lemma {:induction false} Periodic(o: Value, i: nat, p: nat, n: nat, heap: set<Pair>)
    requires Closed(o, heap) && i <= n && Nth(o, i, heap) == Nth(o, i + p, heap)
    ensures Nth(o, n, heap) == Nth(o, n + p, heap)
    decreases n
  {
    if i < n { Periodic(o, i, p, n - 1, heap); }
  }

  lemma {:induction false} PeriodicTimes(o: Value, i: nat, p: nat, n: nat, t: nat, heap: set<Pair>)
    requires Closed(o, heap) && i <= n && Nth(o, i, heap) == Nth(o, i + p, heap)
    ensures Nth(o, n, heap) == Nth(o, n + p * t, heap)
    decreases t
  {
    if t > 0 {
      PeriodicTimes(o, i, p, n, t - 1, heap);
      assert n + p * (t - 1) + p == n + p * t;
      Periodic(o, i, p, n + p * (t - 1), heap);
    }
  }

  lemma {:induction false} NeverEnds(o: Value, i: nat, p: nat, n: nat, heap: set<Pair>)
    requires Closed(o, heap) && p > 0 && Nth(o, i, heap) == Nth(o, i + p, heap) && Nth(o, i, heap).PairOf?
    ensures Nth(o, n, heap).PairOf?
  {
    if !Nth(o, n, heap).PairOf? {
      PeriodicTimes(o, i, p, i, n, heap);
      MulGrows(p, n);
      StaysAt(o, n, i + p * n, heap);
    }
  }

  lemma MulGrows(p: nat, n: nat)
    requires p > 0
    ensures p * n >= n
  {}

  /** More pairs than there are have one twice among them. */
  lemma {:induction false} Pigeonhole(s: seq<Pair>, heap: set<Pair>) returns (i: nat, j: nat)
    requires |s| > |heap| && forall k | 0 <= k < |s| :: s[k] in heap
    ensures i < j < |s| && s[i] == s[j]
    decreases |s|
  {
    var n := |s| - 1;
    if x: nat :| x < n && s[x] == s[n] {
      i, j := x, n;
    } else {
      i, j := Pigeonhole(s[..n], heap - {s[n]});
    }
  }

  /** The first n pairs. */
  ghost function Passed(o: Value, n: nat, heap: set<Pair>): (s: seq<Pair>)
    requires Closed(o, heap) && PairsBelow(o, n, heap)
    reads heap
    ensures |s| == n && forall k | 0 <= k < n :: s[k] in heap && PairOf(s[k]) == Nth(o, k, heap)
  {
    if n == 0 then [] else
      assert Nth(o, n - 1, heap).PairOf?;
      Passed(o, n - 1, heap) + [Nth(o, n - 1, heap).pair]
  }

  /** A bound on the number of steps of the slow pointer. */
  lemma Bound(o: Value, heap: set<Pair>) returns (b: nat)
    requires Closed(o, heap)
    ensures b > 0 && (Nth(o, b, heap) == Nth(o, 2 * b, heap) || !PairsBelow(o, b, heap))
  {
    var n := |heap| + 1;
    if PairsBelow(o, n, heap) {
      var i, j := Pigeonhole(Passed(o, n, heap), heap);
      var p := j - i;
      b := p * (i + 1);
      MulGrows(p, i + 1);
      PeriodicTimes(o, i, p, b, i + 1, heap);
    } else {
      b := n;
    }
  }

  /** Ends on every heap, and tells the chains that end in null from all others. */
  method IsList(o: Value, ghost heap: set<Pair>) returns (r: bool)
    requires Closed(o, heap)
    ensures r <==> exists n :: EndsAt(o, n, heap)
  {
    var rabbit, turtle := o, o;
    ghost var k: nat := 0;
    ghost var b := Bound(o, heap);
    while true
      invariant k < b && rabbit == Nth(o, 2 * k, heap) && turtle == Nth(o, k, heap) && PairsBelow(o, 2 * k, heap)
      decreases b - k
    {
      assert rabbit.PairOf? ==> rabbit.pair.cdr == Nth(o, 2 * k + 1, heap);
      if rabbit == Null || (rabbit.PairOf? && rabbit.pair.cdr == Null) {
        assert EndsAt(o, if rabbit == Null then 2 * k else 2 * k + 1, heap);
        return true;
      } else if rabbit.PairOf? && rabbit.pair.cdr.PairOf? {
        rabbit := rabbit.pair.cdr.pair.cdr;
        assert PairsBelow(o, 2 * k + 2, heap);
        assert turtle == Nth(o, k, heap) && turtle.PairOf?;
        turtle := turtle.pair.cdr;
        k := k + 1;
        if rabbit == turtle {
          forall n ensures !EndsAt(o, n, heap) { NeverEnds(o, k, k, n, heap); }
          return false;
        }
      } else {
        AtomNeverNull(o, if rabbit.PairOf? then 2 * k + 1 else 2 * k, heap);
        return false;
      }
    }
  }

  lemma AtomNeverNull(o: Value, m: nat, heap: set<Pair>)
    requires Closed(o, heap) && Nth(o, m, heap) == Atom
    ensures forall n :: !EndsAt(o, n, heap)
  {
    forall n: nat ensures !EndsAt(o, n, heap) {
      if n <= m {
        if EndsAt(o, n, heap) { StaysAt(o, n, m, heap); }
      } else {
        StaysAt(o, m, n, heap);
      }
    }
  }
}
