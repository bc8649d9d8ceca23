/** What the splay benchmark does to the keys of the tree (splay.js:356-404), whatever the tree looks like. */
module SplayRounds {

  predicate Ascending(keys: seq<int>) {
    forall i, j | 0 <= i < j < |keys| :: keys[i] < keys[j]
  }

  /** k lies between the keys before position i and those from there on. */
  predicate Between(keys: seq<int>, i: int, k: int) {
    && 0 <= i <= |keys|
    && (forall j | 0 <= j < i :: keys[j] < k)
    && (forall j | i <= j < |keys| :: k < keys[j])
  }

  /** The number of leading keys below k. */
  function Below(keys: seq<int>, k: int): (i: nat)
    ensures i <= |keys|
  {
    if keys == [] || keys[0] >= k then 0 else 1 + Below(keys[1..], k)
  }

  lemma {:induction false} BelowIs(keys: seq<int>, i: int, k: int)
    requires Between(keys, i, k)
    ensures Below(keys, k) == i
  {
    if i > 0 { BelowIs(keys[1..], i - 1, k); }
  }

  lemma {:induction false} BelowBetween(keys: seq<int>, k: int)
    requires Ascending(keys) && k !in keys
    ensures Between(keys, Below(keys, k), k)
  {
    if keys != [] && keys[0] < k {
      var rest := keys[1..];
      BelowBetween(rest, k);
      forall j | 0 <= j < |keys| ensures if j < Below(keys, k) then keys[j] < k else k < keys[j] {
        if j > 0 { assert keys[j] == rest[j - 1]; }
      }
    }
  }

  function WithKey(keys: seq<int>, k: int): seq<int> {
    var i := Below(keys, k);
    keys[..i] + [k] + keys[i..]
  }

  /** One round: the new key takes the place of its predecessor; without a predecessor it goes out again. */
  function Round(keys: seq<int>, k: int): seq<int> {
    var i := Below(keys, k);
    if i == 0 then keys else keys[i - 1 := k]
  }

  /** The position of the first draw from pos on that is not yet a key. */
  function FirstNew(keys: seq<int>, draws: seq<int>, pos: nat): nat
    requires pos <= |draws|
    decreases |draws| - pos
  {
    if pos < |draws| && draws[pos] in keys then FirstNew(keys, draws, pos + 1) else pos
  }

  lemma {:induction false} FirstNewIs(keys: seq<int>, draws: seq<int>, pos: nat, q: nat)
    requires pos <= q <= |draws| && (forall j | pos <= j < q :: draws[j] in keys) && (q < |draws| ==> draws[q] !in keys)
    ensures FirstNew(keys, draws, pos) == q
    decreases q - pos
  {
    if pos < q { FirstNewIs(keys, draws, pos + 1, q); }
  }

  lemma {:induction false} FirstNewExists(keys: seq<int>, draws: seq<int>, pos: nat)
    requires pos <= |draws|
    ensures var q := FirstNew(keys, draws, pos);
      pos <= q <= |draws| && (forall j | pos <= j < q :: draws[j] in keys) && (q < |draws| ==> draws[q] !in keys)
    decreases |draws| - pos
  {
    if pos < |draws| && draws[pos] in keys { FirstNewExists(keys, draws, pos + 1); }
  }

  /** The keys in the tree and how many draws are used up, or that the draws ran out. */
  datatype Play = Stuck | Going(keys: seq<int>, pos: nat)

  /** n keys are put into the empty tree. */
  function Filled(draws: seq<int>, n: nat): (p: Play)
    ensures p.Going? ==> p.pos <= |draws|
  {
    if n == 0 then Going([], 0) else
      match Filled(draws, n - 1)
      case Stuck => Stuck
      case Going(keys, pos) =>
        FirstNewExists(keys, draws, pos);
        var q := FirstNew(keys, draws, pos);
        if q == |draws| then Stuck else Going(WithKey(keys, draws[q]), q + 1)
  }

  /** n rounds on a tree of the given size. */
  function Played(draws: seq<int>, size: nat, n: nat): (p: Play)
    ensures p.Going? ==> p.pos <= |draws|
  {
    if n == 0 then Filled(draws, size) else
      match Played(draws, size, n - 1)
      case Stuck => Stuck
      case Going(keys, pos) =>
        FirstNewExists(keys, draws, pos);
        var q := FirstNew(keys, draws, pos);
        if q == |draws| then Stuck else Going(Round(keys, draws[q]), q + 1)
  }

  lemma WithKeyHas(keys: seq<int>, k: int)
    requires Ascending(keys) && k !in keys
    ensures Ascending(WithKey(keys, k)) && |WithKey(keys, k)| == |keys| + 1
    ensures forall x :: x in WithKey(keys, k) <==> x == k || x in keys
  {
    BelowBetween(keys, k);
    var i := Below(keys, k);
    assert keys == keys[..i] + keys[i..];
  }

  /** The keys after setup are the values drawn until then, each once; setup succeeds exactly if there
      are enough different draws. */
  lemma {:induction false} FilledExactly(draws: seq<int>, n: nat)
    ensures Filled(draws, n).Going? <==> n <= |set x | x in draws|
    ensures match Filled(draws, n)
      case Stuck => true
      case Going(keys, pos) => Ascending(keys) && |keys| == n && forall x :: x in keys <==> x in draws[..pos]
    decreases n
  {
    if n > 0 {
      FilledExactly(draws, n - 1);
      match Filled(draws, n - 1)
      case Stuck =>
      case Going(keys, pos) => FillsOn(draws, keys, pos);
    }
  }

  /** One more key: the first draw that is not among the keys, which are the draws so far. */
  lemma FillsOn(draws: seq<int>, keys: seq<int>, pos: nat)
    requires Ascending(keys) && pos <= |draws| && forall x :: x in keys <==> x in draws[..pos]
    ensures var q := FirstNew(keys, draws, pos);
      if q == |draws| then |set x | x in draws| == |keys|
      else
        && q < |draws| && |set x | x in draws| > |keys|
        && Ascending(WithKey(keys, draws[q])) && |WithKey(keys, draws[q])| == |keys| + 1
        && forall x :: x in WithKey(keys, draws[q]) <==> x in draws[..q + 1]
  {
    hide FirstNew;
    FirstNewExists(keys, draws, pos);
    var q := FirstNew(keys, draws, pos);
    DrawsUntil(keys, draws, pos, q);
    CountDraws(keys, draws, q);
    if q < |draws| {
      WithKeyHas(keys, draws[q]);
      hide WithKey;
      hide Ascending;
      OneMore(draws, q);
    }
  }

  lemma OneMore(draws: seq<int>, q: nat)
    requires q < |draws|
    ensures forall x :: x in draws[..q + 1] <==> x in draws[..q] || x == draws[q]
  {
    assert draws[..q + 1] == draws[..q] + [draws[q]];
  }

  lemma CountDraws(keys: seq<int>, draws: seq<int>, q: nat)
    requires Ascending(keys) && q <= |draws| && (forall x :: x in keys <==> x in draws[..q])
    ensures q == |draws| ==> |set x | x in draws| == |keys|
    ensures q < |draws| && draws[q] !in keys ==> |set x | x in draws| > |keys|
  {
    var some, all := (set x | x in keys), (set x | x in draws);
    CountAscending(keys);
    hide Ascending;
    if q == |draws| {
      assert draws[..q] == draws;
      assert some == all;
    } else if draws[q] !in keys {
      assert some + {draws[q]} <= all && draws[q] !in some;
      SubsetSize(some + {draws[q]}, all);
    }
  }

  lemma DrawsUntil(keys: seq<int>, draws: seq<int>, pos: nat, q: nat)
    requires pos <= q <= |draws| && (forall x :: x in keys <==> x in draws[..pos]) && forall j | pos <= j < q :: draws[j] in keys
    ensures forall x :: x in keys <==> x in draws[..q]
  {
    assert draws[..q] == draws[..pos] + draws[pos..q];
  }

  lemma {:induction false} CountAscending(keys: seq<int>)
    requires Ascending(keys)
    ensures |set x | x in keys| == |keys|
  {
    if keys != [] {
      CountAscending(keys[1..]);
      assert (set x | x in keys) == {keys[0]} + set x | x in keys[1..];
    }
  }

  lemma {:induction false} SubsetSize<T>(a: set<T>, b: set<T>)
    requires a <= b
    ensures |a| <= |b|
  {
    if a != {} {
      var x :| x in a;
      SubsetSize(a - {x}, b - {x});
    }
  }

  predicate GreatestBelow(keys: seq<int>, k: int, g: int) {
    g in keys && g < k && forall x | x in keys && x < k :: x <= g
  }

  /** A round exchanges the greatest key below the new one, if there is one, for the new one. */
  lemma RoundExchanges(keys: seq<int>, k: int)
    requires Ascending(keys) && k !in keys
    ensures Ascending(Round(keys, k)) && |Round(keys, k)| == |keys|
    ensures (forall x | x in keys :: x > k) ==> Round(keys, k) == keys
    ensures forall g | GreatestBelow(keys, k, g) :: forall x :: x in Round(keys, k) <==> x == k || (x in keys && x != g)
    ensures forall j | 0 <= j < |keys| :: keys[j] <= Round(keys, k)[j]
  {
    BelowBetween(keys, k);
    var i := Below(keys, k);
    hide Below;
    if i > 0 {
      assert keys[i - 1] in keys && keys[i - 1] < k;
      forall g | GreatestBelow(keys, k, g) ensures forall x :: x in Round(keys, k) <==> x == k || (x in keys && x != g) {
        var j :| 0 <= j < |keys| && keys[j] == g;
        assert j == i - 1;
        OneChanged(keys, i - 1, k);
      }
    } else {
      assert forall g | g in keys :: g > k;
    }
  }

  lemma OneChanged(keys: seq<int>, i: nat, k: int)
    requires Ascending(keys) && i < |keys|
    ensures forall x :: x in keys[i := k] <==> x == k || (x in keys && x != keys[i])
  {
    var keys' := keys[i := k];
    assert keys'[i] == k;
    forall x ensures x in keys' <==> x == k || (x in keys && x != keys[i]) {
      if x in keys && x != keys[i] {
        var j :| 0 <= j < |keys| && keys[j] == x;
        assert keys'[j] == x;
      }
    }
  }

  /** Over any number of rounds the tree keeps its size, holds only keys that were drawn, and its i-th
      least key never gets smaller. */
  lemma {:induction false} RoundsGrow(draws: seq<int>, size: nat, m: nat, n: nat)
    requires m <= n && Played(draws, size, n).Going?
    ensures Played(draws, size, m).Going?
    ensures var (p, p') := (Played(draws, size, m), Played(draws, size, n));
      && |p.keys| == |p'.keys| == size && Ascending(p'.keys) && p.pos + n - m <= p'.pos
      && (forall x | x in p'.keys :: x in draws[..p'.pos])
      && forall j | 0 <= j < size :: p.keys[j] <= p'.keys[j]
    decreases n
  {
    hide Ascending;
    hide Filled;
    hide FirstNew;
    hide Round;
    if n == 0 {
      FilledExactly(draws, size);
    } else {
      RoundsGrow(draws, size, if m == n then n - 1 else m, n - 1);
      NextRound(draws, size, n - 1);
    }
  }

  lemma StuckStays(draws: seq<int>, size: nat, m: nat, n: nat)
    requires m <= n && Played(draws, size, m).Stuck?
    ensures Played(draws, size, n).Stuck?
  {
    if Played(draws, size, n).Going? { RoundsGrow(draws, size, m, n); }
  }

  lemma NotFilled(draws: seq<int>)
    ensures Filled(draws, 0) == Going([], 0)
  {}

  lemma NotPlayed(draws: seq<int>, size: nat)
    ensures Played(draws, size, 0) == Filled(draws, size)
  {}

  lemma NextRound(draws: seq<int>, size: nat, n: nat)
    requires Played(draws, size, n + 1).Going? && Played(draws, size, n).Going?
    requires var p := Played(draws, size, n);
      |p.keys| == size && Ascending(p.keys) && forall x | x in p.keys :: x in draws[..p.pos]
    ensures var (p, p') := (Played(draws, size, n), Played(draws, size, n + 1));
      && |p'.keys| == size && Ascending(p'.keys) && p.pos < p'.pos
      && (forall x | x in p'.keys :: x in draws[..p'.pos])
      && forall j | 0 <= j < size :: p.keys[j] <= p'.keys[j]
  {
    var p := Played(draws, size, n);
    FirstNewExists(p.keys, draws, p.pos);
    var q := FirstNew(p.keys, draws, p.pos);
    RoundExchanges(p.keys, draws[q]);
    forall x | x in Round(p.keys, draws[q]) ensures x in draws[..q + 1] {
      if x in p.keys {
        var j :| 0 <= j < p.pos && draws[..p.pos][j] == x;
        assert draws[..q + 1][j] == x;
      } else {
        assert draws[..q + 1][q] == x;
      }
    }
  }

  predicate Different(draws: seq<int>) {
    forall i, j | 0 <= i < j < |draws| :: draws[i] != draws[j]
  }

  /** If no draw comes twice, every one is used, and only their number matters. */
  lemma {:induction false} DifferentDraws(draws: seq<int>, size: nat, n: nat)
    requires Different(draws)
    ensures Played(draws, size, n).Going? <==> size + n <= |draws|
    ensures Played(draws, size, n).Going? ==> Played(draws, size, n).pos == size + n
    decreases n
  {
    hide Different;
    hide Filled;
    hide FirstNew;
    if n == 0 {
      DifferentFilled(draws, size);
    } else {
      DifferentDraws(draws, size, n - 1);
      var p := Played(draws, size, n - 1);
      if p.Going? {
        RoundsGrow(draws, size, n - 1, n - 1);
        hide Ascending;
        UnusedNext(p.keys, draws, p.pos);
      }
    }
  }

  lemma {:induction false} DifferentFilled(draws: seq<int>, size: nat)
    requires Different(draws)
    ensures Filled(draws, size).Going? <==> size <= |draws|
    ensures Filled(draws, size).Going? ==> Filled(draws, size).pos == size
    decreases size
  {
    hide Different;
    hide FirstNew;
    if size > 0 {
      DifferentFilled(draws, size - 1);
      FilledExactly(draws, size - 1);
      hide Ascending;
      var p := Filled(draws, size - 1);
      if p.Going? { UnusedNext(p.keys, draws, p.pos); }
    }
  }

  lemma NotBefore(draws: seq<int>, pos: nat)
    requires pos < |draws| && Different(draws)
    ensures draws[pos] !in draws[..pos]
  {}

  lemma UnusedNext(keys: seq<int>, draws: seq<int>, pos: nat)
    requires pos <= |draws| && Different(draws) && forall x | x in keys :: x in draws[..pos]
    ensures FirstNew(keys, draws, pos) == pos
  {
    if pos < |draws| {
      var next := draws[pos];
      NotBefore(draws, pos);
      assert next !in keys;
    }
  }
}
