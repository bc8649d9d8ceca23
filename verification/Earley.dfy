/** The chart parser (earley-boyer.js:4568-4738). For each position in the input a state keeps, for
    each configuration, the set of positions where it started, as a list threaded through a vector. */
module Earley {
  import opened EarleyGrammar

  const NONE := -2  // stands for #f in a vector

  ghost predicate NoDup(s: seq<nat>) {
    forall i, j | 0 <= i < j < |s| :: s[i] != s[j]
  }

  function First(s: seq<nat>): int {
    if s == [] then -1 else s[0]
  }

  /** The elements of s are linked in their order, the last one to -1. */
  ghost predicate Threaded(v: seq<int>, s: seq<nat>) {
    forall k | 0 <= k < |s| :: ThreadedAt(v, s, k)
  }

  ghost predicate ThreadedAt(v: seq<int>, s: seq<nat>, k: nat)
    requires k < |s|
  {
    s[k] + 5 < |v| && v[s[k] + 5] == if k + 1 < |s| then s[k + 1] else -1
  }

  ghost predicate Apart(s: seq<nat>, t: seq<nat>) {
    forall x | x in s :: x !in t
  }

  lemma NoDupJoin(s: seq<nat>, t: seq<nat>)
    requires NoDup(s) && NoDup(t) && Apart(s, t)
    ensures NoDup(s + t) && forall x :: x in s + t <==> x in s || x in t
  {
    forall i, j | 0 <= i < j < |s + t| ensures (s + t)[i] != (s + t)[j] {
      if i < |s| <= j { assert s[i] in s && t[j - |s|] in t; }
    }
  }

  /** A configuration set of state num. Slot 0 links the worklist, slots 1 and 2 are the tail and the
      head of the merged elements, slots 3 and 4 those of the recent ones, slot i + 5 is the link of
      element i. The tail of an empty list is such that its head is what gets linked next. */
  ghost predicate SetOk(v: seq<int>, merged: seq<nat>, recent: seq<nat>, num: nat) {
    && |v| == num + 6 && NoDup(merged) && NoDup(recent) && Apart(merged, recent)
    && v[1] == (if merged == [] then -3 else merged[|merged| - 1]) && v[2] == First(merged)
    && v[3] == (if recent == [] then -1 else recent[|recent| - 1]) && v[4] == First(recent)
    && Threaded(v, merged) && Threaded(v, recent)
    && forall i | 0 <= i <= num :: v[i + 5] == NONE <==> i !in merged && i !in recent
  }

  function EmptySet(num: nat): (v: seq<int>)
    ensures SetOk(v, [], [], num)
  {
    [NONE, -3, -1, -1, -1] + seq(num + 1, _ => NONE)
  }

  lemma ThreadedSame(v: seq<int>, w: seq<int>, s: seq<nat>)
    requires Threaded(v, s) && |w| == |v| && forall x | x in s :: x + 5 < |v| ==> w[x + 5] == v[x + 5]
    ensures Threaded(w, s)
  {
    forall k | 0 <= k < |s| ensures ThreadedAt(w, s, k) { assert ThreadedAt(v, s, k) && s[k] in s; }
  }

  /** Two lists become one when the last link of the first one leads to the second one. */
  lemma ThreadedJoin(v: seq<int>, w: seq<int>, s: seq<nat>, t: seq<nat>)
    requires Threaded(v, s) && Threaded(w, t) && |w| == |v| && NoDup(s) && s != [] && t != []
    requires s[|s| - 1] + 5 < |v| && w[s[|s| - 1] + 5] == t[0]
    requires forall x | x in s && x != s[|s| - 1] :: x + 5 < |v| ==> w[x + 5] == v[x + 5]
    ensures Threaded(w, s + t)
  {
    var u := s + t;
    forall k | 0 <= k < |u| ensures ThreadedAt(w, u, k) {
      if k < |s| {
        assert ThreadedAt(v, s, k) && s[k] in s;
      } else {
        assert ThreadedAt(w, t, k - |s|);
      }
    }
  }

  // conf-set-adjoin, without the worklist
  function Adjoined(v: seq<int>, i: nat): seq<int>
    requires i + 5 < |v| && -1 <= v[3] < |v| - 5
  {
    v[i + 5 := -1][v[3] + 5 := i][3 := i]
  }

  lemma AdjoinedOk(v: seq<int>, merged: seq<nat>, recent: seq<nat>, num: nat, i: nat)
    requires SetOk(v, merged, recent, num) && i <= num && v[i + 5] == NONE
    ensures -1 <= v[3] < |v| - 5 && SetOk(Adjoined(v, i), merged, recent + [i], num)
  {
    assert recent != [] ==> ThreadedAt(v, recent, |recent| - 1) && recent[|recent| - 1] in recent;
    var w := Adjoined(v, i);
    NoDupJoin(recent, [i]);
    hide NoDup;
    ThreadedSame(v, w, merged);
    assert Threaded(w, [i]) by { assert ThreadedAt(w, [i], 0); }
    if recent == [] { assert recent + [i] == [i]; } else { ThreadedJoin(v, w, recent, [i]); }
  }

  lemma LinkSlot(v: seq<int>, merged: seq<nat>, recent: seq<nat>, num: nat, link: int)
    requires SetOk(v, merged, recent, num)
    ensures SetOk(v[0 := link], merged, recent, num)
  {
    ThreadedSame(v, v[0 := link], merged);
    ThreadedSame(v, v[0 := link], recent);
  }

  // conf-set-merge-new!
  function Merged(v: seq<int>): seq<int>
    requires |v| >= 6 && -3 <= v[1] < |v| - 5
  {
    v[v[1] + 5 := v[4]][1 := v[3]][3 := -1][4 := -1]
  }

  lemma MergedOk(v: seq<int>, merged: seq<nat>, recent: seq<nat>, num: nat)
    requires SetOk(v, merged, recent, num) && recent != []
    ensures -3 <= v[1] < |v| - 5 && SetOk(Merged(v), merged + recent, [], num)
  {
    assert merged != [] ==> ThreadedAt(v, merged, |merged| - 1) && merged[|merged| - 1] in merged;
    assert ThreadedAt(v, recent, 0);
    var w := Merged(v);
    NoDupJoin(merged, recent);
    hide NoDup;
    ThreadedSame(v, w, recent);
    var all := merged + recent;
    if merged == [] { assert all == recent; } else { ThreadedJoin(v, w, merged, recent); }
    assert Threaded(w, []);
    hide Threaded;
    hide ThreadedAt;
    assert all[|all| - 1] == recent[|recent| - 1] && all[0] == if merged == [] then recent[0] else merged[0];
  }

  // ---------- states ----------

  /** A grammar with its tables, and an input. */
  datatype Context = Context(g: Tables, rules: seq<Rule>, items: seq<Item>, starts: seq<nat>, toks: Tokens)

  ghost predicate Proper(cx: Context) {
    TablesOf(cx.g, cx.rules, cx.items) && ListsAll(cx.g, cx.rules, cx.items, cx.starts) && |cx.starts| == |cx.rules|
  }

  class State {
    const num: nat
    var head: int             // the first configuration of the worklist, or -1
    var sets: seq<seq<int>>   // a vector for each configuration, [] if it has none yet
    ghost var merged: seq<seq<nat>>
    ghost var recent: seq<seq<nat>>
    ghost var work: seq<nat>

    constructor (num: nat, confs: nat)
      ensures Valid() && this.num == num && |sets| == confs
      ensures forall c | 0 <= c < confs :: merged[c] == [] && recent[c] == []
    {
      this.num := num;
      head, sets, work := -1, seq(confs, _ => []), [];
      merged, recent := seq(confs, _ => []), seq(confs, _ => []);
    }

    ghost predicate ConfOk(c: nat)
      requires c < |sets| == |merged| == |recent|
      reads this
    {
      if sets[c] == [] then merged[c] == [] && recent[c] == [] else SetOk(sets[c], merged[c], recent[c], num)
    }

    ghost predicate WorkAt(k: nat)
      requires k < |work|
      reads this
    {
      && work[k] < |sets| && sets[work[k]] != []
      && sets[work[k]][0] == if k + 1 < |work| then work[k + 1] else -1
    }

    /** The worklist holds the configurations with recent elements, each once. */
    ghost predicate Valid()
      reads this
    {
      && |sets| == |merged| == |recent| && (forall c | 0 <= c < |sets| :: ConfOk(c))
      && head == First(work) && NoDup(work) && (forall k | 0 <= k < |work| :: WorkAt(k))
      && forall c | 0 <= c < |sets| :: c in work <==> recent[c] != []
    }

    // is element i in the set of configuration c
    predicate Has(c: nat, i: nat)
      requires Valid() && c < |sets| && i <= num
      reads this
      ensures Has(c, i) <==> i in merged[c] || i in recent[c]
    {
      assert ConfOk(c);
      sets[c] != [] && sets[c][i + 5] != NONE
    }

    // conf-set-get*
    method Get(c: nat)
      requires Valid() && c < |sets|
      modifies `sets
      ensures Valid() && |sets| == |old(sets)| && sets[c] != [] && forall d | 0 <= d < |sets| && d != c :: sets[d] == old(sets)[d]
      ensures old(sets)[c] != [] ==> sets == old(sets)
    {
      assert ConfOk(c);
      if sets[c] == [] {
        sets := sets[c := EmptySet(num)];
        forall d | 0 <= d < |sets| ensures ConfOk(d) { assert old(ConfOk(d)); }
        forall k | 0 <= k < |work| ensures WorkAt(k) { assert old(WorkAt(k)); }
      }
    }

    // conf-set-adjoin: a configuration that had no recent elements joins the worklist
    method Adjoin(c: nat, i: nat)
      requires Valid() && c < |sets| && sets[c] != [] && i <= num && !Has(c, i)
      modifies `head, `sets, `recent, `work
      ensures Valid() && |sets| == |old(sets)| && recent == old(recent)[c := old(recent)[c] + [i]]
    {
      assert ConfOk(c);
      AdjoinedOk(sets[c], merged[c], recent[c], num, i);
      var tail := sets[c][3];
      sets := sets[c := Adjoined(sets[c], i)];
      if tail < 0 {
        LinkSlot(sets[c], merged[c], recent[c] + [i], num, head);
        sets := sets[c := sets[c][0 := head]];
        head := c;
        work := [c] + work;
      }
      recent := recent[c := recent[c] + [i]];
      forall d | 0 <= d < |sets| ensures ConfOk(d) { assert old(ConfOk(d)); }
      forall k | 0 <= k < |work| ensures WorkAt(k) {
        if tail < 0 { assert k > 0 ==> old(WorkAt(k - 1)); } else { assert old(WorkAt(k)); }
      }
    }

    // the first configuration of the worklist leaves it, its recent elements now being merged
    method Pop() returns (conf: nat, first: int)
      requires Valid() && head >= 0
      modifies `head, `sets, `merged, `recent, `work
      ensures Valid() && |sets| == |old(sets)| && conf < |sets| && conf == old(head) && sets[conf] != []
      ensures old(recent)[conf] != [] && first == old(recent)[conf][0]
      ensures merged == old(merged)[conf := old(merged)[conf] + old(recent)[conf]] && recent == old(recent)[conf := []]
    {
      conf := head;
      assert WorkAt(0) && ConfOk(conf);
      first := sets[conf][4];
      head := sets[conf][0];
      MergedOk(sets[conf], merged[conf], recent[conf], num);
      sets := sets[conf := Merged(sets[conf])];
      merged := merged[conf := merged[conf] + recent[conf]];
      recent := recent[conf := []];
      work := work[1..];
      forall d | 0 <= d < |sets| ensures ConfOk(d) { assert old(ConfOk(d)); }
      forall k | 0 <= k < |work| ensures WorkAt(k) { assert old(WorkAt(k + 1)); }
    }

    ghost predicate InSet(c: nat, i: nat)
      reads this
    {
      c < |merged| && c < |recent| && (i in merged[c] || i in recent[c])
    }

    /** Whatever is recorded is so: the symbols before the dot derive the tokens in between. */
    ghost predicate Sound(cx: Context)
      reads this
    {
      |merged| == |recent| == |cx.items| && forall c: nat, i: nat | InSet(c, i) :: Spans(cx.rules, cx.toks, cx.items[c], i, num)
    }

    // conf-set-adjoin, unless the element is there already
    method Record(c: nat, i: nat, ghost cx: Context)
      requires Valid() && c < |sets| && sets[c] != [] && i <= num
      requires Sound(cx) && Spans(cx.rules, cx.toks, cx.items[c], i, num)
      modifies `head, `sets, `recent, `work
      ensures Valid() && Sound(cx) && |sets| == |old(sets)| && InSet(c, i) && sets[c] != []
      ensures recent == old(recent) || recent == old(recent)[c := old(recent)[c] + [i]]
      ensures old(InSet(c, i)) ==> recent == old(recent)
    {
      if !Has(c, i) {
        assert ConfOk(c);
        Adjoin(c, i);
        forall d: nat, x: nat | InSet(d, x) ensures Spans(cx.rules, cx.toks, cx.items[d], x, num) {
          assert old(InSet(d, x)) || (d == c && x == i);
        }
        assert ConfOk(c);
      }
    }

    // conf-set-union with the merged elements m of vector v
    method Union(c: nat, v: seq<int>, ghost m: seq<nat>, ghost cx: Context)
      requires Valid() && c < |sets| && sets[c] != [] && Sound(cx)
      requires Threaded(v, m) && |v| > 2 && v[2] == First(m)
      requires forall x | x in m :: x <= num && Spans(cx.rules, cx.toks, cx.items[c], x, num)
      modifies `head, `sets, `recent, `work
      ensures Valid() && Sound(cx) && |sets| == |old(sets)| && forall x | x in m :: InSet(c, x)
      ensures old(recent)[c] <= recent[c] && forall d | 0 <= d < |recent| && d != c :: recent[d] == old(recent)[d]
    {
      var i := v[2];
      ghost var k := 0;
      while i >= 0
        invariant k <= |m| && i == First(m[k..]) && Valid() && |sets| == |old(sets)| && sets[c] != [] && Sound(cx)
        invariant forall j | 0 <= j < k :: InSet(c, m[j])
        invariant old(recent)[c] <= recent[c] && forall d | 0 <= d < |recent| && d != c :: recent[d] == old(recent)[d]
        decreases |m| - k
      {
        assert m[k] == i && m[k] in m && ThreadedAt(v, m, k);
        Record(c, i, cx);
        i := v[i + 5];
        k := k + 1;
      }
    }

    ghost predicate HasAll(l: seq<nat>, i: nat)
      reads this
    {
      forall c | c in l :: InSet(c, i)
    }

    lemma InRange(c: nat, x: nat)
      requires Valid() && InSet(c, x)
      ensures x <= num && sets[c] != []
    {
      assert ConfOk(c);
      if x in merged[c] {
        var k :| 0 <= k < |merged[c]| && merged[c][k] == x;
        assert ThreadedAt(sets[c], merged[c], k);
      } else {
        var k :| 0 <= k < |recent[c]| && recent[c][k] == x;
        assert ThreadedAt(sets[c], recent[c], k);
      }
    }

    // record element i for each configuration of a list
    method RecordAll(l: seq<nat>, i: nat, ghost cx: Context)
      requires Valid() && Sound(cx) && i <= num
      requires forall c | c in l :: c < |sets| && Spans(cx.rules, cx.toks, cx.items[c], i, num)
      modifies `head, `sets, `recent, `work
      ensures Valid() && Sound(cx) && |sets| == |old(sets)| && (forall c | c in l :: InSet(c, i)) && Grown()
    {
      for k := 0 to |l|
        invariant Valid() && Sound(cx) && |sets| == |old(sets)| && Grown() && forall j | 0 <= j < k :: InSet(l[j], i)
      {
        assert l[k] in l;
        Get(l[k]);
        Record(l[k], i, cx);
      }
    }

    /** Nothing is forgotten. */
    twostate predicate Grown()
      reads this
    {
      |recent| == |old(recent)| && merged == old(merged) && forall c | 0 <= c < |recent| :: old(recent)[c] <= recent[c]
    }

    /** If ender e spans nothing here, what waited for it at configuration conf has moved on. */
    ghost predicate Over(conf: nat, e: nat)
      reads this
    {
      e < |merged| && conf < |merged| && num in merged[e] ==> forall x | x in merged[conf] :: InSet(conf + 1, x)
    }

    // the set of configuration conf goes over to the next one for each ender that spans nothing
    method Skip(conf: nat, enders: seq<nat>, ghost cx: Context)
      requires Valid() && Sound(cx) && Proper(cx) && conf < |sets| && merged[conf] != []
      requires cx.g.steps[conf] >= 0 && forall e | e in enders :: e < |sets| && cx.g.steps[e] == cx.g.steps[conf] - cx.g.nts
      modifies `head, `sets, `recent, `work
      ensures Valid() && Sound(cx) && |sets| == |old(sets)| && Grown()
      ensures forall e | e in enders :: Over(conf, e)
    {
      for k := 0 to |enders|
        invariant Valid() && Sound(cx) && |sets| == |old(sets)| && Grown()
        invariant forall j | 0 <= j < k :: Over(conf, enders[j])
      {
        assert ConfOk(conf);
        var e := enders[k];
        assert e in enders && ItemOk(cx.g, cx.rules, cx.items, conf);
        if Has(e, num) {
          assert InSet(e, num);
          var next := conf + 1;
          Get(next);
          assert ConfOk(conf);
          forall x | x in merged[conf] ensures x <= num && Spans(cx.rules, cx.toks, cx.items[next], x, num) {
            assert InSet(conf, x);
            InRange(conf, x);
            SpansNext(cx.g, cx.rules, cx.items, cx.toks, conf, x, num, e, num);
          }
          Union(next, sets[conf], merged[conf], cx);
        }
      }
    }
  }

  /** The states up to n are in order, and what they record is so. */
  ghost predicate Chart(states: seq<State>, n: nat, cx: Context)
    reads states
  {
    n < |states| && ChartAt(states, n, cx) && forall k | 0 <= k < n :: ChartAt(states, k, cx)
  }

  ghost predicate ChartAt(states: seq<State>, k: nat, cx: Context)
    requires k < |states|
    reads states
  {
    states[k].num == k && states[k].Valid() && states[k].Sound(cx)
  }

  // ---------- nothing is left out ----------

  ghost predicate Fits(g: Tables, e: nat, pred: nat) {
    e < |g.steps| && pred < |g.steps| && g.steps[pred] >= 0 && g.steps[e] == g.steps[pred] - g.nts
  }

  /** What waited at configuration pred in state i has moved on in state n. */
  ghost predicate Carried(states: seq<State>, n: nat, pred: nat, i: nat)
    reads set j | 0 <= j <= n && j < |states| :: states[j]
  {
    n < |states| && (i <= n && pred < |states[i].merged| ==> forall x | x in states[i].merged[pred] :: states[n].InSet(pred + 1, x))
  }

  /** For the first p origins of configuration e, which is at its end, everything has moved on; what
      waits at configuration but of the same state need not have. */
  ghost predicate Moved(states: seq<State>, n: nat, g: Tables, e: nat, p: nat, but: int)
    reads set j | 0 <= j <= n && j < |states| :: states[j]
  {
    n < |states| && e < |states[n].merged| && p <= |states[n].merged[e]| &&
    forall pred: nat, k | Fits(g, e, pred) && 0 <= k < p && !(pred == but && states[n].merged[e][k] == n) ::
      Carried(states, n, pred, states[n].merged[e][k])
  }

  /** What may come after configuration c has been predicted. */
  ghost predicate Predicted(st: State, g: Tables, c: nat)
    reads st
  {
    c < |st.merged| && c < |g.steps| && (st.merged[c] != [] && 0 <= g.steps[c] < |g.starters| ==>
      forall s | s in g.starters[g.steps[c]] :: st.InSet(s, st.num))
  }

  ghost predicate DoneAt(states: seq<State>, n: nat, g: Tables, c: nat, but: int)
    reads set j | 0 <= j <= n && j < |states| :: states[j]
  {
    && n < |states| && c < |states[n].merged|
    && (c == but || (Predicted(states[n], g, c) && Moved(states, n, g, c, |states[n].merged[c]|, but)))
  }

  /** Every merged element of state n has had its consequences recorded, except for configuration but. */
  ghost predicate Done(states: seq<State>, n: nat, g: Tables, but: int)
    reads set j | 0 <= j <= n && j < |states| :: states[j]
  {
    n < |states| && forall c | 0 <= c < |states[n].merged| :: DoneAt(states, n, g, c, but)
  }

  /** Recording more keeps what is done. */
  twostate lemma StillCarried(states: seq<State>, new n: nat, new pred: nat, new i: nat)
    requires n < |states| && old(Carried(states, n, pred, i)) && Remembers(states[n])
    requires i <= n ==> states[i].merged == old(states[i].merged)
    ensures Carried(states, n, pred, i)
  {}

  twostate lemma StillDone(states: seq<State>, new n: nat, new g: Tables, new but: int)
    requires n < |states| && old(Done(states, n, g, but)) && states[n].Grown() && |old(states[n].merged)| == |old(states[n].recent)|
    requires forall j | 0 <= j < n :: states[j].merged == old(states[j].merged)
    ensures Done(states, n, g, but)
  {
    GrownRemembers(states[n]);
    forall c | 0 <= c < |states[n].merged| ensures DoneAt(states, n, g, c, but) {
      assert old(DoneAt(states, n, g, c, but));
      if c != but {
        forall pred: nat, k | Fits(g, c, pred) && 0 <= k < |states[n].merged[c]| && !(pred == but && states[n].merged[c][k] == n)
          ensures Carried(states, n, pred, states[n].merged[c][k])
        {
          StillCarried(states, n, pred, states[n].merged[c][k]);
        }
      }
    }
  }

  // configuration conf is at its end: the configurations that waited for its nonterminal where it
  // started move on
  method Complete(states: seq<State>, n: nat, conf: nat, first: int, preds: seq<nat>, ghost p: nat, ghost cx: Context)
    requires Chart(states, n, cx) && Proper(cx) && conf < |states[n].sets| && p <= |states[n].merged[conf]|
    requires first == First(states[n].merged[conf][p..]) && cx.g.steps[conf] < 0
    requires forall c | c in preds :: c < |cx.items| && cx.g.steps[c] >= 0 && cx.g.steps[conf] == cx.g.steps[c] - cx.g.nts
    modifies states[n]
    ensures Chart(states, n, cx) && states[n].Grown() && |states[n].sets| == |old(states[n].sets)|
    ensures forall c, k | c in preds && p <= k < |states[n].merged[conf]| :: Carried(states, n, c, states[n].merged[conf][k])
  {
    var st := states[n];
    assert ChartAt(states, n, cx);
    for j := 0 to |preds|
      invariant Chart(states, n, cx) && st.Grown() && |st.sets| == |old(st.sets)|
      invariant forall m | 0 <= m < j :: AllCarried(states, n, preds[m], conf, p)
    {
      assert preds[j] in preds;
      label L:
      CompleteOne(states, n, conf, first, preds[j], p, cx);
      forall m | 0 <= m < j ensures AllCarried(states, n, preds[m], conf, p) { StillAllCarried@L(states, n, preds[m], conf, p); }
    }
    forall c, k | c in preds && p <= k < |st.merged[conf]| ensures Carried(states, n, c, st.merged[conf][k]) {
      var m :| 0 <= m < |preds| && preds[m] == c;
      assert AllCarried(states, n, preds[m], conf, p);
    }
  }

  ghost predicate AllCarried(states: seq<State>, n: nat, pred: nat, conf: nat, p: nat)
    reads set j | 0 <= j <= n && j < |states| :: states[j]
  {
    && n < |states| && conf < |states[n].merged|
    && forall k | p <= k < |states[n].merged[conf]| :: Carried(states, n, pred, states[n].merged[conf][k])
  }

  twostate lemma StillAllCarried(states: seq<State>, new n: nat, new pred: nat, new conf: nat, new p: nat)
    requires n < |states| && old(AllCarried(states, n, pred, conf, p)) && states[n].Grown()
    requires |old(states[n].merged)| == |old(states[n].recent)| && forall j | 0 <= j < n :: states[j].merged == old(states[j].merged)
    ensures AllCarried(states, n, pred, conf, p)
  {
    GrownRemembers(states[n]);
    forall k | p <= k < |states[n].merged[conf]| ensures Carried(states, n, pred, states[n].merged[conf][k]) {
      StillCarried(states, n, pred, states[n].merged[conf][k]);
    }
  }

  method CompleteOne(states: seq<State>, n: nat, conf: nat, first: int, pred: nat, ghost p: nat, ghost cx: Context)
    requires Chart(states, n, cx) && Proper(cx) && conf < |states[n].sets| && p <= |states[n].merged[conf]|
    requires first == First(states[n].merged[conf][p..])
    requires pred < |cx.items| && cx.g.steps[pred] >= 0 && cx.g.steps[conf] == cx.g.steps[pred] - cx.g.nts
    modifies states[n]
    ensures Chart(states, n, cx) && states[n].Grown() && |states[n].sets| == |old(states[n].sets)|
    ensures AllCarried(states, n, pred, conf, p)
  {
    var st := states[n];
    assert ChartAt(states, n, cx);
    var i := first;
    ghost var k := p;
    while i >= 0
      invariant Chart(states, n, cx) && st.Grown() && |st.sets| == |old(st.sets)|
      invariant p <= k <= |st.merged[conf]| && i == First(st.merged[conf][k..])
      invariant forall m | p <= m < k :: Carried(states, n, pred, st.merged[conf][m])
      decreases |st.merged[conf]| - k
    {
      assert ChartAt(states, n, cx) && st.InSet(conf, i);
      st.InRange(conf, i);
      label L:
      Advance(states, n, conf, i, pred, cx);
      GrownRemembers@L(st);
      forall m | p <= m < k ensures Carried(states, n, pred, st.merged[conf][m]) {
        StillCarried@L(states, n, pred, st.merged[conf][m]);
      }
      assert ChartAt(states, n, cx) && st.ConfOk(conf) && ThreadedAt(st.sets[conf], st.merged[conf], k);
      i := st.sets[conf][i + 5];
      k := k + 1;
    }
  }

  method Advance(states: seq<State>, n: nat, ghost conf: nat, i: nat, pred: nat, ghost cx: Context)
    requires Chart(states, n, cx) && Proper(cx) && i <= n && states[n].InSet(conf, i)
    requires pred < |cx.items| && cx.g.steps[pred] >= 0 && cx.g.steps[conf] == cx.g.steps[pred] - cx.g.nts
    modifies states[n]
    ensures Chart(states, n, cx) && states[n].Grown() && |states[n].sets| == |old(states[n].sets)|
    ensures Carried(states, n, pred, i)
  {
    var st, from := states[n], states[i];
    assert ChartAt(states, n, cx) && ChartAt(states, i, cx) && ItemOk(cx.g, cx.rules, cx.items, pred);
    if from.sets[pred] != [] {
      var next := pred + 1;
      st.Get(next);
      assert from.ConfOk(pred);
      ghost var m := from.merged[pred];
      forall x | x in m ensures x <= n && Spans(cx.rules, cx.toks, cx.items[next], x, n) {
        assert from.InSet(pred, x);
        from.InRange(pred, x);
        SpansNext(cx.g, cx.rules, cx.items, cx.toks, pred, x, i, conf, n);
      }
      st.Union(next, from.sets[pred], m, cx);
    } else {
      assert from.ConfOk(pred);
    }
    forall k | 0 <= k <= n ensures ChartAt(states, k, cx) { assert old(ChartAt(states, k, cx)); }
  }

  /** The (configuration, origin) pairs of a state that are not merged yet. */
  ghost function Pending(st: State): set<(int, int)>
    reads st
  {
    set c, i | 0 <= c < |st.merged| && 0 <= i <= st.num && i !in st.merged[c] :: (c, i)
  }

  lemma PendingShrinks(before: seq<seq<nat>>, st: State, c: nat, x: nat, pending: set<(int, int)>)
    requires c < |before| == |st.merged| && x <= st.num && x !in before[c] && x in st.merged[c]
    requires forall d | 0 <= d < |before| :: before[d] <= st.merged[d]
    requires pending == set d, i | 0 <= d < |before| && 0 <= i <= st.num && i !in before[d] :: (d, i)
    ensures Pending(st) < pending
  {
    assert (c, x) in pending && (c, x) !in Pending(st);
  }

  /** x was recorded before its list was taken or extended, so it still is. */
  twostate predicate Remembers(st: State)
    reads st
  {
    && |old(st.merged)| == |old(st.recent)| == |st.merged| == |st.recent|
    && forall c: nat, i: nat | old(st.InSet(c, i)) :: st.InSet(c, i)
  }

  twostate lemma GrownRemembers(st: State)
    requires st.Grown() && |old(st.merged)| == |old(st.recent)|
    ensures Remembers(st)
  {
    forall c: nat, i: nat | old(st.InSet(c, i)) ensures st.InSet(c, i) {
      if i in old(st.recent)[c] { assert i in st.recent[c][..|old(st.recent)[c]|]; }
    }
  }

  method Take(states: seq<State>, n: nat, ghost cx: Context) returns (conf: nat, first: nat)
    requires Chart(states, n, cx) && states[n].head >= 0 && Done(states, n, cx.g, -1)
    modifies states[n]
    ensures Chart(states, n, cx) && |states[n].sets| == |old(states[n].sets)| && conf < |states[n].sets|
    ensures old(states[n].recent)[conf] != [] && first == old(states[n].recent)[conf][0] && first !in old(states[n].merged)[conf]
    ensures states[n].merged == old(states[n].merged)[conf := old(states[n].merged)[conf] + old(states[n].recent)[conf]]
    ensures Remembers(states[n]) && Done(states, n, cx.g, conf)
    ensures Moved(states, n, cx.g, conf, |old(states[n].merged)[conf]|, conf)
  {
    var st := states[n];
    assert st.work != [] && st.WorkAt(0) && st.ConfOk(st.work[0]);
    var f: int;
    conf, f := st.Pop();
    first := f;
    assert first in old(st.recent)[conf] by { assert first == old(st.recent)[conf][0]; }
    forall c: nat, i: nat | st.InSet(c, i) ensures Spans(cx.rules, cx.toks, cx.items[c], i, n) { assert old(st.InSet(c, i)); }
    forall k | 0 <= k < n ensures ChartAt(states, k, cx) { assert old(ChartAt(states, k, cx)); }
    forall j | 0 <= j < n ensures states[j] != st { assert ChartAt(states, j, cx); }
    DoneButTaken(states, n, cx.g, conf);
  }

  /** When the recent elements of conf are merged, all else stays done. */
  twostate lemma DoneButTaken(states: seq<State>, new n: nat, new g: Tables, new conf: nat)
    requires n < |states| && old(Done(states, n, g, -1)) && Remembers(states[n]) && conf < |states[n].merged|
    requires states[n].merged == old(states[n].merged)[conf := old(states[n].merged)[conf] + old(states[n].recent)[conf]]
    requires forall j | 0 <= j < n :: states[j].merged == old(states[j].merged)
    ensures Done(states, n, g, conf) && Moved(states, n, g, conf, |old(states[n].merged)[conf]|, conf)
  {
    var M := states[n].merged;
    forall c: nat, pred: nat, k | c < |M| && Fits(g, c, pred) && 0 <= k < |old(states[n].merged)[c]| && !(pred == conf && M[c][k] == n)
      ensures Carried(states, n, pred, M[c][k])
    {
      assert old(DoneAt(states, n, g, c, -1)) && M[c][k] == old(states[n].merged)[c][k];
      assert old(Carried(states, n, pred, states[n].merged[c][k]));
      StillCarried'(states, n, pred, M[c][k], conf);
    }
    forall c | 0 <= c < |M| ensures DoneAt(states, n, g, c, conf) { assert old(DoneAt(states, n, g, c, -1)); }
  }

  twostate lemma StillCarried'(states: seq<State>, new n: nat, new pred: nat, new i: nat, new conf: nat)
    requires n < |states| && old(Carried(states, n, pred, i)) && Remembers(states[n]) && !(pred == conf && i == n)
    requires i < n ==> states[i].merged == old(states[i].merged)
    requires |states[n].merged| == |old(states[n].merged)|
    requires forall c | 0 <= c < |states[n].merged| && c != conf :: states[n].merged[c] == old(states[n].merged)[c]
    ensures Carried(states, n, pred, i)
  {}

  // predict what may come next, and go on where that spans nothing
  method Forward(states: seq<State>, n: nat, conf: nat, step: nat, g: Tables, ghost cx: Context)
    requires Chart(states, n, cx) && Proper(cx) && g == cx.g && conf < |states[n].sets| && g.steps[conf] == step
    requires states[n].merged[conf] != [] && Done(states, n, g, conf)
    modifies states[n]
    ensures Chart(states, n, cx) && |states[n].sets| == |old(states[n].sets)| && states[n].Grown()
    ensures Done(states, n, g, -1)
  {
    var st := states[n];
    assert ItemOk(g, cx.rules, cx.items, conf);
    assert step < g.nts;
    forall c | c in g.starters[step] ensures c < |st.sets| && Spans(cx.rules, cx.toks, cx.items[c], n, n) {
      ListedStart(g, cx.rules, cx.items, step, c);
      SpansStart(cx.rules, cx.toks, cx.items[c], n);
    }
    st.RecordAll(g.starters[step], n, cx);
    label L:
    forall e | e in g.enders[step] ensures e < |st.sets| && g.steps[e] == step - g.nts { ListedAt(g, cx.rules, cx.items, step, e); }
    st.Skip(conf, g.enders[step], cx);
    forall k | 0 <= k < n ensures ChartAt(states, k, cx) { assert old(ChartAt(states, k, cx)); }
    GrownRemembers@L(st);
    StillDone(states, n, g, conf);
    ForwardDone(states, n, conf, step, cx);
  }

  lemma StillOpen(cx: Context, conf: nat, pred: nat)
    requires Proper(cx) && conf < |cx.items| && cx.g.steps[conf] >= 0
    ensures !Fits(cx.g, conf, pred)
  {
    if pred < |cx.items| { assert ItemOk(cx.g, cx.rules, cx.items, pred); }
  }

  lemma ForwardDone(states: seq<State>, n: nat, conf: nat, step: nat, cx: Context)
    requires Chart(states, n, cx) && Proper(cx) && conf < |states[n].sets| && cx.g.steps[conf] == step && step < cx.g.nts
    requires Done(states, n, cx.g, conf) && forall s | s in cx.g.starters[step] :: states[n].InSet(s, n)
    requires forall e | e in cx.g.enders[step] :: states[n].Over(conf, e)
    ensures Done(states, n, cx.g, -1)
  {
    var g, st := cx.g, states[n];
    forall c | 0 <= c < |st.merged| ensures DoneAt(states, n, g, c, -1) {
      assert DoneAt(states, n, g, c, conf);
      if c == conf {
        forall pred: nat ensures !Fits(g, conf, pred) { StillOpen(cx, conf, pred); }
      } else {
        forall pred: nat, k | Fits(g, c, pred) && 0 <= k < |st.merged[c]| ensures Carried(states, n, pred, st.merged[c][k]) {
          if pred == conf && st.merged[c][k] == n {
            assert Listed(g, cx.rules, cx.items, c);
            assert c in g.enders[step] && st.Over(conf, c) && n in st.merged[c];
          }
        }
      }
    }
  }

  // one configuration of the worklist
  method Process(states: seq<State>, n: nat, g: Tables, ghost cx: Context)
    requires Chart(states, n, cx) && Proper(cx) && g == cx.g && states[n].head >= 0 && Done(states, n, g, -1)
    modifies states[n]
    ensures Chart(states, n, cx) && |states[n].sets| == |old(states[n].sets)| && Pending(states[n]) < old(Pending(states[n]))
    ensures Remembers(states[n]) && Done(states, n, g, -1)
  {
    var st := states[n];
    ghost var before, pending := st.merged, Pending(st);
    var conf, first := Take(states, n, cx);
    assert ItemOk(g, cx.rules, cx.items, conf);
    var step := g.steps[conf];
    ghost var p := |before[conf]|;
    assert st.merged[conf][p..] == old(st.recent)[conf] && st.merged[conf][p] == first;
    assert st.InSet(conf, first);
    st.InRange(conf, first);
    PendingShrinks(before, st, conf, first, pending);
    if step >= 0 {
      Forward(states, n, conf, step, g, cx);
    } else {
      Backward(states, n, conf, first, p, g, cx);
    }
  }

  method Backward(states: seq<State>, n: nat, conf: nat, first: nat, ghost p: nat, g: Tables, ghost cx: Context)
    requires Chart(states, n, cx) && Proper(cx) && g == cx.g && conf < |states[n].sets| && g.steps[conf] < 0
    requires p < |states[n].merged[conf]| && first == states[n].merged[conf][p]
    requires Done(states, n, g, conf) && Moved(states, n, g, conf, p, conf)
    modifies states[n]
    ensures Chart(states, n, cx) && |states[n].sets| == |old(states[n].sets)| && states[n].Grown()
    ensures Done(states, n, g, -1)
  {
    var st := states[n];
    assert ItemOk(g, cx.rules, cx.items, conf);
    var nt := g.steps[conf] + g.nts;
    forall c | c in g.predictors[nt] ensures c < |cx.items| && g.steps[c] == nt { ListedAt(g, cx.rules, cx.items, nt, c); }
    Complete(states, n, conf, first, g.predictors[nt], p, cx);
    StillDone(states, n, g, conf);
    BackwardDone(states, n, conf, p, nt, cx);
  }

  twostate lemma BackwardDone(states: seq<State>, new n: nat, new conf: nat, new p: nat, new nt: nat, new cx: Context)
    requires Chart(states, n, cx) && Proper(cx) && conf < |states[n].sets| && cx.g.steps[conf] == nt - cx.g.nts && nt < cx.g.nts
    requires p <= |states[n].merged[conf]| && old(Moved(states, n, cx.g, conf, p, conf)) && states[n].Grown()
    requires |old(states[n].merged)| == |old(states[n].recent)| && forall j | 0 <= j < n :: states[j].merged == old(states[j].merged)
    requires Done(states, n, cx.g, conf)
    requires forall c, k | c in cx.g.predictors[nt] && p <= k < |states[n].merged[conf]| :: Carried(states, n, c, states[n].merged[conf][k])
    ensures Done(states, n, cx.g, -1)
  {
    var g, M := cx.g, states[n].merged;
    GrownRemembers(states[n]);
    forall c | 0 <= c < |M| ensures DoneAt(states, n, g, c, -1) {
      assert DoneAt(states, n, g, c, conf);
      if c == conf {
        forall pred: nat, k | Fits(g, conf, pred) && 0 <= k < |M[conf]| ensures Carried(states, n, pred, M[conf][k]) {
          if k < p {
            assert old(Carried(states, n, pred, states[n].merged[conf][k]));
            StillCarried(states, n, pred, M[conf][k]);
          } else {
            assert Listed(g, cx.rules, cx.items, pred);
          }
        }
      }
    }
  }

  /** Everything that follows from what state n has so far and from the states before it. Each pair
      of a configuration and an origin is taken from the worklist once. */
  method Forw(states: seq<State>, n: nat, g: Tables, ghost cx: Context)
    requires Chart(states, n, cx) && Proper(cx) && g == cx.g && Done(states, n, g, -1)
    modifies states[n]
    ensures Chart(states, n, cx) && |states[n].sets| == |old(states[n].sets)| && states[n].head == -1
    ensures Remembers(states[n]) && Done(states, n, g, -1)
    ensures forall c | 0 <= c < |states[n].recent| :: states[n].recent[c] == []
  {
    var st := states[n];
    while true
      invariant Chart(states, n, cx) && |st.sets| == |old(st.sets)| && Remembers(st) && Done(states, n, g, -1)
      decreases Pending(st)
    {
      if st.head < 0 {
        assert st.work == [];
        return;
      }
      Process(states, n, g, cx);
    }
  }

  method MakeStates(toks: nat, confs: nat) returns (states: seq<State>)
    ensures |states| == toks + 1
    ensures forall k {:trigger states[k]} | 0 <= k <= toks :: fresh(states[k]) && Blank(states[k], k, confs)
  {
    states := [];
    for k := 0 to toks + 1
      invariant |states| == k && forall j {:trigger states[j]} | 0 <= j < k :: fresh(states[j]) && Blank(states[j], j, confs)
    {
      var st := new State(k, confs);
      states := states + [st];
    }
  }

  ghost predicate Blank(st: State, num: nat, confs: nat)
    reads st
  {
    st.num == num && st.Valid() && |st.sets| == confs && forall c | 0 <= c < confs :: st.merged[c] == [] && st.recent[c] == []
  }

  /** State n is finished: all it records has been followed up, starting from the tokens. */
  ghost predicate Finished(states: seq<State>, n: nat, cx: Context)
    reads set j | 0 <= j <= n && j < |states| :: states[j]
  {
    && n < |states| && Done(states, n, cx.g, -1) && |states[n].merged| == |states[n].recent|
    && (forall c | 0 <= c < |states[n].recent| :: states[n].recent[c] == [])
    && (n == 0 && cx.g.starters != [] ==> states[n].HasAll(cx.g.starters[0], 0))
    && (0 < n <= |cx.toks| ==> states[n].HasAll(cx.toks[n - 1], n - 1))
  }

  // the states up to n are done; enter what is known at the start of the next one and go on from there
  method Extend(states: seq<State>, n: nat, l: seq<nat>, origin: nat, g: Tables, ghost cx: Context)
    requires Proper(cx) && g == cx.g && n < |states| && Blank(states[n], n, |g.steps|) && origin <= n <= |cx.toks|
    requires n > 0 ==> Chart(states, n - 1, cx)
    requires forall c | c in l :: c < |g.steps| && Spans(cx.rules, cx.toks, cx.items[c], origin, n)
    requires if n == 0 then origin == 0 && g.starters != [] && l == g.starters[0] else origin == n - 1 && l == cx.toks[n - 1]
    modifies states[n]
    ensures Chart(states, n, cx) && states[n].head == -1 && Finished(states, n, cx)
  {
    var st := states[n];
    st.RecordAll(l, origin, cx);
    forall k | 0 <= k < n ensures ChartAt(states, k, cx) { assert old(ChartAt(states, k, cx)); }
    forall c | 0 <= c < |st.merged| ensures DoneAt(states, n, g, c, -1) { assert st.merged[c] == []; }
    label L:
    Forw(states, n, g, cx);
    assert Remembers@L(st);
  }

  /** The whole chart: what it records for i..j is so, and nothing is left out. */
  method Parse(g: Tables, toks: Tokens, ghost rules: seq<Rule>, ghost items: seq<Item>, ghost starts: seq<nat>)
    returns (states: seq<State>)
    requires Proper(Context(g, rules, items, starts, toks)) && g.nts > 0
    requires forall i, t | 0 <= i < |toks| && t in toks[i] :: t < g.nts
    ensures |states| == |toks| + 1 && Chart(states, |toks|, Context(g, rules, items, starts, toks))
    ensures Before(states, |toks|, Context(g, rules, items, starts, toks))
  {
    ghost var cx := Context(g, rules, items, starts, toks);
    states := MakeStates(|toks|, |g.steps|);
    forall c | c in g.starters[0] ensures c < |g.steps| && Spans(rules, toks, items[c], 0, 0) {
      ListedStart(g, rules, items, 0, c);
      SpansStart(rules, toks, items[c], 0);
    }
    Extend(states, 0, g.starters[0], 0, g, cx);
    assert forall k | 0 < k <= |toks| :: Blank(states[k], k, |g.steps|);
    hide Proper;
    hide Finished;
    hide Chart;
    hide Blank;
    for i := 0 to |toks|
      invariant Chart(states, i, cx) && Before(states, i, cx)
      invariant forall k {:trigger states[k]} | 0 <= k <= |toks| :: fresh(states[k]) && states[k].num == k
      invariant forall k | i < k <= |toks| :: Blank(states[k], k, |g.steps|)
    {
      Scan(states, i, toks[i], g, cx);
    }
  }

  ghost predicate Before(states: seq<State>, n: nat, cx: Context)
    reads set j | 0 <= j <= n && j < |states| :: states[j]
  {
    forall k | 0 <= k <= n :: Finished(states, k, cx)
  }

  // enter token i into the next state
  method Scan(states: seq<State>, i: nat, tok: seq<nat>, g: Tables, ghost cx: Context)
    requires Proper(cx) && g == cx.g && i < |cx.toks| && tok == cx.toks[i] && i + 1 < |states| && Chart(states, i, cx)
    requires Blank(states[i + 1], i + 1, |g.steps|) && (forall t | t in tok :: t < g.nts) && Before(states, i, cx)
    modifies states[i + 1]
    ensures Chart(states, i + 1, cx) && Before(states, i + 1, cx)
  {
    forall c | c in tok ensures c < |g.steps| && Spans(cx.rules, cx.toks, cx.items[c], i, i + 1) {
      assert cx.items[c] == Word(c);
    }
    forall j | 0 <= j <= i ensures states[j] != states[i + 1] { assert ChartAt(states, j, cx); }
    Extend(states, i + 1, tok, i, g, cx);
    assert Before(states, i, cx);
  }

  ghost predicate Whole(states: seq<State>, cx: Context)
    reads states
  {
    && Proper(cx) && cx.g.nts > 0 && |states| == |cx.toks| + 1 && Chart(states, |cx.toks|, cx)
    && Before(states, |cx.toks|, cx)
    && forall i, t | 0 <= i < |cx.toks| && t in cx.toks[i] :: t < cx.g.nts
  }

  /** If rule r was predicted at i and its first d symbols derive the tokens i..j, the chart says so. */
  lemma {:induction false} Recorded(states: seq<State>, cx: Context, r: nat, d: nat, i: nat, j: nat, depth: nat)
    requires Whole(states, cx) && r < |cx.rules| && d <= |cx.rules[r].rhs| && j <= |cx.toks| && i <= j
    requires states[i].InSet(cx.starts[r], i) && Derives(cx.rules, cx.toks, cx.rules[r].rhs[..d], i, j, depth)
    ensures states[j].InSet(cx.starts[r] + d, i)
    decreases depth, d
  {
    if d > 0 {
      var rhs, pred := cx.rules[r].rhs, cx.starts[r] + (d - 1);
      assert rhs[..d][..d - 1] == rhs[..d - 1];
      var m: nat :| Derives(cx.rules, cx.toks, rhs[..d - 1], i, m, depth) && DerivesOne(cx.rules, cx.toks, rhs[d - 1], m, j, depth);
      DerivesForward(cx.rules, cx.toks, rhs[..d - 1], i, m, depth);
      DerivesOneForward(cx.rules, cx.toks, rhs[d - 1], m, j, depth);
      Recorded(states, cx, r, d - 1, i, m, depth);
      assert StartOf(cx.g, cx.rules, cx.items, r, cx.starts[r]);
      ItemAt(cx.g, cx.rules, cx.items, cx.starts[r], r, d - 1);
      assert ItemOk(cx.g, cx.rules, cx.items, pred);
      PredictedAt(states, cx, pred, i, m);
      var e := RecordedOne(states, cx, rhs[d - 1], m, j, depth);
      MovedOn(states, cx, pred, i, m, e, j);
    }
  }

  lemma PredictedAt(states: seq<State>, cx: Context, c: nat, i: nat, m: nat)
    requires Whole(states, cx) && m <= |cx.toks| && states[m].InSet(c, i) && c < |cx.items| && 0 <= cx.g.steps[c] < cx.g.nts
    ensures forall s | s in cx.g.starters[cx.g.steps[c]] :: states[m].InSet(s, m)
  {
    assert Finished(states, m, cx) && ChartAt(states, m, cx) && DoneAt(states, m, cx.g, c, -1);
  }

  lemma MovedOn(states: seq<State>, cx: Context, pred: nat, i: nat, m: nat, e: nat, j: nat)
    requires Whole(states, cx) && m <= j <= |cx.toks| && Fits(cx.g, e, pred)
    requires states[m].InSet(pred, i) && states[j].InSet(e, m)
    ensures states[j].InSet(pred + 1, i)
  {
    assert Finished(states, m, cx) && Finished(states, j, cx) && DoneAt(states, j, cx.g, e, -1);
    var k :| 0 <= k < |states[j].merged[e]| && states[j].merged[e][k] == m;
    assert Carried(states, j, pred, states[j].merged[e][k]);
  }

  /** A nonterminal that was predicted at m and derives the tokens m..j has an ender that says so. */
  lemma {:induction false} RecordedOne(states: seq<State>, cx: Context, nt: nat, m: nat, j: nat, depth: nat) returns (e: nat)
    requires Whole(states, cx) && nt < cx.g.nts && j <= |cx.toks| && m <= j
    requires (forall s | s in cx.g.starters[nt] :: states[m].InSet(s, m)) && DerivesOne(cx.rules, cx.toks, nt, m, j, depth)
    ensures e < |cx.items| && cx.g.steps[e] == nt - cx.g.nts && states[j].InSet(e, m)
    decreases depth, 0
  {
    if IsToken(cx.toks, nt, m, j) {
      e := nt;
      assert Finished(states, j, cx) && cx.items[nt] == Word(nt) && ItemOk(cx.g, cx.rules, cx.items, nt);
    } else {
      var r :| 0 <= r < |cx.rules| && cx.rules[r].lhs == nt && Derives(cx.rules, cx.toks, cx.rules[r].rhs, m, j, depth - 1);
      var n := |cx.rules[r].rhs|;
      assert StartOf(cx.g, cx.rules, cx.items, r, cx.starts[r]) && cx.rules[r].rhs[..n] == cx.rules[r].rhs;
      Recorded(states, cx, r, n, m, j, depth - 1);
      e := cx.starts[r] + n;
      ItemAt(cx.g, cx.rules, cx.items, cx.starts[r], r, n);
      assert ItemOk(cx.g, cx.rules, cx.items, e);
    }
  }

  // is there an ender of the nonterminal in state j that started in state i
  method IsParsed(nt: nat, i: nat, j: nat, g: Tables, states: seq<State>, ghost cx: Context) returns (r: bool, ghost depth: nat)
    requires Proper(cx) && g == cx.g && nt < g.nts && j < |states| && ChartAt(states, j, cx) && i <= j
    ensures r ==> DerivesOne(cx.rules, cx.toks, nt, i, j, depth)
    ensures r <==> exists e :: e in g.enders[nt] && states[j].InSet(e, i)
  {
    depth := 0;
    for k := 0 to |g.enders[nt]|
      invariant forall m | 0 <= m < k :: !states[j].InSet(g.enders[nt][m], i)
    {
      var e := g.enders[nt][k];
      ListedAt(g, cx.rules, cx.items, nt, e);
      if states[j].Has(e, i) {
        assert states[j].InSet(e, i);
        depth := SpansEnd(g, cx.rules, cx.items, cx.toks, e, nt, i, j);
        return true, depth;
      }
    }
    return false, depth;
  }

  /** The parser accepts exactly the inputs that the goal, nonterminal 0, derives. */
  method Accepts(g: Tables, toks: Tokens, ghost rules: seq<Rule>, ghost items: seq<Item>, ghost starts: seq<nat>) returns (r: bool)
    requires Proper(Context(g, rules, items, starts, toks)) && g.nts > 0
    requires forall i, t | 0 <= i < |toks| && t in toks[i] :: t < g.nts
    ensures r <==> exists depth: nat :: DerivesOne(rules, toks, 0, 0, |toks|, depth)
  {
    ghost var cx := Context(g, rules, items, starts, toks);
    var states := Parse(g, toks, rules, items, starts);
    assert Finished(states, 0, cx) && ChartAt(states, |toks|, cx);
    ghost var depth;
    r, depth := IsParsed(0, 0, |toks|, g, states, cx);
    assert r ==> DerivesOne(rules, toks, 0, 0, |toks|, depth);
    if exists d: nat :: DerivesOne(rules, toks, 0, 0, |toks|, d) {
      ghost var d: nat :| DerivesOne(rules, toks, 0, 0, |toks|, d);
      ghost var e := RecordedOne(states, cx, 0, 0, |toks|, d);
      assert Listed(g, rules, items, e);
      assert e in g.enders[0] && states[|toks|].InSet(e, 0);
    }
  }
}
