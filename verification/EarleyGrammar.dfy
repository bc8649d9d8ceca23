/** Grammars, what it means for symbols to derive tokens, and the tables the chart parser works
    from (earley-boyer.js:4387-4494). */
module EarleyGrammar {

  /** A symbol is the number of a nonterminal; a token belongs to some of them. */
  datatype Rule = Rule(lhs: nat, rhs: seq<nat>)

  type Tokens = seq<seq<nat>>

  // ---------- derivations ----------

  /** The symbols derive the tokens i..j, with rules nested at most depth deep. */
  ghost predicate Derives(rules: seq<Rule>, toks: Tokens, syms: seq<nat>, i: nat, j: nat, depth: nat)
    decreases depth, |syms|
  {
    if syms == [] then i == j
    else
      var n := |syms| - 1;
      exists m: nat ::
        Derives(rules, toks, syms[..n], i, m, depth) && DerivesOne(rules, toks, syms[n], m, j, depth)
  }

  ghost predicate DerivesOne(rules: seq<Rule>, toks: Tokens, nt: nat, i: nat, j: nat, depth: nat)
    decreases depth, 0
  {
    || IsToken(toks, nt, i, j)
    || (depth > 0 && exists r :: 0 <= r < |rules| && rules[r].lhs == nt && Derives(rules, toks, rules[r].rhs, i, j, depth - 1))
  }

  predicate IsToken(toks: Tokens, nt: nat, i: nat, j: nat) {
    i < |toks| && nt in toks[i] && j == i + 1
  }

  lemma {:induction false} Deeper(rules: seq<Rule>, toks: Tokens, syms: seq<nat>, i: nat, j: nat, d: nat, d': nat)
    requires Derives(rules, toks, syms, i, j, d) && d <= d'
    ensures Derives(rules, toks, syms, i, j, d')
    decreases d, |syms|
  {
    if syms != [] {
      var n := |syms| - 1;
      var m: nat :| Derives(rules, toks, syms[..n], i, m, d) && DerivesOne(rules, toks, syms[n], m, j, d);
      Deeper(rules, toks, syms[..n], i, m, d, d');
      DeeperOne(rules, toks, syms[n], m, j, d, d');
    }
  }

  lemma {:induction false} DeeperOne(rules: seq<Rule>, toks: Tokens, nt: nat, i: nat, j: nat, d: nat, d': nat)
    requires DerivesOne(rules, toks, nt, i, j, d) && d <= d'
    ensures DerivesOne(rules, toks, nt, i, j, d')
    decreases d, 0
  {
    if !IsToken(toks, nt, i, j) {
      var r :| 0 <= r < |rules| && rules[r].lhs == nt && Derives(rules, toks, rules[r].rhs, i, j, d - 1);
      Deeper(rules, toks, rules[r].rhs, i, j, d - 1, d' - 1);
    }
  }

  // ---------- configurations ----------

  /** What a configuration stands for: a token of a nonterminal, or a rule with a dot in it. */
  datatype Item = Word(nt: nat) | Dotted(rule: nat, dot: nat)

  /** steps[c] is the symbol after the dot of configuration c; at the end of a rule it is the
      number of the rule's nonterminal less nts. */
  datatype Tables = Tables(nts: nat, starters: seq<seq<nat>>, enders: seq<seq<nat>>, predictors: seq<seq<nat>>, steps: seq<int>)

  ghost predicate ItemOk(g: Tables, rules: seq<Rule>, items: seq<Item>, c: nat)
    requires |items| == |g.steps| && c < |items|
  {
    match items[c]
    case Word(nt) => g.steps[c] == nt - g.nts && nt < g.nts
    case Dotted(r, d) =>
      && r < |rules| && d <= |rules[r].rhs| && rules[r].lhs < g.nts
      && if d < |rules[r].rhs| then
           g.steps[c] == rules[r].rhs[d] && g.steps[c] < g.nts && c + 1 < |items| && items[c + 1] == Dotted(r, d + 1)
         else g.steps[c] == rules[r].lhs - g.nts
  }

  /** The tables are those of a grammar. */
  ghost predicate TablesOf(g: Tables, rules: seq<Rule>, items: seq<Item>) {
    && |items| == |g.steps| && |g.starters| == |g.enders| == |g.predictors| == g.nts <= |g.steps|
    && (forall c | 0 <= c < |items| :: ItemOk(g, rules, items, c))
    && (forall nt: nat | nt < g.nts :: items[nt] == Word(nt))
    && AllStart(g.starters, items) && AllAt(g.enders, g.steps, g.nts) && AllAt(g.predictors, g.steps, 0)
  }

  ghost predicate StartAt(items: seq<Item>, c: nat) {
    c < |items| && items[c].Dotted? && items[c].dot == 0
  }

  ghost predicate StepIs(steps: seq<int>, c: nat, step: int) {
    c < |steps| && steps[c] == step
  }

  /** The configurations listed for a nonterminal are at the start of a rule. */
  ghost predicate AllStart(table: seq<seq<nat>>, items: seq<Item>) {
    forall nt, k | 0 <= nt < |table| && 0 <= k < |table[nt]| :: StartAt(items, table[nt][k])
  }

  /** The steps of the configurations listed for a nonterminal are its number less shift. */
  ghost predicate AllAt(table: seq<seq<nat>>, steps: seq<int>, shift: nat) {
    forall nt, k | 0 <= nt < |table| && 0 <= k < |table[nt]| :: StepIs(steps, table[nt][k], nt - shift)
  }

  /** Every configuration is in the lists it belongs to; starts has the first one of each rule. */
  ghost predicate ListsAll(g: Tables, rules: seq<Rule>, items: seq<Item>, starts: seq<nat>)
    requires TablesOf(g, rules, items)
  {
    && (forall r | 0 <= r < |starts| :: r < |rules| && StartOf(g, rules, items, r, starts[r]))
    && forall c | 0 <= c < |items| :: Listed(g, rules, items, c)
  }

  ghost predicate StartOf(g: Tables, rules: seq<Rule>, items: seq<Item>, r: nat, c: nat)
    requires r < |rules|
  {
    c < |items| && items[c] == Dotted(r, 0) && rules[r].lhs < |g.starters| && c in g.starters[rules[r].lhs]
  }

  ghost predicate Listed(g: Tables, rules: seq<Rule>, items: seq<Item>, c: nat)
    requires TablesOf(g, rules, items) && c < |items|
  {
    assert ItemOk(g, rules, items, c);
    if g.steps[c] >= 0 then c in g.predictors[g.steps[c]] else c in g.enders[g.steps[c] + g.nts]
  }

  /** The configuration of rule r with the dot at d is d after the first one. */
  lemma {:induction false} ItemAt(g: Tables, rules: seq<Rule>, items: seq<Item>, c: nat, r: nat, d: nat)
    requires TablesOf(g, rules, items) && c < |items| && items[c] == Dotted(r, 0) && r < |rules| && d <= |rules[r].rhs|
    ensures c + d < |items| && items[c + d] == Dotted(r, d)
    decreases d
  {
    if d > 0 {
      ItemAt(g, rules, items, c, r, d - 1);
      assert ItemOk(g, rules, items, c + (d - 1));
    }
  }

  lemma {:induction false} DerivesForward(rules: seq<Rule>, toks: Tokens, syms: seq<nat>, i: nat, j: nat, d: nat)
    requires Derives(rules, toks, syms, i, j, d)
    ensures i <= j && (i < j ==> j <= |toks|)
    decreases d, |syms|
  {
    if syms != [] {
      var n := |syms| - 1;
      var m: nat :| Derives(rules, toks, syms[..n], i, m, d) && DerivesOne(rules, toks, syms[n], m, j, d);
      DerivesForward(rules, toks, syms[..n], i, m, d);
      DerivesOneForward(rules, toks, syms[n], m, j, d);
    }
  }

  lemma {:induction false} DerivesOneForward(rules: seq<Rule>, toks: Tokens, nt: nat, i: nat, j: nat, d: nat)
    requires DerivesOne(rules, toks, nt, i, j, d)
    ensures i <= j && (i < j ==> j <= |toks|)
    decreases d, 0
  {
    if !IsToken(toks, nt, i, j) {
      var r :| 0 <= r < |rules| && rules[r].lhs == nt && Derives(rules, toks, rules[r].rhs, i, j, d - 1);
      DerivesForward(rules, toks, rules[r].rhs, i, j, d - 1);
    }
  }

  /** What it means that configuration c holds for the tokens i..j: the symbols before its dot
      derive them. */
  ghost predicate Spans(rules: seq<Rule>, toks: Tokens, item: Item, i: nat, j: nat) {
    match item
    case Word(nt) => IsToken(toks, nt, i, j)
    case Dotted(r, d) =>
      r < |rules| && d <= |rules[r].rhs| && exists depth: nat :: Derives(rules, toks, rules[r].rhs[..d], i, j, depth)
  }

  lemma SpansStart(rules: seq<Rule>, toks: Tokens, item: Item, i: nat)
    requires item.Dotted? && item.rule < |rules| && item.dot == 0
    ensures Spans(rules, toks, item, i, i)
  {
    assert Derives(rules, toks, rules[item.rule].rhs[..0], i, i, 0);
  }

  /** A configuration at its end means that its nonterminal derives the tokens. */
  lemma SpansEnd(g: Tables, rules: seq<Rule>, items: seq<Item>, toks: Tokens, e: nat, nt: nat, i: nat, j: nat) returns (depth: nat)
    requires TablesOf(g, rules, items) && e < |items| && g.steps[e] == nt - g.nts && nt < g.nts
    requires Spans(rules, toks, items[e], i, j)
    ensures DerivesOne(rules, toks, nt, i, j, depth)
  {
    assert ItemOk(g, rules, items, e);
    match items[e]
    case Word(_) => depth := 0;
    case Dotted(r, d) =>
      var k: nat :| Derives(rules, toks, rules[r].rhs[..d], i, j, k);
      assert rules[r].rhs[..d] == rules[r].rhs;
      depth := k + 1;
  }

  /** Moving the dot over a symbol that derives the tokens that follow. */
  lemma SpansNext(g: Tables, rules: seq<Rule>, items: seq<Item>, toks: Tokens, c: nat, i: nat, k: nat, e: nat, j: nat)
    requires TablesOf(g, rules, items) && c < |items| && e < |items| && g.steps[c] >= 0 && g.steps[e] == g.steps[c] - g.nts
    requires Spans(rules, toks, items[c], i, k) && Spans(rules, toks, items[e], k, j)
    ensures c + 1 < |items| && Spans(rules, toks, items[c + 1], i, j)
  {
    hide Derives;
    hide DerivesOne;
    assert ItemOk(g, rules, items, c);
    var Dotted(r, d) := items[c];
    var rhs := rules[r].rhs;
    var p: nat :| Derives(rules, toks, rhs[..d], i, k, p);
    var q := SpansEnd(g, rules, items, toks, e, g.steps[c], k, j);
    var n := if p > q then p else q;
    Deeper(rules, toks, rhs[..d], i, k, p, n);
    DeeperOne(rules, toks, rhs[d], k, j, q, n);
    OneMore(rules, toks, rhs[..d], rhs[d], i, k, j, n);
    assert rhs[..d + 1] == rhs[..d] + [rhs[d]];
  }

  lemma OneMore(rules: seq<Rule>, toks: Tokens, syms: seq<nat>, x: nat, i: nat, k: nat, j: nat, n: nat)
    requires Derives(rules, toks, syms, i, k, n) && DerivesOne(rules, toks, x, k, j, n)
    ensures Derives(rules, toks, syms + [x], i, j, n)
  {
    assert (syms + [x])[..|syms|] == syms;
  }

  lemma ListedStart(g: Tables, rules: seq<Rule>, items: seq<Item>, nt: nat, c: nat)
    requires TablesOf(g, rules, items) && nt < g.nts && c in g.starters[nt]
    ensures c < |items| && items[c].Dotted? && items[c].dot == 0 && ItemOk(g, rules, items, c)
  {
    var k :| 0 <= k < |g.starters[nt]| && g.starters[nt][k] == c;
    assert StartAt(items, g.starters[nt][k]);
  }

  lemma ListedAt(g: Tables, rules: seq<Rule>, items: seq<Item>, nt: nat, c: nat)
    requires TablesOf(g, rules, items) && nt < g.nts
    ensures c in g.enders[nt] ==> c < |items| && g.steps[c] == nt - g.nts
    ensures c in g.predictors[nt] ==> c < |items| && g.steps[c] == nt
  {
    if c in g.enders[nt] {
      var k :| 0 <= k < |g.enders[nt]| && g.enders[nt][k] == c;
      assert StepIs(g.steps, g.enders[nt][k], nt - g.nts);
    }
    if c in g.predictors[nt] {
      var k :| 0 <= k < |g.predictors[nt]| && g.predictors[nt][k] == c;
      assert StepIs(g.steps, g.predictors[nt][k], nt - 0);
    }
  }

  // ---------- building the tables ----------

  // the tables for the tokens alone: configuration i is a token of nonterminal i
  method TokenTables(nts: nat, ghost rules: seq<Rule>) returns (g: Tables, ghost items: seq<Item>)
    ensures TablesOf(g, rules, items) && g.nts == nts && ListsAll(g, rules, items, [])
  {
    var steps: seq<int> := [];
    var enders: seq<seq<nat>> := [];
    items := [];
    for i := 0 to nts
      invariant |steps| == |enders| == |items| == i
      invariant forall c | 0 <= c < i :: steps[c] == c - nts && enders[c] == [c] && items[c] == Word(c)
    {
      steps, enders, items := steps + [i - nts], enders + [[i]], items + [Word(i)];
    }
    g := Tables(nts, seq(nts, _ => []), enders, seq(nts, _ => []), steps);
  }

  function Push(table: seq<seq<nat>>, nt: nat, c: nat): (r: seq<seq<nat>>)
    requires nt < |table|
    ensures |r| == |table|
  {
    table[nt := [c] + table[nt]]
  }

  lemma PushAt(table: seq<seq<nat>>, steps: seq<int>, more: seq<int>, shift: nat, nt: nat, c: nat)
    requires AllAt(table, steps, shift) && steps <= more && nt < |table| && c < |more| && more[c] == nt - shift
    ensures AllAt(Push(table, nt, c), more, shift)
  {
    var t := Push(table, nt, c);
    forall n, k | 0 <= n < |t| && 0 <= k < |t[n]| ensures StepIs(more, t[n][k], n - shift) {
      if n != nt || k > 0 { assert StepIs(steps, table[n][if n == nt then k - 1 else k], n - shift); }
    }
  }

  lemma AllMore(table: seq<seq<nat>>, steps: seq<int>, more: seq<int>, shift: nat)
    requires AllAt(table, steps, shift) && steps <= more
    ensures AllAt(table, more, shift)
  {
    forall n, k | 0 <= n < |table| && 0 <= k < |table[n]| ensures StepIs(more, table[n][k], n - shift) {
      assert StepIs(steps, table[n][k], n - shift);
    }
  }

  lemma PushStart(table: seq<seq<nat>>, items: seq<Item>, more: seq<Item>, nt: nat, c: nat)
    requires AllStart(table, items) && items <= more && nt < |table| && c < |more| && more[c].Dotted? && more[c].dot == 0
    ensures AllStart(Push(table, nt, c), more)
  {
    var t := Push(table, nt, c);
    forall n, k | 0 <= n < |t| && 0 <= k < |t[n]| ensures StartAt(more, t[n][k]) {
      if n != nt || k > 0 { assert StartAt(items, table[n][if n == nt then k - 1 else k]); }
    }
  }

  // one rule: a configuration for each position of the dot
  method AddRule(g: Tables, ghost rules: seq<Rule>, ghost items: seq<Item>, rule: Rule, ghost starts: seq<nat>)
    returns (g': Tables, ghost items': seq<Item>)
    requires TablesOf(g, rules, items) && |starts| < |rules| && rules[|starts|] == rule && ListsAll(g, rules, items, starts)
    requires rule.lhs < g.nts && forall nt | nt in rule.rhs :: nt < g.nts
    ensures TablesOf(g', rules, items') && g'.nts == g.nts && ListsAll(g', rules, items', starts + [|g.steps|])
  {
    ghost var r := |starts|;
    var conf := |g.steps|;
    var steps, predictors := g.steps, g.predictors;
    items' := items;
    ghost var rhs := rule.rhs;
    for d := 0 to |rule.rhs|
      invariant |steps| == |items'| == conf + d && |predictors| == g.nts && items == items'[..conf] && g.steps == steps[..conf]
      invariant forall c | conf <= c < conf + d :: steps[c] == rhs[c - conf] && items'[c] == Dotted(r, c - conf)
      invariant AllAt(predictors, steps, 0) && Wider(g.predictors, predictors)
      invariant forall c | conf <= c < conf + d :: 0 <= steps[c] < g.nts && c in predictors[steps[c]]
    {
      var nt := rule.rhs[d];
      assert nt in rule.rhs;
      PushAt(predictors, steps, steps + [nt], 0, nt, conf + d);
      steps, predictors := steps + [nt], Push(predictors, nt, conf + d);
      items' := items' + [Dotted(r, d)];
    }
    var end := conf + |rule.rhs|;
    ghost var before := steps;
    steps, items' := steps + [rule.lhs - g.nts], items' + [Dotted(r, |rhs|)];
    assert g.steps <= steps && items <= items';
    PushStart(g.starters, items, items', rule.lhs, conf);
    PushAt(g.enders, g.steps, steps, g.nts, rule.lhs, end);
    assert AllAt(predictors, steps, 0) by { AllMore(predictors, before, steps, 0); }
    g' := Tables(g.nts, Push(g.starters, rule.lhs, conf), Push(g.enders, rule.lhs, end), predictors, steps);
    RuleItems(g, g', rules, items, items', r, conf);
    ListsMore(g, g', rules, items, items', starts, conf);
  }

  /** No list lost anything. */
  ghost predicate Wider(a: seq<seq<nat>>, b: seq<seq<nat>>) {
    |a| == |b| && forall nt | 0 <= nt < |a| :: forall c | c in a[nt] :: c in b[nt]
  }

  lemma ListsMore(g: Tables, g': Tables, rules: seq<Rule>, items: seq<Item>, items': seq<Item>, starts: seq<nat>, conf: nat)
    requires TablesOf(g, rules, items) && TablesOf(g', rules, items') && ListsAll(g, rules, items, starts) && g.nts == g'.nts
    requires Wider(g.starters, g'.starters) && Wider(g.enders, g'.enders) && Wider(g.predictors, g'.predictors)
    requires items <= items' && g.steps <= g'.steps && conf == |items|
    requires |starts| < |rules| && StartOf(g', rules, items', |starts|, conf)
    requires forall c | conf <= c < |items'| :: Listed(g', rules, items', c)
    ensures ListsAll(g', rules, items', starts + [conf])
  {
    forall c | 0 <= c < |items'| ensures Listed(g', rules, items', c) {
      if c < conf { assert Listed(g, rules, items, c) && g'.steps[c] == g.steps[c] && ItemOk(g, rules, items, c); }
    }
    forall r | 0 <= r <= |starts| ensures StartOf(g', rules, items', r, (starts + [conf])[r]) {
      if r < |starts| { assert StartOf(g, rules, items, r, starts[r]); }
    }
  }

  lemma RuleItems(g: Tables, g': Tables, rules: seq<Rule>, items: seq<Item>, items': seq<Item>, r: nat, conf: nat)
    requires TablesOf(g, rules, items) && r < |rules| && rules[r].lhs < g.nts && forall nt | nt in rules[r].rhs :: nt < g.nts
    requires |items'| == |g'.steps| == conf + |rules[r].rhs| + 1 && conf == |items| && g'.nts == g.nts
    requires items == items'[..conf] && g.steps == g'.steps[..conf]
    requires forall c | conf <= c < |items'| :: items'[c] == Dotted(r, c - conf)
    requires forall c | conf <= c < |items'| - 1 :: g'.steps[c] == rules[r].rhs[c - conf]
    requires g'.steps[|items'| - 1] == rules[r].lhs - g.nts
    ensures forall c | 0 <= c < |items'| :: ItemOk(g', rules, items', c)
  {
    forall c | 0 <= c < |items'| ensures ItemOk(g', rules, items', c) {
      if c < conf {
        assert ItemOk(g, rules, items, c) && items'[c] == items[c] && g'.steps[c] == g.steps[c];
        assert c + 1 < conf ==> items'[c + 1] == items[c + 1];
      } else if c < |items'| - 1 {
        assert rules[r].rhs[c - conf] in rules[r].rhs;
      }
    }
  }

  /** The tables of a whole grammar. */
  method MakeTables(rules: seq<Rule>, nts: nat) returns (g: Tables, ghost items: seq<Item>, ghost starts: seq<nat>)
    requires forall rule | rule in rules :: rule.lhs < nts && forall nt | nt in rule.rhs :: nt < nts
    ensures TablesOf(g, rules, items) && g.nts == nts && ListsAll(g, rules, items, starts) && |starts| == |rules|
  {
    g, items := TokenTables(nts, rules);
    starts := [];
    for r := 0 to |rules|
      invariant TablesOf(g, rules, items) && g.nts == nts && ListsAll(g, rules, items, starts) && |starts| == r
    {
      assert rules[r] in rules;
      ghost var first := |g.steps|;
      g, items := AddRule(g, rules, items, rules[r], starts);
      starts := starts + [first];
    }
  }
}
