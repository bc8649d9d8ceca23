/** The prover as the benchmark runs it: install the lemmas, substitute into the conjecture,
    rewrite, check the result (earley-boyer.js:4271-4335). */
module Boyer {
  import opened BoyerTerms
  import opened BoyerUnify
  import opened BoyerRewrite
  import opened BoyerTautology

  // ---------- installing lemmas ----------

  /** add-lemma over a list; stops at the first term it does not accept. */
  function Install(eqs: Terms, db: Records): (bool, Records) {
    if eqs.Nil? then (true, db)
    else if !IsEquation(eqs.car) then (false, db)
    else
      var op := Lhs(eqs.car).op;
      Install(eqs.cdr, db[op := Cons(eqs.car, LemmasOf(db, op))])
  }

  lemma {:induction false} InstallAccepts(eqs: Terms, db: Records)
    requires Installed(db)
    ensures Installed(Install(eqs, db).1)
    ensures Install(eqs, db).0 <==> Accepted(eqs)
    decreases eqs
  {
    if eqs.Cons? && IsEquation(eqs.car) {
      var op := Lhs(eqs.car).op;
      InstallAccepts(eqs.cdr, db[op := Cons(eqs.car, LemmasOf(db, op))]);
    }
  }

  function Append(a: Terms, b: Terms): Terms {
    if a.Nil? then b else Cons(a.car, Append(a.cdr, b))
  }

  function Reverse(l: Terms): Terms {
    if l.Nil? then Nil else Append(Reverse(l.cdr), Cons(l.car, Nil))
  }

  lemma {:induction false} AppendAgain(a: Terms, b: Terms, c: Terms)
    ensures Append(Append(a, b), c) == Append(a, Append(b, c))
    decreases a
  {
    if a.Cons? { AppendAgain(a.cdr, b, c); }
  }

  lemma {:induction false} AppendNil(a: Terms)
    ensures Append(a, Nil) == a
    decreases a
  {
    if a.Cons? { AppendNil(a.cdr); }
  }

  /** The terms before the first one that is not an equation. */
  function Equations(eqs: Terms): (r: Terms)
    ensures Accepted(r) && (Accepted(eqs) <==> r == eqs)
  {
    if eqs.Cons? && IsEquation(eqs.car) then Cons(eqs.car, Equations(eqs.cdr)) else Nil
  }

  /** The equations whose left side has the symbol at its head. */
  function Headed(eqs: Terms, op: string): Terms
    requires Accepted(eqs)
  {
    if eqs.Nil? then Nil
    else if Lhs(eqs.car).op == op then Cons(eqs.car, Headed(eqs.cdr, op))
    else Headed(eqs.cdr, op)
  }

  /** Each symbol's record gets the lemmas for that symbol, the last one first. */
  lemma {:induction false} InstallRecords(eqs: Terms, db: Records, op: string)
    ensures LemmasOf(Install(eqs, db).1, op) == Append(Reverse(Headed(Equations(eqs), op)), LemmasOf(db, op))
    decreases eqs
  {
    if eqs.Cons? && IsEquation(eqs.car) {
      var f := Lhs(eqs.car).op;
      InstallRecords(eqs.cdr, db[f := Cons(eqs.car, LemmasOf(db, f))], op);
      if f == op {
        AppendAgain(Reverse(Headed(Equations(eqs.cdr), op)), Cons(eqs.car, Nil), LemmasOf(db, op));
      }
    }
  }

  /** A fresh prover holds exactly the lemmas given to it. */
  lemma InstalledLemmas(eqs: Terms, op: string)
    ensures LemmasOf(Install(eqs, map[]).1, op) == Reverse(Headed(Equations(eqs), op))
  {
    InstallRecords(eqs, map[], op);
    AppendNil(Reverse(Headed(Equations(eqs), op)));
  }

  lemma {:induction false} InstallHolds<V(!new)>(I: Interp<V>, eqs: Terms, db: Records)
    requires AllHold(I, eqs) && RecordsHold(I, db)
    ensures RecordsHold(I, Install(eqs, db).1)
    decreases eqs
  {
    if eqs.Cons? {
      var op := Lhs(eqs.car).op;
      assert AllHold(I, LemmasOf(db, op));
      InstallHolds(I, eqs.cdr, db[op := Cons(eqs.car, LemmasOf(db, op))]);
    }
  }

  lemma {:induction false} InstallKeepsIfDistribution(eqs: Terms, db: Records)
    requires Accepted(eqs)
    requires HasIfDistribution(eqs) || HasIfDistribution(LemmasOf(db, IF))
    ensures HasIfDistribution(LemmasOf(Install(eqs, db).1, IF))
    decreases eqs
  {
    if eqs.Cons? {
      var op := Lhs(eqs.car).op;
      InstallKeepsIfDistribution(eqs.cdr, db[op := Cons(eqs.car, LemmasOf(db, op))]);
    }
  }

  // ---------- the arity of `if` survives rewriting ----------

  predicate AlistArity(s: Alist) {
    s.Bind? ==> IfArity(s.term) && AlistArity(s.rest)
  }

  predicate RhsArity(eqs: Terms)
    requires Accepted(eqs)
  {
    eqs.Cons? ==> (HasRhs(eqs.car) ==> IfArity(Rhs(eqs.car))) && RhsArity(eqs.cdr)
  }

  predicate RecordsArity(db: Records)
    requires Installed(db)
  {
    forall op | op in db :: RhsArity(db[op])
  }

  lemma {:induction false} InstallArity(eqs: Terms, db: Records)
    requires Accepted(eqs) && RhsArity(eqs) && Installed(db) && RecordsArity(db)
    ensures Installed(Install(eqs, db).1) && RecordsArity(Install(eqs, db).1)
    decreases eqs
  {
    if eqs.Cons? {
      var op := Lhs(eqs.car).op;
      InstallArity(eqs.cdr, db[op := Cons(eqs.car, LemmasOf(db, op))]);
    }
  }

  lemma {:induction false} AssqArity(n: string, s: Alist)
    requires AlistArity(s) && Assq(n, s).Some?
    ensures IfArity(Assq(n, s).value)
  {
    if s.name != n { AssqArity(n, s.rest); }
  }

  lemma {:induction false} SubstArity(s: Alist, term: Term)
    requires AlistArity(s) && IfArity(term)
    ensures IfArity(ApplySubst(s, term))
  {
    match term
    case Sym(n) => if Assq(n, s).Some? { AssqArity(n, s); }
    case Num(_) =>
    case App(_, args) =>
      SubstListArity(s, args);
      ThreeIsLength(args);
      ThreeIsLength(ApplySubstList(s, args));
  }

  lemma {:induction false} SubstListArity(s: Alist, l: Terms)
    requires AlistArity(s) && IfArityList(l)
    ensures IfArityList(ApplySubstList(s, l)) && Length(ApplySubstList(s, l)) == Length(l)
  {
    if l.Cons? {
      SubstArity(s, l.car);
      SubstListArity(s, l.cdr);
    }
  }

  lemma {:induction false} UnifyArity(s: Alist, term: Term, pattern: Term)
    requires AlistArity(s) && IfArity(term)
    ensures AlistArity(Unify(s, term, pattern).1)
    decreases pattern
  {
    if pattern.App? && term.App? && term.op == pattern.op { UnifyListArity(s, term.args, pattern.args); }
  }

  lemma {:induction false} UnifyListArity(s: Alist, terms: Terms, patterns: Terms)
    requires AlistArity(s) && IfArityList(terms)
    ensures AlistArity(UnifyList(s, terms, patterns).1)
    decreases patterns
  {
    if terms.Cons? && patterns.Cons? {
      UnifyArity(s, terms.car, patterns.car);
      UnifyListArity(Unify(s, terms.car, patterns.car).1, terms.cdr, patterns.cdr);
    }
  }

  lemma {:induction false} RewriteArity(db: Records, term: Term, fuel: nat)
    requires Installed(db) && RecordsArity(db)
    requires IfArity(term) && Rewrite(db, term, fuel).Done?
    ensures IfArity(Rewrite(db, term, fuel).value)
    decreases fuel, 0, Nil
  {
    if term.App? {
      RewriteArgsArity(db, term.args, fuel - 1);
      ThreeIsLength(term.args);
      ThreeIsLength(RewriteArgs(db, term.args, fuel - 1).value);
      TryArity(db, App(term.op, RewriteArgs(db, term.args, fuel - 1).value), LemmasOf(db, term.op), fuel - 1);
    }
  }

  lemma {:induction false} RewriteArgsArity(db: Records, l: Terms, fuel: nat)
    requires Installed(db) && RecordsArity(db)
    requires IfArityList(l) && RewriteArgs(db, l, fuel).Done?
    ensures var l' := RewriteArgs(db, l, fuel).value; IfArityList(l') && Length(l') == Length(l)
    decreases fuel, 1, l
  {
    if l.Cons? {
      RewriteArity(db, l.car, fuel);
      RewriteArgsArity(db, l.cdr, fuel);
    }
  }

  lemma {:induction false} TryArity(db: Records, term: Term, eqs: Terms, fuel: nat)
    requires Installed(db) && RecordsArity(db) && Accepted(eqs) && RhsArity(eqs)
    requires IfArity(term) && Try(db, term, eqs, fuel).Done?
    ensures IfArity(Try(db, term, eqs, fuel).value)
    decreases fuel, 1, eqs
  {
    if eqs.Cons? {
      var (ok, s) := Unify(Empty, term, Lhs(eqs.car));
      if !ok {
        TryArity(db, term, eqs.cdr, fuel);
      } else {
        UnifyArity(Empty, term, Lhs(eqs.car));
        SubstArity(s, Rhs(eqs.car));
        RewriteArity(db, ApplySubst(s, Rhs(eqs.car)), fuel);
      }
    }
  }

  // ---------- irreducible terms are if-normal ----------

  lemma {:induction false} DistributionMatches(eqs: Terms, cond: Term, thn: Term, els: Term)
    requires Accepted(eqs) && HasIfDistribution(eqs)
    requires cond.App? && cond.op == IF && Three(cond.args)
    ensures !NoMatch(eqs, App(IF, Cons(cond, Cons(thn, Cons(els, Nil)))))
  {
    if !IsIfDistribution(eqs.car) {
      DistributionMatches(eqs.cdr, cond, thn, els);
    } else {
      var total: string -> Term := n =>
        if n == "a" then cond.args.car else if n == "b" then cond.args.cdr.car
        else if n == "c" then cond.args.cdr.cdr.car else if n == "d" then thn else els;
      var de := Cons(Sym("d"), Cons(Sym("e"), Nil));
      var abc := Cons(Sym("a"), Cons(Sym("b"), Cons(Sym("c"), Nil)));
      assert InstanceList(total, abc.cdr) == cond.args.cdr;
      assert Instance(total, App(IF, abc)) == cond;
      assert InstanceList(total, de) == Cons(thn, Cons(els, Nil));
      assert Instance(total, Lhs(eqs.car)) == App(IF, Cons(cond, Cons(thn, Cons(els, Nil))));
    }
  }

  lemma {:induction false} IrreducibleIsIfNormal(db: Records, term: Term)
    requires Installed(db) && HasIfDistribution(LemmasOf(db, IF))
    requires IfArity(term) && Irreducible(db, term)
    ensures IfNormal(term)
    decreases term
  {
    if term.App? && term.op == IF {
      var c, thn, els := term.args.car, term.args.cdr.car, term.args.cdr.cdr.car;
      assert IfArity(c);
      if c.App? && c.op == IF {
        assert term == App(IF, Cons(c, Cons(thn, Cons(els, Nil))));
        DistributionMatches(LemmasOf(db, IF), c, thn, els);
      }
      assert IfArityList(term.args.cdr) && IrreducibleList(db, term.args.cdr);
      assert IfArityList(term.args.cdr.cdr) && IrreducibleList(db, term.args.cdr.cdr);
      IrreducibleIsIfNormal(db, thn);
      IrreducibleIsIfNormal(db, els);
    }
  }

  // ---------- the whole run ----------

  /** The conjecture with n disjuncts `or ... f` wrapped around it. */
  function Padded(term: Term, n: nat): Term
    decreases n
  {
    if n == 0 then term else Padded(App("or", Cons(term, Cons(FALSE_TERM, Nil))), n - 1)
  }

  /** One layer for each step of the loop, whichever end it is counted from. */
  lemma {:induction false} PaddedLayers(term: Term, n: nat)
    ensures Padded(term, 0) == term
    ensures Padded(term, n + 1) == App("or", Cons(Padded(term, n), Cons(FALSE_TERM, Nil)))
    decreases n
  {
    if n > 0 { PaddedLayers(App("or", Cons(term, Cons(FALSE_TERM, Nil))), n - 1); }
  }

  function Test(db: Records, conjecture: Term, n: nat, alist: Alist, fuel: nat): Outcome<Verdict>
    requires Installed(db)
  {
    match Rewrite(db, ApplySubst(alist, Padded(conjecture, n)), fuel)
    case Done(t, count) => Done(Tautology(t, Nil, Nil), count)
    case Crash => Crash
    case OutOfFuel => OutOfFuel
  }

  /** The term rewrites, in count calls, to one with verdict v. */
  ghost predicate Answers(db: Records, term: Term, v: Verdict, count: nat, fuel: nat)
    requires Installed(db)
  {
    exists t :: Rewrites(db, term, t, count, fuel) && Tautology(t, Nil, Nil) == v
  }

  /** The answer and the count of the test are those of rewriting the padded instance and checking what it
      rewrites to; it fails exactly if rewriting does. */
  lemma TestIsRewriting(db: Records, conjecture: Term, n: nat, alist: Alist, v: Verdict, count: nat, fuel: nat)
    requires Installed(db)
    ensures var term := Instance(Total(alist), Padded(conjecture, n));
      && (Test(db, conjecture, n, alist, fuel) == Done(v, count) <==> Answers(db, term, v, count, fuel))
      && (Test(db, conjecture, n, alist, fuel) == Crash <==> Fails(db, term, fuel))
  {
    var term := Instance(Total(alist), Padded(conjecture, n));
    ApplyIsInstance(alist, Padded(conjecture, n));
    AnswersRewritten(db, term, v, count, fuel);
    CrashExactly(db, term, fuel);
  }

  lemma AnswersRewritten(db: Records, term: Term, v: Verdict, count: nat, fuel: nat)
    requires Installed(db)
    ensures Answers(db, term, v, count, fuel) <==>
      match Rewrite(db, term, fuel) case Done(t, k) => k == count && Tautology(t, Nil, Nil) == v case _ => false
  {
    var r := Rewrite(db, term, fuel);
    if r.Done? {
      RewriteExactly(db, term, r.value, r.count, fuel);
    }
    if t :| Rewrites(db, term, t, count, fuel) && Tautology(t, Nil, Nil) == v {
      RewriteExactly(db, term, t, count, fuel);
    }
  }

  /** Soundness of the pipeline: an accepted conjecture is non-false, under every assignment,
      in every standard interpretation that satisfies the lemmas handed to setup. */
  lemma TestSound<V(!new)>(I: Interp<V>, eqs: Terms, conjecture: Term, n: nat, alist: Alist, fuel: nat, env: string -> V)
    requires Standard(I) && AllHold(I, eqs)
    ensures Installed(Install(eqs, map[]).1)
    ensures Test(Install(eqs, map[]).1, conjecture, n, alist, fuel).Done?
            && Test(Install(eqs, map[]).1, conjecture, n, alist, fuel).value == Yes
            ==> Eval(I, env, ApplySubst(alist, Padded(conjecture, n))) != False(I)
  {
    var db := Install(eqs, map[]).1;
    InstallAccepts(eqs, map[]);
    InstallHolds(I, eqs, map[]);
    var term := ApplySubst(alist, Padded(conjecture, n));
    var r := Rewrite(db, term, fuel);
    if r.Done? && Tautology(r.value, Nil, Nil) == Yes {
      RewriteSound(I, db, env, term, fuel);
      TautologySound(I, env, r.value, Nil, Nil);
    }
  }

  /** (equal (or p q) (if p (t) (if q (t) (f)))) */
  ghost predicate OrDefined<V(!new)>(I: Interp<V>) {
    forall p: V, q: V {:trigger I.fn("or", [p, q])} ::
      I.fn("or", [p, q]) == I.fn(IF, [p, I.fn("t", []), I.fn(IF, [q, I.fn("t", []), False(I)])])
  }

  lemma {:induction false} PaddingKeepsTruth<V(!new)>(I: Interp<V>, env: string -> V, alist: Alist, term: Term, n: nat)
    requires Standard(I) && OrDefined(I)
    ensures Eval(I, env, ApplySubst(alist, Padded(term, n))) != False(I)
       <==> Eval(I, env, ApplySubst(alist, term)) != False(I)
    decreases n
  {
    if n > 0 {
      var or := App("or", Cons(term, Cons(FALSE_TERM, Nil)));
      PaddingKeepsTruth(I, env, alist, or, n - 1);
      var p, f := Eval(I, env, ApplySubst(alist, term)), False(I);
      assert ApplySubst(alist, FALSE_TERM) == FALSE_TERM;
      assert ApplySubstList(alist, or.args.cdr) == Cons(FALSE_TERM, Nil);
      assert Eval(I, env, FALSE_TERM) == f;
      assert EvalList(I, env, Cons(FALSE_TERM, Nil)) == [f] + EvalList(I, env, Nil);
      assert EvalList(I, env, ApplySubstList(alist, or.args)) == [p, f];
      assert I.fn(IF, [f, I.fn("t", []), f]) == f;
    }
  }

  /** The padding changes the amount of rewriting, not what acceptance says of the conjecture. */
  lemma TestSoundForConjecture<V(!new)>(I: Interp<V>, eqs: Terms, conjecture: Term, n: nat, alist: Alist, fuel: nat, env: string -> V)
    requires Standard(I) && OrDefined(I) && AllHold(I, eqs)
    ensures Installed(Install(eqs, map[]).1)
    ensures Test(Install(eqs, map[]).1, conjecture, n, alist, fuel).Done?
            && Test(Install(eqs, map[]).1, conjecture, n, alist, fuel).value == Yes
            ==> Eval(I, env, ApplySubst(alist, conjecture)) != False(I)
  {
    TestSound(I, eqs, conjecture, n, alist, fuel, env);
    PaddingKeepsTruth(I, env, alist, conjecture, n);
  }

  /** With the if-distribution lemma installed and `if` used with three arguments, a run that
      ends gives a verdict, and accepts exactly when the rewritten term is truth-table valid; that is
      when no interpretation makes it false, if no atom of it occurs inside another. */
  lemma TestDecides(eqs: Terms, conjecture: Term, n: nat, alist: Alist, fuel: nat)
    requires Accepted(eqs) && HasIfDistribution(eqs) && RhsArity(eqs)
    requires IfArity(ApplySubst(alist, Padded(conjecture, n)))
    ensures Installed(Install(eqs, map[]).1)
    ensures var r := Rewrite(Install(eqs, map[]).1, ApplySubst(alist, Padded(conjecture, n)), fuel);
            var v := Test(Install(eqs, map[]).1, conjecture, n, alist, fuel);
            r.Done? ==>
              && IfNormal(r.value) && Complete(r.value) && v.Done? && v.value == (if Valid(r.value) then Yes else No)
              && (Independent(r.value) ==> (v.value == Yes <==> NeverFalse(r.value)))
  {
    var db := Install(eqs, map[]).1;
    InstallArity(eqs, map[]);
    InstallKeepsIfDistribution(eqs, map[]);
    var term := ApplySubst(alist, Padded(conjecture, n));
    var r := Rewrite(db, term, fuel);
    if r.Done? {
      RewriteArity(db, term, fuel);
      RewriteNormalizes(db, term, fuel);
      IrreducibleIsIfNormal(db, r.value);
      TautologyDecides(r.value);
      if Independent(r.value) { TautologyDecidesMeaning(r.value); }
    }
  }

  // ---------- the program: global state and loops ----------

  class Prover {
    var records: Records
    var unifySubst: Alist
    var rewriteCount: nat

    constructor ()
      ensures records == map[] && rewriteCount == 0
    {
      records := map[];
      unifySubst := Empty;
      rewriteCount := 0;
    }

    method Setup(eqs: Terms) returns (ok: bool)
      modifies `records
      ensures (ok, records) == Install(eqs, map[])
      ensures ok <==> Accepted(eqs)
      ensures Installed(records) && forall op :: LemmasOf(records, op) == Reverse(Headed(Equations(eqs), op))
    {
      records := map[];
      var lst := eqs;
      forall op ensures LemmasOf(Install(eqs, map[]).1, op) == Reverse(Headed(Equations(eqs), op)) { InstalledLemmas(eqs, op); }
      InstallAccepts(eqs, map[]);
      while lst.Cons?
        invariant Install(lst, records) == Install(eqs, map[])
        decreases lst
      {
        if !IsEquation(lst.car) {
          return false;
        }
        var op := Lhs(lst.car).op;
        records := records[op := Cons(lst.car, LemmasOf(records, op))];
        lst := lst.cdr;
      }
      return true;
    }

    method OneWayUnify1(term: Term, pattern: Term) returns (ok: bool)
      modifies `unifySubst
      ensures (ok, unifySubst) == Unify(old(unifySubst), term, pattern)
      decreases pattern
    {
      match pattern
      case Sym(n) =>
        var bound := Assq(n, unifySubst);
        if bound.Some? {
          ok := IsTermEqual(term, bound.value);
        } else {
          unifySubst := Bind(n, term, unifySubst);
          ok := true;
        }
      case Num(_) =>
        ok := term == pattern;
      case App(op, args) =>
        if !term.App? || term.op != op {
          return false;
        }
        var l1, l2 := term.args, args;
        while true
          invariant UnifyList(unifySubst, l1, l2) == UnifyList(old(unifySubst), term.args, args)
          invariant l2 == args || l2 < args
          decreases l2
        {
          if l1.Nil? {
            return l2.Nil?;
          } else if l2.Nil? {
            return false;
          }
          var same := OneWayUnify1(l1.car, l2.car);
          if !same {
            return false;
          }
          l1, l2 := l1.cdr, l2.cdr;
        }
    }

    /** `unify_subst` is scratch: it is cleared before every attempt to match. */
    method RewriteTerm(term: Term, fuel: nat) returns (r: Outcome<Term>)
      requires Installed(records)
      modifies `unifySubst, `rewriteCount
      ensures r.OutOfFuel? || r.Crash? || (r.Done? && rewriteCount == old(rewriteCount) + r.count)
      ensures r == Rewrite(records, term, fuel)
      decreases fuel, 0, Nil
    {
      if fuel == 0 {
        return OutOfFuel;
      }
      rewriteCount := rewriteCount + 1;
      if !term.App? {
        return Done(term, 1);
      }
      var args := RewriteTermArgs(term.args, fuel - 1);
      if args.Crash? { return Crash; }
      if args.OutOfFuel? { return OutOfFuel; }
      var term' := App(term.op, args.value);
      var lst := LemmasOf(records, term.op);
      while lst.Cons?
        invariant Accepted(lst) && rewriteCount == old(rewriteCount) + 1 + args.count
        invariant Try(records, term', lst, fuel - 1) == Try(records, term', LemmasOf(records, term.op), fuel - 1)
        decreases lst
      {
        unifySubst := Empty;
        var ok := OneWayUnify1(term', Lhs(lst.car));
        if ok {
          if !HasRhs(lst.car) { return Crash; }
          r := RewriteTerm(ApplySubst(unifySubst, Rhs(lst.car)), fuel - 1);
          return r.Add(args.count + 1);
        }
        lst := lst.cdr;
      }
      return Done(term', args.count + 1);
    }

    method RewriteTermArgs(l: Terms, fuel: nat) returns (r: Outcome<Terms>)
      requires Installed(records)
      modifies `unifySubst, `rewriteCount
      ensures r.Done? ==> rewriteCount == old(rewriteCount) + r.count
      ensures r == RewriteArgs(records, l, fuel)
      decreases fuel, 1, l
    {
      if l.Nil? {
        return Done(Nil, 0);
      }
      var t := RewriteTerm(l.car, fuel);
      if t.Crash? { return Crash; }
      if t.OutOfFuel? { return OutOfFuel; }
      var rest := RewriteTermArgs(l.cdr, fuel);
      if rest.Crash? { return Crash; }
      if rest.OutOfFuel? { return OutOfFuel; }
      return Done(Cons(t.value, rest.value), t.count + rest.count);
    }

    /** The benchmark's test: on acceptance the number of rewrites is in `rewriteCount`. */
    method TestBoyer(conjecture: Term, n: nat, alist: Alist, fuel: nat) returns (r: Outcome<Verdict>)
      requires Installed(records)
      modifies `unifySubst, `rewriteCount
      ensures r == Test(records, conjecture, n, alist, fuel)
      ensures r.Done? ==> rewriteCount == r.count
    {
      rewriteCount := 0;
      var term, k := conjecture, n;
      while k != 0
        invariant Padded(term, k) == Padded(conjecture, n)
      {
        term := App("or", Cons(term, Cons(FALSE_TERM, Nil)));
        k := k - 1;
      }
      var t := RewriteTerm(ApplySubst(alist, term), fuel);
      if t.Crash? { return Crash; }
      if t.OutOfFuel? { return OutOfFuel; }
      var v := Tautologyp(t.value, Nil, Nil);
      return Done(v, t.count);
    }
  }
}
