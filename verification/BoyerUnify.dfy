/** One-way unification (earley-boyer.js:4192-4224): find bindings for the symbols of
    a pattern that turn it into a given term. */
module BoyerUnify {
  import opened BoyerTerms

  /** The outcome and the final value of the global `unify_subst`, which keeps the
      bindings made so far when matching fails. */
  function Unify(s: Alist, term: Term, pattern: Term): (bool, Alist)
    decreases pattern
  {
    match pattern
    case Sym(n) =>
      (match Assq(n, s)
       case Some(t) => (term == t, s)
       case None => (true, Bind(n, term, s)))
    case Num(_) => (term == pattern, s)
    case App(op, args) =>
      if term.App? && term.op == op then UnifyList(s, term.args, args) else (false, s)
  }

  function UnifyList(s: Alist, terms: Terms, patterns: Terms): (bool, Alist)
    decreases patterns
  {
    if terms.Nil? then (patterns.Nil?, s)
    else if patterns.Nil? then (false, s)
    else
      var (ok, s') := Unify(s, terms.car, patterns.car);
      if ok then UnifyList(s', terms.cdr, patterns.cdr) else (false, s')
  }

  /** `theta` gives every bound symbol the term it is bound to. */
  ghost predicate Agrees(theta: string -> Term, s: Alist) {
    forall n :: Assq(n, s).Some? ==> theta(n) == Assq(n, s).value
  }

  /** On success the substitutions compatible with the result are exactly those compatible
      with the input that also turn the pattern into the term; on failure there is none. */
  lemma {:induction false} UnifyExact(s: Alist, term: Term, pattern: Term, theta: string -> Term)
    ensures var (ok, s') := Unify(s, term, pattern);
      (Agrees(theta, s) && Instance(theta, pattern) == term) <==> (ok && Agrees(theta, s'))
    decreases pattern
  {
    match pattern
    case Num(_) =>
    case App(op, args) =>
      if term.App? && term.op == op { UnifyListExact(s, term.args, args, theta); }
    case Sym(n) =>
      if Assq(n, s).None? {
        var s' := Bind(n, term, s);
        assert forall m :: Assq(m, s') == if m == n then Some(term) else Assq(m, s);
        assert Agrees(theta, s') ==> Agrees(theta, s) && theta(n) == term by {
          if Agrees(theta, s') {
            assert Assq(n, s').Some?;
            assert forall m :: Assq(m, s).Some? ==> Assq(m, s').Some?;
          }
        }
      }
  }

  lemma {:induction false} UnifyListExact(s: Alist, terms: Terms, patterns: Terms, theta: string -> Term)
    ensures var (ok, s') := UnifyList(s, terms, patterns);
      (Agrees(theta, s) && InstanceList(theta, patterns) == terms) <==> (ok && Agrees(theta, s'))
    decreases patterns
  {
    if terms.Cons? && patterns.Cons? {
      UnifyExact(s, terms.car, patterns.car, theta);
      UnifyListExact(Unify(s, terms.car, patterns.car).1, terms.cdr, patterns.cdr, theta);
    }
  }

  lemma TotalAgrees(s: Alist)
    ensures Agrees(Total(s), s)
  {}

  ghost predicate Matches(pattern: Term, term: Term) {
    exists theta: string -> Term :: Instance(theta, pattern) == term
  }

  /** Matching succeeds exactly when some substitution makes the pattern equal to the term,
      and then the recorded one does. */
  lemma UnifyDecides(term: Term, pattern: Term)
    ensures Unify(Empty, term, pattern).0 <==> Matches(pattern, term)
    ensures Unify(Empty, term, pattern).0 ==> ApplySubst(Unify(Empty, term, pattern).1, pattern) == term
  {
    var (ok, s) := Unify(Empty, term, pattern);
    if ok {
      TotalAgrees(s);
      UnifyExact(Empty, term, pattern, Total(s));
      ApplyIsInstance(s, pattern);
    }
    forall theta: string -> Term | Instance(theta, pattern) == term ensures ok {
      UnifyExact(Empty, term, pattern, theta);
    }
  }

  /** theta turns the pattern into the term and leaves alone what is not in the pattern. */
  ghost predicate Matching(theta: string -> Term, pattern: Term, term: Term) {
    Instance(theta, pattern) == term && forall n | n !in Symbols(pattern) :: theta(n) == Sym(n)
  }

  /** A match binds the symbols of the pattern, and no others. */
  lemma {:induction false} UnifyBinds(s: Alist, term: Term, pattern: Term)
    requires Unify(s, term, pattern).0
    ensures forall n :: Assq(n, Unify(s, term, pattern).1).Some? <==> Assq(n, s).Some? || n in Symbols(pattern)
    decreases pattern
  {
    if pattern.App? { UnifyListBinds(s, term.args, pattern.args); }
  }

  lemma {:induction false} UnifyListBinds(s: Alist, terms: Terms, patterns: Terms)
    requires UnifyList(s, terms, patterns).0
    ensures forall n :: Assq(n, UnifyList(s, terms, patterns).1).Some? <==> Assq(n, s).Some? || n in SymbolsOf(patterns)
    decreases patterns
  {
    if patterns.Cons? {
      UnifyBinds(s, terms.car, patterns.car);
      UnifyListBinds(Unify(s, terms.car, patterns.car).1, terms.cdr, patterns.cdr);
    }
  }

  /** The substitution recorded is the only one that matches and leaves other symbols alone. */
  lemma UnifyIsMatching(term: Term, pattern: Term)
    requires Unify(Empty, term, pattern).0
    ensures Matching(Total(Unify(Empty, term, pattern).1), pattern, term)
    ensures forall theta: string -> Term, n | Matching(theta, pattern, term) :: theta(n) == Total(Unify(Empty, term, pattern).1)(n)
  {
    var s := Unify(Empty, term, pattern).1;
    UnifyDecides(term, pattern);
    ApplyIsInstance(s, pattern);
    UnifyBinds(Empty, term, pattern);
    forall theta: string -> Term, n | Matching(theta, pattern, term) ensures theta(n) == Total(s)(n) {
      UnifyExact(Empty, term, pattern, theta);
    }
  }
}
