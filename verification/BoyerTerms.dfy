/** Terms of the Boyer theorem prover, their equality test, substitution and
    meaning (earley-boyer.js:4121-4129, 4231-4270).

    A translated term is either an atom or a list whose head is a symbol record.
    There is one record per symbol, so a record is modelled by the name it interns. */
module BoyerTerms {

  datatype Option<+T> = None | Some(value: T)

  datatype Term = Sym(name: string) | Num(value: int) | App(op: string, args: Terms)
  datatype Terms = Nil | Cons(car: Term, cdr: Terms)

  const IF := "if"
  const TRUE_TERM: Term := App("t", Nil)
  const FALSE_TERM: Term := App("f", Nil)

  /** An association list, newest binding first. */
  datatype Alist = Empty | Bind(name: string, term: Term, rest: Alist)

  // sc_assq on a symbol
  function Assq(name: string, alist: Alist): Option<Term> {
    match alist
    case Empty => None
    case Bind(n, t, rest) => if n == name then Some(t) else Assq(name, rest)
  }

  /** is_term_equal: the hand-written comparison decides equality of terms. */
  method IsTermEqual(x: Term, y: Term) returns (eq: bool)
    ensures eq <==> x == y
    decreases x
  {
    if x.App? {
      if !y.App? || x.op != y.op {
        return false;
      }
      var l1, l2 := x.args, y.args;
      while true
        invariant l1 == l2 <==> x == y
        invariant l1 == x.args || l1 < x.args
        decreases l1
      {
        if l1.Nil? {
          return l2.Nil?;
        } else if l2.Nil? {
          return false;
        }
        var same := IsTermEqual(l1.car, l2.car);
        if !same {
          return false;
        }
        l1, l2 := l1.cdr, l2.cdr;
      }
    } else {
      return x == y;
    }
  }

  predicate Member(x: Term, l: Terms) {
    l.Cons? && (l.car == x || Member(x, l.cdr))
  }

  method IsTermMember(x: Term, l0: Terms) returns (found: bool)
    ensures found <==> Member(x, l0)
  {
    var l := l0;
    while l.Cons?
      invariant Member(x, l) <==> Member(x, l0)
      decreases l
    {
      var same := IsTermEqual(x, l.car);
      if same {
        return true;
      }
      l := l.cdr;
    }
    return false;
  }

  // ---------- substitution ----------

  function ApplySubst(alist: Alist, term: Term): Term {
    match term
    case Sym(n) => (match Assq(n, alist) case Some(t) => t case None => term)
    case Num(_) => term
    case App(op, args) => App(op, ApplySubstList(alist, args))
  }

  function ApplySubstList(alist: Alist, l: Terms): Terms {
    match l
    case Nil => Nil
    case Cons(t, rest) => Cons(ApplySubst(alist, t), ApplySubstList(alist, rest))
  }

  /** The same operation for a substitution given on every symbol at once. */
  ghost function Instance(theta: string -> Term, term: Term): Term {
    match term
    case Sym(n) => theta(n)
    case Num(_) => term
    case App(op, args) => App(op, InstanceList(theta, args))
  }

  ghost function InstanceList(theta: string -> Term, l: Terms): Terms {
    match l
    case Nil => Nil
    case Cons(t, rest) => Cons(Instance(theta, t), InstanceList(theta, rest))
  }

  ghost function Total(alist: Alist): string -> Term {
    n => match Assq(n, alist) case Some(t) => t case None => Sym(n)
  }

  /** The symbols that stand in a term. */
  function Symbols(term: Term): set<string> {
    match term
    case Sym(n) => {n}
    case Num(_) => {}
    case App(_, args) => SymbolsOf(args)
  }

  function SymbolsOf(l: Terms): set<string> {
    if l.Nil? then {} else Symbols(l.car) + SymbolsOf(l.cdr)
  }

  /** Substitutions that agree on its symbols have the same effect on a term. */
  lemma {:induction false} InstanceSame(theta: string -> Term, eta: string -> Term, term: Term)
    requires forall n | n in Symbols(term) :: theta(n) == eta(n)
    ensures Instance(theta, term) == Instance(eta, term)
  {
    if term.App? { InstanceListSame(theta, eta, term.args); }
  }

  lemma {:induction false} InstanceListSame(theta: string -> Term, eta: string -> Term, l: Terms)
    requires forall n | n in SymbolsOf(l) :: theta(n) == eta(n)
    ensures InstanceList(theta, l) == InstanceList(eta, l)
  {
    if l.Cons? {
      InstanceSame(theta, eta, l.car);
      InstanceListSame(theta, eta, l.cdr);
    }
  }

  lemma {:induction false} ApplyIsInstance(alist: Alist, term: Term)
    ensures ApplySubst(alist, term) == Instance(Total(alist), term)
  {
    if term.App? { ApplyListIsInstance(alist, term.args); }
  }

  lemma {:induction false} ApplyListIsInstance(alist: Alist, l: Terms)
    ensures ApplySubstList(alist, l) == InstanceList(Total(alist), l)
  {
    if l.Cons? {
      ApplyIsInstance(alist, l.car);
      ApplyListIsInstance(alist, l.cdr);
    }
  }

  // ---------- meaning ----------

  /** An interpretation of the function symbols and numerals over any domain. */
  datatype Interp<!V> = Interp(fn: (string, seq<V>) -> V, num: int -> V)

  ghost function False<V>(I: Interp<V>): V {
    I.fn("f", [])
  }

  /** `t` differs from `f`, and `if` selects; everything else is free. */
  ghost predicate Standard<V(!new)>(I: Interp<V>) {
    && I.fn("t", []) != False(I)
    && (forall vs: seq<V> :: |vs| >= 2 && vs[0] != False(I) ==> I.fn(IF, vs) == vs[1])
    && (forall vs: seq<V> :: |vs| >= 3 && vs[0] == False(I) ==> I.fn(IF, vs) == vs[2])
  }

  ghost function Eval<V>(I: Interp<V>, env: string -> V, term: Term): V {
    match term
    case Sym(n) => env(n)
    case Num(k) => I.num(k)
    case App(op, args) => I.fn(op, EvalList(I, env, args))
  }

  ghost function EvalList<V>(I: Interp<V>, env: string -> V, l: Terms): seq<V> {
    match l
    case Nil => []
    case Cons(t, rest) => [Eval(I, env, t)] + EvalList(I, env, rest)
  }

  ghost function Compose<V>(I: Interp<V>, env: string -> V, theta: string -> Term): string -> V {
    n => Eval(I, env, theta(n))
  }

  /** Substitution lemma: instantiating a term is evaluating it in the composed environment. */
  lemma {:induction false} SubstitutionLemma<V>(I: Interp<V>, env: string -> V, theta: string -> Term, term: Term)
    ensures Eval(I, env, Instance(theta, term)) == Eval(I, Compose(I, env, theta), term)
  {
    if term.App? { SubstitutionLemmaList(I, env, theta, term.args); }
  }

  lemma {:induction false} SubstitutionLemmaList<V>(I: Interp<V>, env: string -> V, theta: string -> Term, l: Terms)
    ensures EvalList(I, env, InstanceList(theta, l)) == EvalList(I, Compose(I, env, theta), l)
  {
    if l.Cons? {
      SubstitutionLemma(I, env, theta, l.car);
      SubstitutionLemmaList(I, env, theta, l.cdr);
    }
  }
}
