/** The tautology checker over if-terms (earley-boyer.js:4130-4160). */
module BoyerTautology {
  import opened BoyerTerms
  import opened BoyerRewrite

  /** Reading a missing argument of an `if` raises an exception. */
  datatype Verdict = Yes | No | Failed

  predicate AssumedTrue(x: Term, trues: Terms) { x == TRUE_TERM || Member(x, trues) }

  predicate AssumedFalse(x: Term, falses: Terms) { x == FALSE_TERM || Member(x, falses) }

  function Tautology(x: Term, trues: Terms, falses: Terms): Verdict
    decreases x
  {
    if AssumedTrue(x, trues) then Yes
    else if AssumedFalse(x, falses) then No
    else if !x.App? || x.op != IF then No
    else if x.args.Nil? then Failed
    else
      var c, branches := x.args.car, x.args.cdr;
      if AssumedTrue(c, trues) then
        if branches.Nil? then Failed else Tautology(branches.car, trues, falses)
      else if AssumedFalse(c, falses) then
        if branches.Nil? || branches.cdr.Nil? then Failed else Tautology(branches.cdr.car, trues, falses)
      else if branches.Nil? then Failed
      else
        match Tautology(branches.car, Cons(c, trues), falses)
        case Yes => if branches.cdr.Nil? then Failed else Tautology(branches.cdr.car, trues, Cons(c, falses))
        case No => No
        case Failed => Failed
  }

  /** tautologyp: tail calls are turned into a loop that replaces the term and the false list. */
  method Tautologyp(term: Term, trues: Terms, falses0: Terms) returns (v: Verdict)
    ensures v == Tautology(term, trues, falses0)
    decreases term
  {
    var x, falses := term, falses0;
    while true
      invariant Tautology(x, trues, falses) == Tautology(term, trues, falses0)
      invariant x == term || x < term
      decreases x
    {
      var t := IsTermMember(x, trues);
      var f := IsTermMember(x, falses);
      if x == TRUE_TERM || t {
        return Yes;
      } else if x == FALSE_TERM || f {
        return No;
      } else if !x.App? {
        return No;
      } else if x.op == IF {
        if x.args.Nil? { return Failed; }
        var c, branches := x.args.car, x.args.cdr;
        t := IsTermMember(c, trues);
        f := IsTermMember(c, falses);
        if c == TRUE_TERM || t {
          if branches.Nil? { return Failed; }
          x := branches.car;
        } else if c == FALSE_TERM || f {
          if branches.Nil? || branches.cdr.Nil? { return Failed; }
          x := branches.cdr.car;
        } else {
          if branches.Nil? { return Failed; }
          var ok := Tautologyp(branches.car, Cons(c, trues), falses);
          if ok != Yes { return ok; }
          if branches.cdr.Nil? { return Failed; }
          falses := Cons(c, falses);
          x := branches.cdr.car;
        }
      } else {
        return No;
      }
    }
  }

  // ---------- soundness in every standard interpretation ----------

  ghost predicate AllTrue<V(!new)>(I: Interp<V>, env: string -> V, l: Terms) {
    forall t | Member(t, l) :: Eval(I, env, t) != False(I)
  }

  ghost predicate AllFalse<V(!new)>(I: Interp<V>, env: string -> V, l: Terms) {
    forall t | Member(t, l) :: Eval(I, env, t) == False(I)
  }

  /** An accepted term is not false wherever the two lists of assumptions are met. */
  lemma {:induction false} TautologySound<V(!new)>(I: Interp<V>, env: string -> V, x: Term, trues: Terms, falses: Terms)
    requires Standard(I)
    requires AllTrue(I, env, trues) && AllFalse(I, env, falses)
    requires Tautology(x, trues, falses) == Yes
    ensures Eval(I, env, x) != False(I)
    decreases x
  {
    assert Eval(I, env, TRUE_TERM) == I.fn("t", []);
    assert Eval(I, env, FALSE_TERM) == I.fn("f", []);
    if !AssumedTrue(x, trues) {
      var c, branches := x.args.car, x.args.cdr;
      var vs := EvalList(I, env, x.args);
      assert EvalList(I, env, branches) == [Eval(I, env, branches.car)] + EvalList(I, env, branches.cdr);
      assert vs[0] == Eval(I, env, c) && vs[1] == Eval(I, env, branches.car);
      if AssumedTrue(c, trues) {
        TautologySound(I, env, branches.car, trues, falses);
      } else if AssumedFalse(c, falses) {
        assert vs[2] == Eval(I, env, branches.cdr.car);
        TautologySound(I, env, branches.cdr.car, trues, falses);
      } else if Eval(I, env, c) != False(I) {
        TautologySound(I, env, branches.car, Cons(c, trues), falses);
      } else {
        assert vs[2] == Eval(I, env, branches.cdr.car);
        TautologySound(I, env, branches.cdr.car, trues, Cons(c, falses));
      }
    }
  }

  // ---------- exactness on if-normal forms ----------

  predicate Three(l: Terms) {
    l.Cons? && l.cdr.Cons? && l.cdr.cdr.Cons? && l.cdr.cdr.cdr.Nil?
  }

  function Length(l: Terms): nat {
    if l.Nil? then 0 else 1 + Length(l.cdr)
  }

  lemma ThreeIsLength(l: Terms)
    ensures Three(l) <==> Length(l) == 3
  {
    if l.Cons? && l.cdr.Cons? && l.cdr.cdr.Cons? {
      assert Length(l.cdr.cdr) == 1 + Length(l.cdr.cdr.cdr);
      assert Length(l.cdr) == 2 + Length(l.cdr.cdr.cdr);
    }
  }

  /** Every condition of a nested `if` is itself not an `if`, and every such `if` is complete. */
  predicate IfNormal(x: Term) {
    x.App? && x.op == IF ==>
      && Three(x.args)
      && !(x.args.car.App? && x.args.car.op == IF)
      && IfNormal(x.args.cdr.car)
      && IfNormal(x.args.cdr.cdr.car)
  }

  predicate IsAtom(x: Term) {
    !(x.App? && x.op == IF) && x != TRUE_TERM && x != FALSE_TERM
  }

  /** Every `if` met from the outside, conditions included, has three arguments. */
  predicate Complete(x: Term) {
    x.App? && x.op == IF ==>
      Three(x.args) && Complete(x.args.car) && Complete(x.args.cdr.car) && Complete(x.args.cdr.cdr.car)
  }

  lemma {:induction false} NormalIsComplete(x: Term)
    requires IfNormal(x)
    ensures Complete(x)
    decreases x
  {
    if x.App? && x.op == IF {
      NormalIsComplete(x.args.cdr.car);
      NormalIsComplete(x.args.cdr.cdr.car);
    }
  }

  /** The truth-table reading of a term under a valuation of its atoms. */
  ghost predicate Truth(x: Term, v: Term -> bool)
    requires Complete(x)
  {
    if x == TRUE_TERM then true
    else if x == FALSE_TERM then false
    else if x.App? && x.op == IF then
      if Truth(x.args.car, v) then Truth(x.args.cdr.car, v) else Truth(x.args.cdr.cdr.car, v)
    else v(x)
  }

  ghost predicate Consistent(v: Term -> bool, trues: Terms, falses: Terms) {
    && (forall t | Member(t, trues) :: Complete(t) && Truth(t, v))
    && (forall t | Member(t, falses) :: Complete(t) && !Truth(t, v))
  }

  ghost predicate AtomLists(trues: Terms, falses: Terms) {
    && (forall t | Member(t, trues) :: IsAtom(t) && !Member(t, falses))
    && (forall t | Member(t, falses) :: IsAtom(t))
  }

  lemma {:induction false} AcceptedIsValid(x: Term, trues: Terms, falses: Terms, v: Term -> bool)
    requires Complete(x) && Consistent(v, trues, falses)
    requires Tautology(x, trues, falses) == Yes
    ensures Truth(x, v)
    decreases x
  {
    if !AssumedTrue(x, trues) {
      var c, thn, els := x.args.car, x.args.cdr.car, x.args.cdr.cdr.car;
      if AssumedTrue(c, trues) {
        AcceptedIsValid(thn, trues, falses, v);
      } else if AssumedFalse(c, falses) {
        AcceptedIsValid(els, trues, falses, v);
      } else if Truth(c, v) {
        AcceptedIsValid(thn, Cons(c, trues), falses, v);
      } else {
        AcceptedIsValid(els, trues, Cons(c, falses), v);
      }
    }
  }

  /** A rejected normal form has a countermodel. */
  lemma {:induction false} Countermodel(x: Term, trues: Terms, falses: Terms) returns (v: Term -> bool)
    requires IfNormal(x) && AtomLists(trues, falses)
    requires Tautology(x, trues, falses) != Yes
    ensures Complete(x) && Consistent(v, trues, falses) && !Truth(x, v)
    decreases x
  {
    NormalIsComplete(x);
    if x.App? && x.op == IF {
      var c, thn, els := x.args.car, x.args.cdr.car, x.args.cdr.cdr.car;
      if AssumedTrue(c, trues) {
        v := Countermodel(thn, trues, falses);
      } else if AssumedFalse(c, falses) {
        v := Countermodel(els, trues, falses);
      } else if Tautology(thn, Cons(c, trues), falses) != Yes {
        v := Countermodel(thn, Cons(c, trues), falses);
        assert Member(c, Cons(c, trues));
        assert forall t | Member(t, trues) :: Member(t, Cons(c, trues));
      } else {
        v := Countermodel(els, trues, Cons(c, falses));
        assert Member(c, Cons(c, falses));
        assert forall t | Member(t, falses) :: Member(t, Cons(c, falses));
      }
    } else {
      v := t => Member(t, trues);
    }
  }

  ghost predicate Valid(x: Term)
    requires Complete(x)
  {
    forall v: Term -> bool :: Truth(x, v)
  }

  /** On if-normal terms the checker decides truth-table validity, and never fails. */
  lemma TautologyDecides(x: Term)
    requires IfNormal(x)
    ensures Complete(x) && (Tautology(x, Nil, Nil) == Yes <==> Valid(x))
    ensures Tautology(x, Nil, Nil) != Failed
  {
    NormalIsComplete(x);
    if Tautology(x, Nil, Nil) == Yes {
      forall v: Term -> bool ensures Truth(x, v) { AcceptedIsValid(x, Nil, Nil, v); }
    } else {
      var v := Countermodel(x, Nil, Nil);
      assert !Truth(x, v);
    }
    NeverFails(x, Nil, Nil);
  }

  lemma {:induction false} NeverFails(x: Term, trues: Terms, falses: Terms)
    requires Complete(x)
    ensures Tautology(x, trues, falses) != Failed
    decreases x
  {
    if x.App? && x.op == IF {
      var c, thn, els := x.args.car, x.args.cdr.car, x.args.cdr.cdr.car;
      NeverFails(thn, trues, falses);
      NeverFails(thn, Cons(c, trues), falses);
      NeverFails(els, trues, falses);
      NeverFails(els, trues, Cons(c, falses));
    }
  }

  /** An `if` that lacks an argument: reading it fails if the branch is needed, and only then. */
  lemma ShortIf(c: Term, thn: Term, trues: Terms, falses: Terms)
    ensures var none := App(IF, Nil);
      !AssumedTrue(none, trues) && !AssumedFalse(none, falses) ==> Tautology(none, trues, falses) == Failed
    ensures var one := App(IF, Cons(c, Nil));
      !AssumedTrue(one, trues) && !AssumedFalse(one, falses) ==> Tautology(one, trues, falses) == Failed
    ensures var two := App(IF, Cons(c, Cons(thn, Nil)));
      !AssumedTrue(two, trues) && !AssumedFalse(two, falses) ==>
        Tautology(two, trues, falses) ==
          if AssumedTrue(c, trues) then Tautology(thn, trues, falses)
          else if !AssumedFalse(c, falses) && Tautology(thn, Cons(c, trues), falses) == No then No
          else Failed
  {}

  function If(c: Term, thn: Term, els: Term): Term {
    App(IF, Cons(c, Cons(thn, Cons(els, Nil))))
  }

  /** Off normal form the checker is only sound: this valid term is rejected. */
  lemma NotCompleteOffNormalForm()
    ensures exists x: Term :: Complete(x) && !IfNormal(x) && Valid(x) && Tautology(x, Nil, Nil) == No
  {
    var x := If(If(Sym("p"), TRUE_TERM, TRUE_TERM), TRUE_TERM, FALSE_TERM);
    assert Complete(x) && Valid(x);
    assert Tautology(x, Nil, Nil) == No;
  }

  // ---------- exactness for the meaning of terms ----------

  /** The terms a truth table of x treats as unknown. */
  function Atoms(x: Term): set<Term>
    requires IfNormal(x)
  {
    if x == TRUE_TERM || x == FALSE_TERM then {}
    else if x.App? && x.op == IF then Atoms(x.args.car) + Atoms(x.args.cdr.car) + Atoms(x.args.cdr.cdr.car)
    else {x}
  }

  /** Neither an `if` nor one of the atoms occurs in the term. */
  predicate Free(t: Term, atoms: set<Term>) {
    t !in atoms && (t.App? ==> t.op != IF && FreeList(t.args, atoms))
  }

  predicate FreeList(l: Terms, atoms: set<Term>) {
    l.Cons? ==> Free(l.car, atoms) && FreeList(l.cdr, atoms)
  }

  /** No atom occurs inside another one: symbols, for example, are always independent. */
  predicate Independent(x: Term)
    requires IfNormal(x)
  {
    forall a | a in Atoms(x) && a.App? :: FreeList(a.args, Atoms(x))
  }

  function FromSeq(vs: seq<Term>): Terms {
    if vs == [] then Nil else Cons(vs[0], FromSeq(vs[1..]))
  }

  ghost function Chosen(t: Term, atoms: set<Term>, v: Term -> bool): Term {
    if t in atoms && !v(t) then FALSE_TERM else t
  }

  /** Terms mean themselves, but for the atoms that v makes false. */
  ghost function Herbrand(atoms: set<Term>, v: Term -> bool): Interp<Term> {
    Interp(
      (op: string, vs: seq<Term>) =>
        if op == IF && |vs| >= 2 && vs[0] != FALSE_TERM then vs[1]
        else if op == IF && |vs| >= 3 then vs[2]
        else Chosen(App(op, FromSeq(vs)), atoms, v),
      k => Chosen(Num(k), atoms, v))
  }

  ghost function HerbrandEnv(atoms: set<Term>, v: Term -> bool): string -> Term {
    n => Chosen(Sym(n), atoms, v)
  }

  lemma {:induction false} AtomsAreAtoms(x: Term)
    requires IfNormal(x)
    ensures forall a | a in Atoms(x) :: IsAtom(a)
    decreases x
  {
    if x.App? && x.op == IF {
      AtomsAreAtoms(x.args.cdr.car);
      AtomsAreAtoms(x.args.cdr.cdr.car);
    }
  }

  lemma {:induction false} FreeMeansItself(t: Term, atoms: set<Term>, v: Term -> bool)
    requires Free(t, atoms)
    ensures Eval(Herbrand(atoms, v), HerbrandEnv(atoms, v), t) == t
    decreases t
  {
    if t.App? { FreeListMeansItself(t.args, atoms, v); }
  }

  lemma {:induction false} FreeListMeansItself(l: Terms, atoms: set<Term>, v: Term -> bool)
    requires FreeList(l, atoms)
    ensures FromSeq(EvalList(Herbrand(atoms, v), HerbrandEnv(atoms, v), l)) == l
    decreases l
  {
    if l.Cons? {
      FreeMeansItself(l.car, atoms, v);
      FreeListMeansItself(l.cdr, atoms, v);
    }
  }

  lemma EvalIf<V(!new)>(I: Interp<V>, env: string -> V, c: Term, thn: Term, els: Term)
    requires Standard(I)
    ensures Eval(I, env, If(c, thn, els)) == if Eval(I, env, c) != False(I) then Eval(I, env, thn) else Eval(I, env, els)
  {
    var vs := EvalList(I, env, If(c, thn, els).args);
    assert vs == [Eval(I, env, c), Eval(I, env, thn), Eval(I, env, els)] by {
      assert EvalList(I, env, Cons(els, Nil)) == [Eval(I, env, els)] + EvalList(I, env, Nil);
      assert EvalList(I, env, Cons(thn, Cons(els, Nil))) == [Eval(I, env, thn)] + EvalList(I, env, Cons(els, Nil));
    }
  }

  lemma HerbrandStandard(atoms: set<Term>, v: Term -> bool)
    requires forall a | a in atoms :: IsAtom(a)
    ensures Standard(Herbrand(atoms, v)) && False(Herbrand(atoms, v)) == FALSE_TERM
  {}

  /** In that interpretation an if-normal part of x with its atoms among the given ones reads like its truth table. */
  lemma {:induction false} HerbrandReads(x: Term, atoms: set<Term>, v: Term -> bool)
    requires IfNormal(x) && Atoms(x) <= atoms && forall a | a in atoms :: IsAtom(a)
    requires forall a | a in atoms && a.App? :: FreeList(a.args, atoms)
    ensures Complete(x)
    ensures Eval(Herbrand(atoms, v), HerbrandEnv(atoms, v), x) != FALSE_TERM <==> Truth(x, v)
    decreases x
  {
    NormalIsComplete(x);
    HerbrandStandard(atoms, v);
    var I, env := Herbrand(atoms, v), HerbrandEnv(atoms, v);
    if x.App? && x.op == IF {
      var c, thn, els := x.args.car, x.args.cdr.car, x.args.cdr.cdr.car;
      assert x == If(c, thn, els);
      HerbrandReads(c, atoms, v);
      HerbrandReads(thn, atoms, v);
      HerbrandReads(els, atoms, v);
      EvalIf(I, env, c, thn, els);
    } else if x in atoms {
      if x.App? { FreeListMeansItself(x.args, atoms, v); }
    }
  }

  /** Not false in any standard interpretation over terms. */
  ghost predicate NeverFalse(x: Term) {
    forall I: Interp<Term>, env: string -> Term | Standard(I) :: Eval(I, env, x) != False(I)
  }

  /** For the meaning of terms the checker is exact when no atom occurs inside another; that
      acceptance is right over every domain is TautologySound. */
  lemma TautologyDecidesMeaning(x: Term)
    requires IfNormal(x) && Independent(x)
    ensures Tautology(x, Nil, Nil) == Yes <==> NeverFalse(x)
  {
    if Tautology(x, Nil, Nil) == Yes {
      forall I: Interp<Term>, env: string -> Term | Standard(I) ensures Eval(I, env, x) != False(I) {
        TautologySound(I, env, x, Nil, Nil);
      }
    } else {
      var v := Countermodel(x, Nil, Nil);
      AtomsAreAtoms(x);
      HerbrandStandard(Atoms(x), v);
      HerbrandReads(x, Atoms(x), v);
      assert !NeverFalse(x);
    }
  }

  /** Two atoms with others inside: when p and q are both false they are equal, and so are (g p) and (g q). */
  function NestedAtoms(): Term {
    var gp, gq := App("g", Cons(Sym("p"), Nil)), App("g", Cons(Sym("q"), Nil));
    If(Sym("p"), TRUE_TERM, If(Sym("q"), TRUE_TERM, If(gp, If(gq, TRUE_TERM, FALSE_TERM), TRUE_TERM)))
  }

  /** Without independence the checker can reject a normal form that no interpretation makes false. */
  lemma NotCompleteForMeaning<V(!new)>(I: Interp<V>, env: string -> V)
    requires Standard(I)
    ensures IfNormal(NestedAtoms()) && !Independent(NestedAtoms())
    ensures Tautology(NestedAtoms(), Nil, Nil) == No && Eval(I, env, NestedAtoms()) != False(I)
  {
    var p, q, gp, gq := Sym("p"), Sym("q"), App("g", Cons(Sym("p"), Nil)), App("g", Cons(Sym("q"), Nil));
    var inner := If(gq, TRUE_TERM, FALSE_TERM);
    EvalIf(I, env, gq, TRUE_TERM, FALSE_TERM);
    EvalIf(I, env, gp, inner, TRUE_TERM);
    EvalIf(I, env, q, TRUE_TERM, If(gp, inner, TRUE_TERM));
    EvalIf(I, env, p, TRUE_TERM, If(q, TRUE_TERM, If(gp, inner, TRUE_TERM)));
    assert Eval(I, env, TRUE_TERM) == I.fn("t", []) && Eval(I, env, FALSE_TERM) == False(I);
    assert EvalList(I, env, gp.args) == [env("p")] && EvalList(I, env, gq.args) == [env("q")];
    NestedRefused(p, q, gp, gq);
  }

  lemma NestedRefused(p: Term, q: Term, gp: Term, gq: Term)
    requires p == Sym("p") && q == Sym("q") && gp == App("g", Cons(p, Nil)) && gq == App("g", Cons(q, Nil))
    ensures var x := If(p, TRUE_TERM, If(q, TRUE_TERM, If(gp, If(gq, TRUE_TERM, FALSE_TERM), TRUE_TERM)));
      IfNormal(x) && !Independent(x) && Tautology(x, Nil, Nil) == No
  {
    var x3 := If(gq, TRUE_TERM, FALSE_TERM);
    var x2 := If(gp, x3, TRUE_TERM);
    var x1 := If(q, TRUE_TERM, x2);
    var fs := Cons(q, Cons(p, Nil));
    assert Tautology(x3, Cons(gp, Nil), fs) == No;
    assert Tautology(x2, Nil, fs) == No;
    assert Tautology(x1, Nil, Cons(p, Nil)) == No;
    assert Tautology(If(p, TRUE_TERM, x1), Nil, Nil) == No;
    assert p in Atoms(If(p, TRUE_TERM, x1));
    assert gp in Atoms(x2) && gp in Atoms(x1) && gp in Atoms(If(p, TRUE_TERM, x1));
    assert !FreeList(gp.args, Atoms(If(p, TRUE_TERM, x1)));
  }

  // ---------- rewriting produces if-normal forms ----------

  /** (equal (if (if a b c) d e) ...): the lemma that moves an `if` out of a condition. */
  predicate IsIfDistribution(eq: Term) {
    && IsEquation(eq)
    && Lhs(eq) == App(IF, Cons(App(IF, Cons(Sym("a"), Cons(Sym("b"), Cons(Sym("c"), Nil)))),
                          Cons(Sym("d"), Cons(Sym("e"), Nil))))
  }

  predicate HasIfDistribution(eqs: Terms) {
    eqs.Cons? && (IsIfDistribution(eqs.car) || HasIfDistribution(eqs.cdr))
  }

  /** Every `if` in the term has three arguments. */
  predicate IfArity(x: Term) {
    x.App? ==> (x.op == IF ==> Three(x.args)) && IfArityList(x.args)
  }

  predicate IfArityList(l: Terms) {
    l.Cons? ==> IfArity(l.car) && IfArityList(l.cdr)
  }
}
