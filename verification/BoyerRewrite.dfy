/** Rewriting with the installed lemmas (earley-boyer.js:4163-4190).

    Rewriting need not terminate, so it runs with a bound on the depth of calls; a run that
    ends within some bound is a terminating run, and the bound does not affect its result. */
module BoyerRewrite {
  import opened BoyerTerms
  import opened BoyerUnify

  /** Symbol records: the equations whose left side has the symbol at its head, newest first. */
  type Records = map<string, Terms>

  datatype Outcome<+T> = Done(value: T, count: nat) | Crash | OutOfFuel {
    function Add(n: nat): Outcome<T> {
      if Done? then Done(value, count + n) else this
    }
  }

  function LemmasOf(db: Records, op: string): Terms {
    if op in db then db[op] else Nil
  }

  /** What add-lemma accepts: (equal (f ...) ...). The right side is only read on a match. */
  predicate IsEquation(eq: Term) {
    eq.App? && eq.op == "equal" && eq.args.Cons? && eq.args.car.App?
  }

  predicate Accepted(eqs: Terms) {
    eqs.Cons? ==> IsEquation(eqs.car) && Accepted(eqs.cdr)
  }

  function Lhs(eq: Term): Term
    requires IsEquation(eq)
  {
    eq.args.car
  }

  predicate HasRhs(eq: Term)
    requires IsEquation(eq)
  {
    eq.args.cdr.Cons?
  }

  function Rhs(eq: Term): Term
    requires IsEquation(eq) && HasRhs(eq)
  {
    eq.args.cdr.car
  }

  predicate Installed(db: Records) {
    forall op | op in db :: Accepted(db[op])
  }

  // ---------- the rewriting function ----------

  function Rewrite(db: Records, term: Term, fuel: nat): Outcome<Term>
    requires Installed(db)
    decreases fuel, 0, Nil
  {
    if fuel == 0 then OutOfFuel
    else match term
      case Sym(_) => Done(term, 1)
      case Num(_) => Done(term, 1)
      case App(op, args) =>
        match RewriteArgs(db, args, fuel - 1)
        case Done(args', n) => Try(db, App(op, args'), LemmasOf(db, op), fuel - 1).Add(n + 1)
        case Crash => Crash
        case OutOfFuel => OutOfFuel
  }

  function RewriteArgs(db: Records, l: Terms, fuel: nat): Outcome<Terms>
    requires Installed(db)
    decreases fuel, 1, l
  {
    match l
    case Nil => Done(Nil, 0)
    case Cons(t, rest) =>
      match Rewrite(db, t, fuel)
      case Crash => Crash
      case OutOfFuel => OutOfFuel
      case Done(t', n) =>
        match RewriteArgs(db, rest, fuel)
        case Done(rest', m) => Done(Cons(t', rest'), n + m)
        case Crash => Crash
        case OutOfFuel => OutOfFuel
  }

  /** The loop over a record's lemmas: the first one that matches rewrites the term. */
  function Try(db: Records, term: Term, eqs: Terms, fuel: nat): Outcome<Term>
    requires Installed(db)
    requires Accepted(eqs)
    decreases fuel, 1, eqs
  {
    if eqs.Nil? then Done(term, 0)
    else
      var (ok, s) := Unify(Empty, term, Lhs(eqs.car));
      if !ok then Try(db, term, eqs.cdr, fuel)
      else if !HasRhs(eqs.car) then Crash
      else Rewrite(db, ApplySubst(s, Rhs(eqs.car)), fuel)
  }

  // ---------- soundness ----------

  ghost predicate EquationHolds<V(!new)>(I: Interp<V>, eq: Term)
    requires IsEquation(eq)
  {
    HasRhs(eq) ==> forall env: string -> V :: Eval(I, env, Lhs(eq)) == Eval(I, env, Rhs(eq))
  }

  ghost predicate AllHold<V(!new)>(I: Interp<V>, eqs: Terms) {
    Accepted(eqs) && (eqs.Cons? ==> EquationHolds(I, eqs.car) && AllHold(I, eqs.cdr))
  }

  ghost predicate RecordsHold<V(!new)>(I: Interp<V>, db: Records) {
    forall op | op in db :: AllHold(I, db[op])
  }

  /** Rewriting preserves the value of a term in every interpretation that satisfies the lemmas. */
  lemma {:induction false} RewriteSound<V(!new)>(I: Interp<V>, db: Records, env: string -> V, term: Term, fuel: nat)
    requires RecordsHold(I, db)
    requires Rewrite(db, term, fuel).Done?
    ensures Eval(I, env, Rewrite(db, term, fuel).value) == Eval(I, env, term)
    decreases fuel, 0, Nil
  {
    if term.App? {
      var args := RewriteArgs(db, term.args, fuel - 1);
      RewriteArgsSound(I, db, env, term.args, fuel - 1);
      TrySound(I, db, env, App(term.op, args.value), LemmasOf(db, term.op), fuel - 1);
    }
  }

  lemma {:induction false} RewriteArgsSound<V(!new)>(I: Interp<V>, db: Records, env: string -> V, l: Terms, fuel: nat)
    requires RecordsHold(I, db)
    requires RewriteArgs(db, l, fuel).Done?
    ensures EvalList(I, env, RewriteArgs(db, l, fuel).value) == EvalList(I, env, l)
    decreases fuel, 1, l
  {
    if l.Cons? {
      RewriteSound(I, db, env, l.car, fuel);
      RewriteArgsSound(I, db, env, l.cdr, fuel);
    }
  }

  lemma {:induction false} TrySound<V(!new)>(I: Interp<V>, db: Records, env: string -> V, term: Term, eqs: Terms, fuel: nat)
    requires RecordsHold(I, db) && AllHold(I, eqs)
    requires Try(db, term, eqs, fuel).Done?
    ensures Eval(I, env, Try(db, term, eqs, fuel).value) == Eval(I, env, term)
    decreases fuel, 1, eqs
  {
    if eqs.Cons? {
      var (ok, s) := Unify(Empty, term, Lhs(eqs.car));
      if !ok {
        TrySound(I, db, env, term, eqs.cdr, fuel);
      } else {
        UnifyDecides(term, Lhs(eqs.car));
        ApplyIsInstance(s, Lhs(eqs.car));
        ApplyIsInstance(s, Rhs(eqs.car));
        SubstitutionLemma(I, env, Total(s), Lhs(eqs.car));
        SubstitutionLemma(I, env, Total(s), Rhs(eqs.car));
        RewriteSound(I, db, env, ApplySubst(s, Rhs(eqs.car)), fuel);
      }
    }
  }

  // ---------- normal forms ----------

  ghost predicate NoMatch(eqs: Terms, term: Term)
    requires Accepted(eqs)
  {
    eqs.Cons? ==> !Matches(Lhs(eqs.car), term) && NoMatch(eqs.cdr, term)
  }

  /** No lemma of a record matches any application with that record at its head. */
  ghost predicate Irreducible(db: Records, term: Term)
    requires Installed(db)
  {
    term.App? ==> IrreducibleList(db, term.args) && NoMatch(LemmasOf(db, term.op), term)
  }

  ghost predicate IrreducibleList(db: Records, l: Terms)
    requires Installed(db)
  {
    l.Cons? ==> Irreducible(db, l.car) && IrreducibleList(db, l.cdr)
  }

  /** Whatever rewriting returns cannot be rewritten anywhere by any installed lemma. */
  lemma {:induction false} RewriteNormalizes(db: Records, term: Term, fuel: nat)
    requires Installed(db)
    requires Rewrite(db, term, fuel).Done?
    ensures Irreducible(db, Rewrite(db, term, fuel).value)
    decreases fuel, 0, Nil
  {
    if term.App? {
      var args := RewriteArgs(db, term.args, fuel - 1);
      RewriteArgsNormalizes(db, term.args, fuel - 1);
      TryNormalizes(db, App(term.op, args.value), LemmasOf(db, term.op), fuel - 1);
    }
  }

  lemma {:induction false} RewriteArgsNormalizes(db: Records, l: Terms, fuel: nat)
    requires Installed(db)
    requires RewriteArgs(db, l, fuel).Done?
    ensures IrreducibleList(db, RewriteArgs(db, l, fuel).value)
    decreases fuel, 1, l
  {
    if l.Cons? {
      RewriteNormalizes(db, l.car, fuel);
      RewriteArgsNormalizes(db, l.cdr, fuel);
    }
  }

  lemma {:induction false} TryNormalizes(db: Records, term: Term, eqs: Terms, fuel: nat)
    requires Installed(db)
    requires Accepted(eqs) && Try(db, term, eqs, fuel).Done?
    ensures || (Try(db, term, eqs, fuel).value == term && NoMatch(eqs, term))
            || Irreducible(db, Try(db, term, eqs, fuel).value)
    decreases fuel, 1, eqs
  {
    if eqs.Cons? {
      UnifyDecides(term, Lhs(eqs.car));
      var (ok, s) := Unify(Empty, term, Lhs(eqs.car));
      if !ok {
        TryNormalizes(db, term, eqs.cdr, fuel);
      } else {
        RewriteNormalizes(db, ApplySubst(s, Rhs(eqs.car)), fuel);
      }
    }
  }

  function Size(term: Term): nat {
    if term.App? then 1 + SizeList(term.args) else 1
  }

  function SizeList(l: Terms): nat {
    if l.Nil? then 0 else Size(l.car) + SizeList(l.cdr)
  }

  /** Normal forms are fixed points: they are returned as they are, one call per subterm. */
  lemma {:induction false} RewriteFixpoint(db: Records, term: Term, fuel: nat)
    requires Installed(db)
    requires Irreducible(db, term) && Size(term) <= fuel
    ensures Rewrite(db, term, fuel) == Done(term, Size(term))
    decreases term
  {
    if term.App? {
      RewriteArgsFixpoint(db, term.args, fuel - 1);
      TryFixpoint(db, term, LemmasOf(db, term.op), fuel - 1);
    }
  }

  lemma {:induction false} RewriteArgsFixpoint(db: Records, l: Terms, fuel: nat)
    requires Installed(db)
    requires IrreducibleList(db, l) && SizeList(l) <= fuel
    ensures RewriteArgs(db, l, fuel) == Done(l, SizeList(l))
    decreases l
  {
    if l.Cons? {
      RewriteFixpoint(db, l.car, fuel);
      RewriteArgsFixpoint(db, l.cdr, fuel);
    }
  }

  lemma {:induction false} TryFixpoint(db: Records, term: Term, eqs: Terms, fuel: nat)
    requires Installed(db)
    requires Accepted(eqs) && NoMatch(eqs, term)
    ensures Try(db, term, eqs, fuel) == Done(term, 0)
    decreases eqs
  {
    if eqs.Cons? {
      UnifyDecides(term, Lhs(eqs.car));
      TryFixpoint(db, term, eqs.cdr, fuel);
    }
  }

  // ---------- the bound does not matter ----------

  /** A run that ends, normally or in an exception, ends the same way under any larger bound. */
  lemma {:induction false} FuelIrrelevant(db: Records, term: Term, fuel: nat, more: nat)
    requires Installed(db)
    requires fuel <= more && !Rewrite(db, term, fuel).OutOfFuel?
    ensures Rewrite(db, term, more) == Rewrite(db, term, fuel)
    decreases fuel, 0, Nil
  {
    if term.App? {
      FuelIrrelevantArgs(db, term.args, fuel - 1, more - 1);
      var args := RewriteArgs(db, term.args, fuel - 1);
      if args.Done? {
        FuelIrrelevantTry(db, App(term.op, args.value), LemmasOf(db, term.op), fuel - 1, more - 1);
      }
    }
  }

  lemma {:induction false} FuelIrrelevantArgs(db: Records, l: Terms, fuel: nat, more: nat)
    requires Installed(db)
    requires fuel <= more && !RewriteArgs(db, l, fuel).OutOfFuel?
    ensures RewriteArgs(db, l, more) == RewriteArgs(db, l, fuel)
    decreases fuel, 1, l
  {
    if l.Cons? {
      FuelIrrelevant(db, l.car, fuel, more);
      if Rewrite(db, l.car, fuel).Done? { FuelIrrelevantArgs(db, l.cdr, fuel, more); }
    }
  }

  lemma {:induction false} FuelIrrelevantTry(db: Records, term: Term, eqs: Terms, fuel: nat, more: nat)
    requires Installed(db)
    requires Accepted(eqs) && fuel <= more && !Try(db, term, eqs, fuel).OutOfFuel?
    ensures Try(db, term, eqs, more) == Try(db, term, eqs, fuel)
    decreases fuel, 1, eqs
  {
    if eqs.Cons? {
      var (ok, s) := Unify(Empty, term, Lhs(eqs.car));
      if !ok {
        FuelIrrelevantTry(db, term, eqs.cdr, fuel, more);
      } else if HasRhs(eqs.car) {
        FuelIrrelevant(db, ApplySubst(s, Rhs(eqs.car)), fuel, more);
      }
    }
  }

  // ---------- what rewriting is ----------

  /** The first lemma that matches the term, and how. */
  ghost predicate FirstMatch(eqs: Terms, term: Term, eq: Term, theta: string -> Term)
    requires Accepted(eqs)
  {
    eqs.Cons? &&
    if Matches(Lhs(eqs.car), term) then eq == eqs.car && Matching(theta, Lhs(eq), term)
    else FirstMatch(eqs.cdr, term, eq, theta)
  }

  lemma {:induction false} FirstMatchAccepted(eqs: Terms, term: Term, eq: Term, theta: string -> Term)
    requires Accepted(eqs) && FirstMatch(eqs, term, eq, theta)
    ensures IsEquation(eq)
    decreases eqs
  {
    if !Matches(Lhs(eqs.car), term) { FirstMatchAccepted(eqs.cdr, term, eq, theta); }
  }

  /** The first lemma that matches u is eq, it has a right side, and u becomes the instance v of it. */
  ghost predicate Fires(eqs: Terms, u: Term, eq: Term, theta: string -> Term, v: Term)
    requires Accepted(eqs)
  {
    FirstMatch(eqs, u, eq, theta) && IsEquation(eq) && HasRhs(eq) && v == Instance(theta, Rhs(eq))
  }

  /** The first lemma that matches u has no right side. */
  ghost predicate Misfires(eqs: Terms, u: Term, eq: Term, theta: string -> Term)
    requires Accepted(eqs)
  {
    FirstMatch(eqs, u, eq, theta) && IsEquation(eq) && !HasRhs(eq)
  }

  /** A term rewrites to t' in n calls nested at most h deep. A symbol or number is left as it is. */
  ghost predicate Rewrites(db: Records, t: Term, t': Term, n: nat, h: nat)
    requires Installed(db)
    decreases h, 0, Nil
  {
    h > 0 && if t.App? then AppRewrites(db, t, t', n, h - 1) else t' == t && n == 1
  }

  /** In an application the arguments are rewritten first. */
  ghost predicate AppRewrites(db: Records, t: Term, t': Term, n: nat, h: nat)
    requires Installed(db) && t.App?
    decreases h, 3, Nil
  {
    exists args, k: nat ::
      RewritesAll(db, t.args, args, k, h) && k < n && Settles(db, LemmasOf(db, t.op), App(t.op, args), t', n - 1 - k, h)
  }

  ghost predicate RewritesAll(db: Records, l: Terms, l': Terms, n: nat, h: nat)
    requires Installed(db)
    decreases h, 1, l
  {
    if l.Nil? then l'.Nil? && n == 0
    else l'.Cons? && exists k: nat :: Rewrites(db, l.car, l'.car, k, h) && k <= n && RewritesAll(db, l.cdr, l'.cdr, n - k, h)
  }

  /** Then the term stays if no lemma matches; else the instance of the right side of the first
      lemma that does is rewritten. */
  ghost predicate Settles(db: Records, eqs: Terms, u: Term, t': Term, n: nat, h: nat)
    requires Installed(db) && Accepted(eqs)
    decreases h, 2, Nil
  {
    || (NoMatch(eqs, u) && t' == u && n == 0)
    || exists eq, theta: string -> Term, v :: Fires(eqs, u, eq, theta, v) && Rewrites(db, v, t', n, h)
  }

  /** Rewriting comes upon a lemma that matches first and has no right side. */
  ghost predicate Fails(db: Records, t: Term, h: nat)
    requires Installed(db)
    decreases h, 0, Nil
  {
    h > 0 && t.App? && AppFails(db, t, h - 1)
  }

  ghost predicate AppFails(db: Records, t: Term, h: nat)
    requires Installed(db) && t.App?
    decreases h, 3, Nil
  {
    || FailsAny(db, t.args, h)
    || exists args, k: nat :: RewritesAll(db, t.args, args, k, h) && Sticks(db, LemmasOf(db, t.op), App(t.op, args), h)
  }

  ghost predicate FailsAny(db: Records, l: Terms, h: nat)
    requires Installed(db)
    decreases h, 1, l
  {
    l.Cons? && (Fails(db, l.car, h) || (FailsAny(db, l.cdr, h) && exists t', k: nat :: Rewrites(db, l.car, t', k, h)))
  }

  ghost predicate Sticks(db: Records, eqs: Terms, u: Term, h: nat)
    requires Installed(db) && Accepted(eqs)
    decreases h, 2, Nil
  {
    || (exists eq, theta: string -> Term :: Misfires(eqs, u, eq, theta))
    || exists eq, theta: string -> Term, v :: Fires(eqs, u, eq, theta, v) && Fails(db, v, h)
  }

  // ---------- the function computes it ----------

  /** What the first lemma of a list that matches makes of a term. */
  lemma FiresFirst(eqs: Terms, u: Term)
    requires Accepted(eqs) && eqs.Cons? && Unify(Empty, u, Lhs(eqs.car)).0
    ensures !NoMatch(eqs, u)
    ensures HasRhs(eqs.car) ==>
      forall eq, theta: string -> Term, v | Fires(eqs, u, eq, theta, v) :: v == ApplySubst(Unify(Empty, u, Lhs(eqs.car)).1, Rhs(eqs.car))
    ensures !HasRhs(eqs.car) ==> forall eq, theta: string -> Term, v :: !Fires(eqs, u, eq, theta, v)
    ensures HasRhs(eqs.car) ==> exists eq, theta: string -> Term, v :: Fires(eqs, u, eq, theta, v)
    ensures (exists eq, theta: string -> Term :: Misfires(eqs, u, eq, theta)) <==> !HasRhs(eqs.car)
  {
    var eq := eqs.car;
    var s := Unify(Empty, u, Lhs(eq)).1;
    UnifyDecides(u, Lhs(eq));
    UnifyIsMatching(u, Lhs(eq));
    if HasRhs(eq) {
      ApplyIsInstance(s, Rhs(eq));
      assert Fires(eqs, u, eq, Total(s), ApplySubst(s, Rhs(eq)));
      forall e, theta: string -> Term, v | Fires(eqs, u, e, theta, v) ensures v == ApplySubst(s, Rhs(eq)) {
        InstanceSame(theta, Total(s), Rhs(eq));
      }
    } else {
      assert Misfires(eqs, u, eq, Total(s));
    }
  }

  lemma FiresLater(eqs: Terms, u: Term)
    requires Accepted(eqs) && eqs.Cons? && !Unify(Empty, u, Lhs(eqs.car)).0
    ensures NoMatch(eqs, u) <==> NoMatch(eqs.cdr, u)
    ensures forall eq, theta: string -> Term, v :: Fires(eqs, u, eq, theta, v) <==> Fires(eqs.cdr, u, eq, theta, v)
    ensures forall eq, theta: string -> Term :: Misfires(eqs, u, eq, theta) <==> Misfires(eqs.cdr, u, eq, theta)
  {
    UnifyDecides(u, Lhs(eqs.car));
  }

  /** Within any bound, the function returns t' with the count n exactly if t rewrites to t' in n calls. */
  lemma {:induction false} RewriteExactly(db: Records, t: Term, t': Term, n: nat, fuel: nat)
    requires Installed(db)
    ensures Rewrite(db, t, fuel) == Done(t', n) <==> Rewrites(db, t, t', n, fuel)
    decreases fuel, 0, Nil
  {
    if fuel > 0 && t.App? {
      var h, r := fuel - 1, RewriteArgs(db, t.args, fuel - 1);
      if r.Done? {
        RewriteArgsExactly(db, t.args, r.value, r.count, h);
        if r.count < n { TryExactly(db, LemmasOf(db, t.op), App(t.op, r.value), t', n - 1 - r.count, h); }
      }
      forall args, k: nat | RewritesAll(db, t.args, args, k, h) ensures r == Done(args, k) {
        RewriteArgsExactly(db, t.args, args, k, h);
      }
      assert Rewrites(db, t, t', n, fuel) <==> AppRewrites(db, t, t', n, h);
      assert r.Done? ==> Rewrite(db, t, fuel) == Try(db, App(t.op, r.value), LemmasOf(db, t.op), h).Add(r.count + 1);
      if AppRewrites(db, t, t', n, h) {
        var args, k: nat :| RewritesAll(db, t.args, args, k, h) && k < n
          && Settles(db, LemmasOf(db, t.op), App(t.op, args), t', n - 1 - k, h);
        assert r == Done(args, k);
      }
    }
  }

  lemma {:induction false} RewriteArgsExactly(db: Records, l: Terms, l': Terms, n: nat, fuel: nat)
    requires Installed(db)
    ensures RewriteArgs(db, l, fuel) == Done(l', n) <==> RewritesAll(db, l, l', n, fuel)
    decreases fuel, 1, l
  {
    if l.Cons? && l'.Cons? {
      var r := Rewrite(db, l.car, fuel);
      if r.Done? {
        RewriteExactly(db, l.car, r.value, r.count, fuel);
        if r.count <= n { RewriteArgsExactly(db, l.cdr, l'.cdr, n - r.count, fuel); }
      }
      forall k: nat | Rewrites(db, l.car, l'.car, k, fuel) ensures r == Done(l'.car, k) {
        RewriteExactly(db, l.car, l'.car, k, fuel);
      }
    }
  }

  lemma {:induction false} TryExactly(db: Records, eqs: Terms, u: Term, t': Term, n: nat, fuel: nat)
    requires Installed(db) && Accepted(eqs)
    ensures Try(db, u, eqs, fuel) == Done(t', n) <==> Settles(db, eqs, u, t', n, fuel)
    decreases fuel, 1, eqs
  {
    if eqs.Cons? {
      var (ok, s) := Unify(Empty, u, Lhs(eqs.car));
      if !ok {
        FiresLater(eqs, u);
        TryExactly(db, eqs.cdr, u, t', n, fuel);
      } else {
        FiresFirst(eqs, u);
        if HasRhs(eqs.car) { RewriteExactly(db, ApplySubst(s, Rhs(eqs.car)), t', n, fuel); }
      }
    }
  }

  /** It raises an exception exactly if the first lemma that matches somewhere has no right side. */
  lemma {:induction false} CrashExactly(db: Records, t: Term, fuel: nat)
    requires Installed(db)
    ensures Rewrite(db, t, fuel) == Crash <==> Fails(db, t, fuel)
    decreases fuel, 0, Nil
  {
    if fuel > 0 && t.App? {
      var h, r := fuel - 1, RewriteArgs(db, t.args, fuel - 1);
      CrashArgsExactly(db, t.args, h);
      if r.Done? {
        RewriteArgsExactly(db, t.args, r.value, r.count, h);
        CrashTryExactly(db, LemmasOf(db, t.op), App(t.op, r.value), h);
      }
      forall args, k: nat | RewritesAll(db, t.args, args, k, h) ensures r == Done(args, k) {
        RewriteArgsExactly(db, t.args, args, k, h);
      }
    }
  }

  lemma {:induction false} CrashArgsExactly(db: Records, l: Terms, fuel: nat)
    requires Installed(db)
    ensures RewriteArgs(db, l, fuel) == Crash <==> FailsAny(db, l, fuel)
    decreases fuel, 1, l
  {
    if l.Cons? {
      var r := Rewrite(db, l.car, fuel);
      CrashExactly(db, l.car, fuel);
      CrashArgsExactly(db, l.cdr, fuel);
      if r.Done? { RewriteExactly(db, l.car, r.value, r.count, fuel); }
      forall t', k: nat | Rewrites(db, l.car, t', k, fuel) ensures r == Done(t', k) {
        RewriteExactly(db, l.car, t', k, fuel);
      }
    }
  }

  lemma {:induction false} CrashTryExactly(db: Records, eqs: Terms, u: Term, fuel: nat)
    requires Installed(db) && Accepted(eqs)
    ensures Try(db, u, eqs, fuel) == Crash <==> Sticks(db, eqs, u, fuel)
    decreases fuel, 1, eqs
  {
    if eqs.Cons? {
      var (ok, s) := Unify(Empty, u, Lhs(eqs.car));
      if !ok {
        FiresLater(eqs, u);
        CrashTryExactly(db, eqs.cdr, u, fuel);
      } else {
        FiresFirst(eqs, u);
        if HasRhs(eqs.car) { CrashExactly(db, ApplySubst(s, Rhs(eqs.car)), fuel); }
      }
    }
  }

  /** A run ends, in some way, exactly if some bound on the nesting of calls lets it end that way. */
  lemma RewriteEnds(db: Records, t: Term, t': Term, n: nat)
    requires Installed(db)
    ensures (exists fuel: nat :: Rewrite(db, t, fuel) == Done(t', n)) <==> exists h: nat :: Rewrites(db, t, t', n, h)
    ensures (exists fuel: nat :: Rewrite(db, t, fuel) == Crash) <==> exists h: nat :: Fails(db, t, h)
  {
    if h: nat :| Rewrites(db, t, t', n, h) { RewriteExactly(db, t, t', n, h); }
    if h: nat :| Rewrite(db, t, h) == Done(t', n) { RewriteExactly(db, t, t', n, h); }
    if h: nat :| Fails(db, t, h) { CrashExactly(db, t, h); }
    if h: nat :| Rewrite(db, t, h) == Crash { CrashExactly(db, t, h); }
  }
}
