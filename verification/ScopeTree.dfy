/** Scopes and bindings as values, and what a run of the scope analysis leaves in them
    (core/ast/src/scope.rs). */
module ScopeTrees {

  datatype Option<T> = None | Some(value: T)

  const U32 := 0x1_0000_0000

  datatype Binding = Binding(name: string, index: nat, mutable: bool, lex: bool, strict: bool, escapes: bool, accessed: bool)

  /** One scope. The scope around it is number parent, or there is none if parent is -1. */
  datatype Frame = Frame(parent: int, isFunction: bool, uniqueId: int, index: nat, thisEscaped: bool, bindings: seq<Binding>)

  /** All scopes made from one global scope, oldest first. */
  type Tree = seq<Frame>

  datatype Event =
    | NewScope(parent: nat, isFunction: bool)
    | CreateMutable(scope: nat, name: string, functionScope: bool)
    | CreateImmutable(scope: nat, name: string, strict: bool)
    | Access(scope: nat, name: string, evalOrWith: bool)
    | EscapeAll(scope: nat)
    | EscapeThis(scope: nat)
    | SetIndex(scope: nat, index: nat)
    | Reorder(scope: nat)

  // ---------- looking up names ----------

  /** Linear search. */
  function Find(bs: seq<Binding>, name: string): (r: Option<nat>)
    ensures r.Some? ==> r.value < |bs| && bs[r.value].name == name
    ensures r.None? <==> forall b | b in bs :: b.name != name
  {
    if bs == [] then None
    else if bs[|bs| - 1].name == name then Some(|bs| - 1)
    else Find(bs[..|bs| - 1], name)
  }

  ghost predicate UniqueNames(bs: seq<Binding>) {
    forall i, j | 0 <= i < j < |bs| :: bs[i].name != bs[j].name
  }

  /** The scope that binds a name, the position there, and whether a function lies in between. */
  datatype Hit = Hit(scope: nat, pos: nat, crossed: bool)

  ghost predicate Shaped(t: Tree) {
    |t| > 0 && t[0].parent == -1 && forall i | 0 < i < |t| :: 0 <= t[i].parent < i
  }

  predicate Binds(f: Frame, k: nat, name: string) {
    k < |f.bindings| && f.bindings[k].name == name
  }

  function Resolve(t: Tree, i: nat, name: string): (r: Option<Hit>)
    requires Shaped(t) && i < |t|
    ensures r.Some? ==> r.value.scope < |t| && Binds(t[r.value.scope], r.value.pos, name)
    decreases i
  {
    var pos := Find(t[i].bindings, name);
    if pos.Some? then Some(Hit(i, pos.value, false))
    else if t[i].parent == -1 then None
    else
      var outer := Resolve(t, t[i].parent, name);
      if outer.None? then None
      else Some(outer.value.(crossed := outer.value.crossed || t[i].isFunction))
  }

  /** The scope n steps out from scope i, if there is one. */
  function Outward(t: Tree, i: nat, n: nat): (r: int)
    requires Shaped(t) && i < |t|
    ensures -1 <= r <= i
    decreases n
  {
    if n == 0 then i
    else if t[i].parent == -1 then -1
    else Outward(t, t[i].parent, n - 1)
  }

  /** The first n scopes from i on exist and do not bind the name. */
  ghost predicate Unbound(t: Tree, i: nat, n: nat, name: string)
    requires Shaped(t) && i < |t|
  {
    forall m | 0 <= m < n :: Outward(t, i, m) >= 0 && Find(t[Outward(t, i, m)].bindings, name).None?
  }

  ghost predicate Crosses(t: Tree, i: nat, n: nat)
    requires Shaped(t) && i < |t|
  {
    exists m | 0 <= m < n :: Outward(t, i, m) >= 0 && t[Outward(t, i, m)].isFunction
  }

  /** The binding found is the innermost one; crossed says whether the search left a function. */
  lemma {:induction false} ResolveInnermost(t: Tree, i: nat, name: string) returns (n: nat)
    requires Shaped(t) && i < |t|
    ensures Unbound(t, i, n, name)
    ensures match Resolve(t, i, name)
      case None => Outward(t, i, n) == -1
      case Some(h) => Outward(t, i, n) == h.scope && (h.crossed <==> Crosses(t, i, n))
    decreases i
  {
    if Find(t[i].bindings, name).Some? {
      n := 0;
    } else if t[i].parent == -1 {
      n := 1;
      assert Outward(t, i, 0) == i;
    } else {
      var p := t[i].parent;
      var k := ResolveInnermost(t, p, name);
      n := k + 1;
      forall m | 0 <= m < n ensures Outward(t, i, m) >= 0 && Find(t[Outward(t, i, m)].bindings, name).None? {
        if m > 0 { assert Outward(t, i, m) == Outward(t, p, m - 1); }
      }
      assert Outward(t, i, n) == Outward(t, p, k);
      CrossesOut(t, i, k);
    }
  }

  lemma CrossesOut(t: Tree, i: nat, k: nat)
    requires Shaped(t) && i < |t| && t[i].parent >= 0
    ensures Crosses(t, i, k + 1) <==> t[i].isFunction || Crosses(t, t[i].parent, k)
  {
    var p := t[i].parent;
    assert Outward(t, i, 0) == i;
    forall m | 0 <= m ensures Outward(t, i, m + 1) == Outward(t, p, m) {}
    if Crosses(t, p, k) {
      var m :| 0 <= m < k && Outward(t, p, m) >= 0 && t[Outward(t, p, m)].isFunction;
      assert Outward(t, i, m + 1) >= 0 && t[Outward(t, i, m + 1)].isFunction;
    }
    if Crosses(t, i, k + 1) && !t[i].isFunction {
      var m :| 0 <= m < k + 1 && Outward(t, i, m) >= 0 && t[Outward(t, i, m)].isFunction;
      assert m > 0 && Outward(t, p, m - 1) == Outward(t, i, m);
    }
  }

  // ---------- what each operation does ----------

  function Mark(b: Binding, escape: bool): Binding {
    b.(accessed := true, escapes := b.escapes || escape)
  }

  function EscapeEach(bs: seq<Binding>): (r: seq<Binding>)
    ensures |r| == |bs| && forall k | 0 <= k < |bs| :: r[k] == bs[k].(escapes := true)
  {
    seq(|bs|, k requires 0 <= k < |bs| => bs[k].(escapes := true))
  }

  function Escaping(bs: seq<Binding>): (n: nat)
    ensures n <= |bs|
  {
    if bs == [] then 0 else Escaping(bs[..|bs| - 1]) + if bs[|bs| - 1].escapes then 1 else 0
  }

  /** Escaping bindings are numbered from 0 on, the others get 0. */
  function Renumber(bs: seq<Binding>): (r: seq<Binding>)
    ensures |r| == |bs|
  {
    if bs == [] then []
    else
      var b := bs[|bs| - 1];
      Renumber(bs[..|bs| - 1]) + [b.(index := if b.escapes then Escaping(bs[..|bs| - 1]) else 0)]
  }

  predicate Known(t: Tree, e: Event) {
    match e
    case NewScope(p, _) => p < |t|
    case CreateMutable(s, _, _) => s < |t|
    case CreateImmutable(s, _, _) => s < |t|
    case Access(s, _, _) => s < |t|
    case EscapeAll(s) => s < |t|
    case EscapeThis(s) => s < |t|
    case SetIndex(s, _) => s < |t|
    case Reorder(s) => s < |t|
  }

  function WithBindings(t: Tree, s: nat, bs: seq<Binding>): (r: Tree)
    requires s < |t|
    ensures |r| == |t| && r[s].bindings == bs && forall i | 0 <= i < |t| && i != s :: r[i] == t[i]
  {
    t[s := t[s].(bindings := bs)]
  }

  function NewBinding(f: Frame, name: string, mutable: bool, lex: bool, strict: bool): Binding {
    Binding(name, |f.bindings|, mutable, lex, strict, f.parent == -1, false)
  }

  function Create(t: Tree, s: nat, b: Binding): Tree
    requires s < |t|
  {
    if Find(t[s].bindings, b.name).Some? then t else WithBindings(t, s, t[s].bindings + [b])
  }

  function Apply(t: Tree, e: Event): (r: Tree)
    requires Shaped(t) && Known(t, e)
    ensures Shaped(r) && |t| <= |r|
  {
    match e
    case NewScope(p, isFunction) => t + [Frame(p, isFunction, |t| % U32, t[p].index + 1, false, [])]
    case CreateMutable(s, name, functionScope) => Create(t, s, NewBinding(t[s], name, true, !functionScope, false))
    case CreateImmutable(s, name, strict) => Create(t, s, NewBinding(t[s], name, false, true, strict))
    case Access(s, name, evalOrWith) =>
      (match Resolve(t, s, name)
       case None => t
       case Some(h) =>
         var bs := t[h.scope].bindings;
         WithBindings(t, h.scope, bs[h.pos := Mark(bs[h.pos], h.crossed || evalOrWith)]))
    case EscapeAll(s) => WithBindings(t, s, EscapeEach(t[s].bindings))
    case EscapeThis(s) => t[s := t[s].(thisEscaped := true)]
    case SetIndex(s, index) => t[s := t[s].(index := index)]
    case Reorder(s) => WithBindings(t, s, Renumber(t[s].bindings))
  }

  const GLOBAL := Frame(-1, true, 0, 0, false, [])

  ghost predicate Legal(es: seq<Event>)
    decreases |es|, 0
  {
    es == [] || (Legal(es[..|es| - 1]) && Known(After(es[..|es| - 1]), es[|es| - 1]))
  }

  /** The scopes after a sequence of operations that starts with a new global scope. */
  ghost function After(es: seq<Event>): (t: Tree)
    requires Legal(es)
    ensures Shaped(t)
    decreases |es|, 1
  {
    if es == [] then [GLOBAL] else Apply(After(es[..|es| - 1]), es[|es| - 1])
  }

  // ---------- over whole runs ----------

  /** Names are unique in each scope, global bindings escape, and ids count scopes. */
  ghost predicate WellFormed(t: Tree) {
    && Shaped(t)
    && (forall i | 0 <= i < |t| :: UniqueNames(t[i].bindings) && t[i].uniqueId == i % U32)
    && forall i, b | 0 <= i < |t| && t[i].parent == -1 && b in t[i].bindings :: b.escapes
  }

  lemma {:induction false} RenumberAt(bs: seq<Binding>, k: nat)
    requires k < |bs|
    ensures Renumber(bs)[k] == bs[k].(index := if bs[k].escapes then Escaping(bs[..k]) else 0)
  {
    var n := |bs| - 1;
    if k < n {
      RenumberAt(bs[..n], k);
      assert bs[..n][..k] == bs[..k];
    }
  }

  /** An operation keeps the place of every binding and all of it but its index, which only numbering
      changes, and two flags: it makes a binding escape or be accessed exactly when it is a cause for that. */
  lemma StepAt(t: Tree, e: Event, s: nat, k: nat)
    requires Shaped(t) && Known(t, e) && s < |t| && k < |t[s].bindings|
    ensures var (b, f) := (t[s].bindings[k], Apply(t, e)[s]);
      && f.parent == t[s].parent && |t[s].bindings| <= |f.bindings|
      && f.bindings[k].name == b.name && f.bindings[k].mutable == b.mutable
      && f.bindings[k].lex == b.lex && f.bindings[k].strict == b.strict
      && f.bindings[k].index == (
        if !(e.Reorder? && e.scope == s) then b.index else if b.escapes then Escaping(t[s].bindings[..k]) else 0)
      && (f.bindings[k].escapes <==> b.escapes || Escapes(t, e, s, k))
      && (f.bindings[k].accessed <==> b.accessed || Accesses(t, e, s, k))
  {
    if e.Reorder? && e.scope == s { RenumberAt(t[s].bindings, k); }
  }

  /** An operation adds a scope, or it adds a binding to one scope, or no scope and no binding is new. What
      else it changes in a scope is the index or whether `this` escapes. */
  lemma StepAdds(t: Tree, e: Event)
    requires Shaped(t) && Known(t, e)
    ensures e.NewScope? ==> Apply(t, e) == t + [Frame(e.parent, e.isFunction, |t| % U32, t[e.parent].index + 1, false, [])]
    ensures !e.NewScope? ==> |Apply(t, e)| == |t|
    ensures forall s | 0 <= s < |t| ::
      var (f, f') := (t[s], Apply(t, e)[s]);
      && f'.parent == f.parent && f'.isFunction == f.isFunction && f'.uniqueId == f.uniqueId
      && f'.index == (if e.SetIndex? && e.scope == s then e.index else f.index)
      && f'.thisEscaped == (f.thisEscaped || (e.EscapeThis? && e.scope == s))
      && |f'.bindings| == |f.bindings| + if Adds(t, e, s) then 1 else 0
    ensures (e.CreateMutable? || e.CreateImmutable?) && Adds(t, e, e.scope) ==>
      var (f, b) := (t[e.scope], Apply(t, e)[e.scope].bindings[|t[e.scope].bindings|]);
      && b.name == e.name && b.index == |f.bindings| && (b.escapes <==> f.parent == -1) && !b.accessed
      && b.mutable == e.CreateMutable?
      && b.lex == (e.CreateMutable? ==> !e.functionScope)
      && b.strict == (e.CreateImmutable? && e.strict)
  {}

  /** The operation creates a binding in scope s, which has none of that name. */
  predicate Adds(t: Tree, e: Event, s: nat)
    requires Shaped(t) && Known(t, e) && s < |t|
  {
    (e.CreateMutable? || e.CreateImmutable?) && e.scope == s && forall b | b in t[s].bindings :: b.name != e.name
  }

  /** The operation accesses binding k of scope s. */
  predicate Accesses(t: Tree, e: Event, s: nat, k: nat)
    requires Shaped(t) && Known(t, e)
  {
    e.Access? && Resolve(t, e.scope, e.name).Some? &&
    var h := Resolve(t, e.scope, e.name).value;
    h.scope == s && h.pos == k
  }

  /** The operation makes binding k of scope s escape: it does so to the whole scope, or it
      accesses the binding from another function or in eval or with code. */
  predicate Escapes(t: Tree, e: Event, s: nat, k: nat)
    requires Shaped(t) && Known(t, e)
  {
    || (e.EscapeAll? && e.scope == s)
    || (Accesses(t, e, s, k) && (Resolve(t, e.scope, e.name).value.crossed || e.evalOrWith))
  }

  lemma BindingsGrow(t: Tree, e: Event, s: nat)
    requires Shaped(t) && Known(t, e) && s < |t|
    ensures var f := Apply(t, e)[s]; f.parent == t[s].parent && |t[s].bindings| <= |f.bindings|
  {
    if t[s].bindings != [] { StepAt(t, e, s, 0); }
  }

  /** At operation i of the run, binding k of scope s existed and was made to escape. */
  ghost predicate EscapesAt(es: seq<Event>, i: nat, s: nat, k: nat) {
    && i < |es| && Legal(es[..i])
    && var t := After(es[..i]);
    Known(t, es[i]) && s < |t| && k < |t[s].bindings| && Escapes(t, es[i], s, k)
  }

  ghost predicate AccessedAt(es: seq<Event>, i: nat, s: nat, k: nat) {
    && i < |es| && Legal(es[..i])
    && var t := After(es[..i]);
    Known(t, es[i]) && s < |t| && k < |t[s].bindings| && Accesses(t, es[i], s, k)
  }

  /** Whole runs: a binding escapes exactly if it is global or something in the run made it
      escape, and it counts as accessed exactly if some access in the run resolved to it. */
  lemma {:induction false} EscapesExactly(es: seq<Event>, s: nat, k: nat)
    requires Legal(es) && s < |After(es)| && k < |After(es)[s].bindings|
    ensures var (f, b) := (After(es)[s], After(es)[s].bindings[k]);
      && (b.escapes <==> f.parent == -1 || exists i :: EscapesAt(es, i, s, k))
      && (b.accessed <==> exists i :: AccessedAt(es, i, s, k))
    decreases |es|
  {
    hide Apply;
    hide Resolve;
    hide Escapes;
    hide Accesses;
    if es != [] {
      var n := |es| - 1;
      var t, e := After(es[..n]), es[n];
      PrefixCauses(es, s, k);
      assert es[..n] == es[..|es| - 1];
      if s < |t| && k < |t[s].bindings| {
        EscapesExactly(es[..n], s, k);
        StepAt(t, e, s, k);
        assert EscapesAt(es, n, s, k) <==> Escapes(t, e, s, k);
        assert AccessedAt(es, n, s, k) <==> Accesses(t, e, s, k);
      } else {
        NoCauseBefore(es[..n], s, k);
        BornQuiet(t, e, s, k);
        assert !EscapesAt(es, n, s, k) && !AccessedAt(es, n, s, k);
      }
    }
  }

  /** A new binding was not accessed, and it escapes only if it is global. */
  lemma BornQuiet(t: Tree, e: Event, s: nat, k: nat)
    requires Shaped(t) && Known(t, e) && s < |Apply(t, e)| && k < |Apply(t, e)[s].bindings|
    requires s < |t| ==> |t[s].bindings| <= k
    ensures var (f, b) := (Apply(t, e)[s], Apply(t, e)[s].bindings[k]); !b.accessed && (b.escapes <==> f.parent == -1)
  {}

  lemma PrefixCauses(es: seq<Event>, s: nat, k: nat)
    requires Legal(es) && es != []
    ensures var n := |es| - 1;
      && (forall i | i != n :: EscapesAt(es, i, s, k) <==> EscapesAt(es[..n], i, s, k))
      && (forall i | i != n :: AccessedAt(es, i, s, k) <==> AccessedAt(es[..n], i, s, k))
  {
    var n := |es| - 1;
    forall i: nat | i < n ensures es[..n][..i] == es[..i] {}
  }

  /** What does not exist at the end of a run did not exist during the run. */
  lemma {:induction false} NoCauseBefore(es: seq<Event>, s: nat, k: nat)
    requires Legal(es) && (s < |After(es)| ==> |After(es)[s].bindings| <= k)
    ensures forall i :: !EscapesAt(es, i, s, k) && !AccessedAt(es, i, s, k)
    decreases |es|
  {
    hide Apply;
    hide Resolve;
    hide Escapes;
    hide Accesses;
    if es != [] {
      var n := |es| - 1;
      PrefixCauses(es, s, k);
      if s < |After(es[..n])| { BindingsGrow(After(es[..n]), es[n], s); }
      NoCauseBefore(es[..n], s, k);
    }
  }

  /** Every scope of a run keeps to the rules. */
  lemma {:induction false} RunWellFormed(es: seq<Event>)
    requires Legal(es)
    ensures WellFormed(After(es))
    decreases |es|
  {
    if es != [] {
      var n := |es| - 1;
      RunWellFormed(es[..n]);
      StepWellFormed(After(es[..n]), es[n]);
    }
  }

  lemma StepWellFormed(t: Tree, e: Event)
    requires WellFormed(t) && Known(t, e)
    ensures WellFormed(Apply(t, e))
  {
    hide Resolve;
    hide Renumber;
    hide Find;
    hide Escapes;
    hide Accesses;
    var r := Apply(t, e);
    forall i | 0 <= i < |r| ensures UniqueNames(r[i].bindings) && r[i].uniqueId == i % U32 {
      if i < |t| {
        assert UniqueNames(t[i].bindings);
        forall j | 0 <= j < |t[i].bindings| ensures r[i].bindings[j].name == t[i].bindings[j].name { StepAt(t, e, i, j); }
      }
    }
    forall i, b | 0 <= i < |r| && r[i].parent == -1 && b in r[i].bindings ensures b.escapes {
      var k :| 0 <= k < |r[i].bindings| && r[i].bindings[k] == b;
      if i < |t| && k < |t[i].bindings| {
        StepAt(t, e, i, k);
        assert t[i].bindings[k] in t[i].bindings;
      } else {
        BornQuiet(t, e, i, k);
      }
    }
  }

  /** The ids of the scopes are distinct as long as their number fits 32 bits, and no longer. */
  lemma UniqueIds(t: Tree)
    requires WellFormed(t)
    ensures (forall i, j | 0 <= i < j < |t| :: t[i].uniqueId != t[j].uniqueId) <==> |t| <= U32
  {
    if |t| > U32 { assert t[0].uniqueId == t[U32].uniqueId; }
  }

  // ---------- numbering ----------

  lemma {:induction false} EscapingMonotone(bs: seq<Binding>, i: nat, j: nat)
    requires i < j <= |bs|
    ensures Escaping(bs[..i]) + (if bs[i].escapes then 1 else 0) <= Escaping(bs[..j])
    decreases j - i
  {
    assert bs[..j][..j - 1] == bs[..j - 1];
    if i < j - 1 { EscapingMonotone(bs, i, j - 1); }
  }

  /** The escaping bindings are numbered in their order; a binding that does not escape gets 0. */
  lemma RenumberOrder(bs: seq<Binding>, i: nat, j: nat)
    requires i < j < |bs| && bs[i].escapes
    ensures if bs[j].escapes then Renumber(bs)[i].index < Renumber(bs)[j].index < Escaping(bs) else Renumber(bs)[j].index == 0
  {
    RenumberAt(bs, i);
    RenumberAt(bs, j);
    EscapingMonotone(bs, i, j);
    EscapingMonotone(bs, j, |bs|);
    assert bs[..|bs|] == bs;
  }

  /** No number below that of escaping bindings is left out. */
  lemma RenumberCovers(bs: seq<Binding>, n: nat) returns (i: nat)
    requires n < Escaping(bs)
    ensures i < |bs| && bs[i].escapes && Renumber(bs)[i].index == n
  {
    i := NthEscaping(bs, n);
    RenumberAt(bs, i);
  }

  lemma {:induction false} NthEscaping(bs: seq<Binding>, n: nat) returns (i: nat)
    requires n < Escaping(bs)
    ensures i < |bs| && bs[i].escapes && Escaping(bs[..i]) == n
    decreases |bs|
  {
    var m := |bs| - 1;
    if n < Escaping(bs[..m]) {
      i := NthEscaping(bs[..m], n);
      assert bs[..m][..i] == bs[..i];
    } else {
      i := m;
    }
  }

  lemma {:induction false} EscapingSame(bs: seq<Binding>, cs: seq<Binding>)
    requires |bs| == |cs| && forall k | 0 <= k < |bs| :: bs[k].escapes == cs[k].escapes
    ensures Escaping(bs) == Escaping(cs)
    decreases |bs|
  {
    if bs != [] { EscapingSame(bs[..|bs| - 1], cs[..|cs| - 1]); }
  }

  /** Numbering again changes nothing. */
  lemma RenumberIdempotent(bs: seq<Binding>)
    ensures Renumber(Renumber(bs)) == Renumber(bs) && Escaping(Renumber(bs)) == Escaping(bs)
  {
    var cs := Renumber(bs);
    forall k | 0 <= k < |bs| ensures cs[k].escapes == bs[k].escapes { RenumberAt(bs, k); }
    EscapingSame(bs, cs);
    forall k | 0 <= k < |bs| ensures Renumber(cs)[k] == cs[k] {
      RenumberAt(bs, k);
      RenumberAt(cs, k);
      EscapingSame(bs[..k], cs[..k]);
    }
  }

  // ---------- references ----------

  /** Scope 0 is the global object, scope n + 1 the scope of index n. */
  datatype Locator = Locator(name: string, scope: nat, bindingIndex: nat, uniqueScopeId: int)

  datatype Reference = Reference(locator: Locator, lexical: bool, escapes: bool)

  datatype Result<T, E> = Ok(value: T) | Err(error: E)

  datatype LocatorError = MutateImmutable | Silent

  function LocatorOf(f: Frame, b: Binding): Locator {
    Locator(b.name, f.index + 1, b.index, f.uniqueId)
  }

  function ReferenceOf(f: Frame, b: Binding): Reference {
    Reference(LocatorOf(f, b), b.lex, b.escapes)
  }

  function GlobalReference(name: string): Reference {
    Reference(Locator(name, 0, 0, 0), false, true)
  }

  /** The reference a name stands for in scope i. */
  function ReferenceTo(t: Tree, i: nat, name: string): Reference
    requires Shaped(t) && i < |t|
  {
    match Resolve(t, i, name)
    case None => GlobalReference(name)
    case Some(h) => ReferenceOf(t[h.scope], t[h.scope].bindings[h.pos])
  }

  function Resolved(t: Tree, i: nat, name: string): Binding
    requires Shaped(t) && i < |t| && Resolve(t, i, name).Some?
  {
    var h := Resolve(t, i, name).value;
    t[h.scope].bindings[h.pos]
  }

  /** The reference names the binding found and tells where it is; without one it is that of the global object. */
  ghost predicate Names(t: Tree, i: nat, name: string, r: Reference)
    requires Shaped(t) && i < |t|
  {
    && r.locator.name == name
    && match Resolve(t, i, name)
       case None => r.locator.scope == 0 && r.locator.bindingIndex == 0 && r.locator.uniqueScopeId == 0 && !r.lexical && r.escapes
       case Some(h) =>
         && r.locator.scope == t[h.scope].index + 1 && r.locator.uniqueScopeId == t[h.scope].uniqueId
         && r.locator.bindingIndex == Resolved(t, i, name).index
         && r.lexical == Resolved(t, i, name).lex && r.escapes == Resolved(t, i, name).escapes
  }

  /** Assigning to a name: an immutable binding gives an error, one that is to be ignored if the
      binding is not strict; otherwise the result is the reference that using the name gives. */
  ghost predicate Sets(t: Tree, i: nat, name: string, r: Result<Reference, LocatorError>)
    requires Shaped(t) && i < |t|
  {
    var found := Resolve(t, i, name).Some?;
    && (r == Err(MutateImmutable) <==> found && !Resolved(t, i, name).mutable && Resolved(t, i, name).strict)
    && (r == Err(Silent) <==> found && !Resolved(t, i, name).mutable && !Resolved(t, i, name).strict)
    && (r.Ok? ==> Names(t, i, name, r.value))
  }

  lemma SetsOutward(t: Tree, i: nat, name: string, r: Result<Reference, LocatorError>)
    requires Shaped(t) && i < |t| && Find(t[i].bindings, name).None? && t[i].parent >= 0 && Sets(t, t[i].parent, name, r)
    ensures Sets(t, i, name, r)
  {}

  /** There is only one such reference. */
  lemma NamesOne(t: Tree, i: nat, name: string, r: Reference)
    requires Shaped(t) && i < |t|
    ensures Names(t, i, name, r) <==> r == ReferenceTo(t, i, name)
  {}

  /** The same scopes, with the bindings of those that are not function scopes out of sight. */
  function OnlyFunctions(t: Tree): (r: Tree)
    ensures |r| == |t| && forall i | 0 <= i < |t| :: r[i] == if t[i].isFunction then t[i] else t[i].(bindings := [])
  {
    seq(|t|, i requires 0 <= i < |t| => if t[i].isFunction then t[i] else t[i].(bindings := []))
  }

  /** After numbering, the locator of an escaping binding tells the binding: no two have the same
      scope id and binding index. */
  lemma LocatorsIdentify(t: Tree, s: nat, k: nat, s': nat, k': nat)
    requires WellFormed(t) && |t| <= U32 && s < |t| && s' < |t| && k < |t[s].bindings| && k' < |t[s'].bindings|
    requires Renumber(t[s].bindings) == t[s].bindings && Renumber(t[s'].bindings) == t[s'].bindings
    requires t[s].bindings[k].escapes && t[s'].bindings[k'].escapes
    requires LocatorOf(t[s], t[s].bindings[k]).uniqueScopeId == LocatorOf(t[s'], t[s'].bindings[k']).uniqueScopeId
    requires LocatorOf(t[s], t[s].bindings[k]).bindingIndex == LocatorOf(t[s'], t[s'].bindings[k']).bindingIndex
    ensures s == s' && k == k'
  {
    UniqueIds(t);
    assert s == s';
    if k < k' { RenumberOrder(t[s].bindings, k, k'); }
    if k' < k { RenumberOrder(t[s].bindings, k', k); }
  }
}
