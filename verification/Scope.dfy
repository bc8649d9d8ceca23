/** The scope objects of core/ast/src/scope.rs: a vector of bindings with a map from names to
    positions beside it. The ghost parameters all and t are all scopes made from one global scope
    and the values they hold. */
module Scopes {
  import opened ScopeTrees

  class ScopeContext {
    var uniqueIdCtr: int

    constructor ()
      ensures uniqueIdCtr == 0
    {
      uniqueIdCtr := 0;
    }

    // counts up; in builds without overflow checks it wraps around
    method NextUniqueId() returns (id: int)
      modifies this
      ensures id == uniqueIdCtr == (old(uniqueIdCtr) + 1) % U32
    {
      id := (uniqueIdCtr + 1) % U32;
      uniqueIdCtr := id;
    }
  }

  /** The map has the position of every name of the vector, and nothing else. */
  ghost predicate InSync(bs: seq<Binding>, m: map<string, nat>) {
    && (forall name | name in m :: m[name] < |bs| && bs[m[name]].name == name)
    && forall k | 0 <= k < |bs| :: bs[k].name in m && m[bs[k].name] == k
  }

  /** The map agrees with linear search. */
  lemma FindInSync(bs: seq<Binding>, m: map<string, nat>, name: string)
    requires InSync(bs, m)
    ensures Find(bs, name) == if name in m then Some(m[name]) else None
  {}

  lemma PushInSync(bs: seq<Binding>, m: map<string, nat>, b: Binding)
    requires InSync(bs, m) && b.name !in m
    ensures InSync(bs + [b], m[b.name := |bs|])
  {}

  class Scope {
    const uniqueId: int
    const outer: Scope?
    const isFunction: bool
    const context: ScopeContext
    ghost const place: nat
    var index: nat
    var bindings: seq<Binding>
    var bindingMap: map<string, nat>
    var thisEscaped: bool

    constructor Global()
      ensures Stored([this], [GLOBAL]) && fresh(context)
      ensures uniqueId == 0 && outer == null && index == 0 && bindings == [] && isFunction && !thisEscaped
    {
      uniqueId, outer, index, bindings, bindingMap, isFunction, thisEscaped := 0, null, 0, [], map[], true, false;
      context := new ScopeContext();
      place := 0;
    }

    constructor (parent: Scope, isFunction: bool, ghost all: seq<Scope>, ghost t: Tree)
      requires Stored(all, t) && parent.In(all)
      modifies parent.context
      ensures Stored(all + [this], Apply(t, NewScope(parent.place, isFunction)))
      ensures uniqueId == parent.context.uniqueIdCtr == (old(parent.context.uniqueIdCtr) + 1) % U32
      ensures outer == parent && index == parent.index + 1 && bindings == [] && this.isFunction == isFunction && !thisEscaped
    {
      assert StoredAt(all, t, 0) && StoredAt(all, t, parent.place);
      StepAdds(t, NewScope(parent.place, isFunction));
      hide Apply;
      hide Resolve;
      var id := parent.context.NextUniqueId();
      uniqueId := id;
      index, bindings, bindingMap, thisEscaped := parent.index + 1, [], map[], false;
      this.isFunction := isFunction;
      context := parent.context;
      outer := parent;
      place := |all|;
      new;
      forall i | 0 <= i < |t| ensures StoredAt(all, t, i) { assert old(StoredAt(all, t, i)); }
      OneMore(all, t, this, Frame(parent.place, isFunction, id, index, false, []));
    }

    ghost predicate In(all: seq<Scope>) {
      place < |all| && all[place] == this
    }

    ghost predicate Matches(f: Frame)
      reads this
    {
      && isFunction == f.isFunction && uniqueId == f.uniqueId && index == f.index && thisEscaped == f.thisEscaped
      && bindings == f.bindings && InSync(bindings, bindingMap)
    }

    function HasBinding(name: string): (r: bool)
      requires InSync(bindings, bindingMap)
      reads this
      ensures r <==> exists b :: b in bindings && b.name == name
    {
      FindInSync(bindings, bindingMap, name);
      name in bindingMap
    }

    function HasLexBinding(name: string): (r: bool)
      requires InSync(bindings, bindingMap)
      reads this
      ensures r <==> exists b :: b in bindings && b.name == name && b.lex
    {
      FindInSync(bindings, bindingMap, name);
      name in bindingMap && bindings[bindingMap[name]].lex
    }

    // the reference for a binding of this scope
    function MakeReference(b: Binding): Reference
      reads this
    {
      Reference(Locator(b.name, index + 1, b.index, uniqueId), b.lex, b.escapes)
    }

    function GetIdentifierReference(name: string, ghost all: seq<Scope>, ghost t: Tree): (r: Reference)
      requires Stored(all, t) && In(all)
      reads all, set s | s in all :: s.context
      ensures r == ReferenceTo(t, place, name)
      ensures Names(t, place, name, r)
      decreases place
    {
      assert StoredAt(all, t, place);
      FindInSync(bindings, bindingMap, name);
      if name in bindingMap then MakeReference(bindings[bindingMap[name]])
      else if outer != null then
        assert StoredAt(all, t, t[place].parent);
        outer.GetIdentifierReference(name, all, t)
      else GlobalReference(name)
    }

    function IsBindingMutable(name: string, ghost all: seq<Scope>, ghost t: Tree): (r: Option<bool>)
      requires Stored(all, t) && In(all)
      reads all, set s | s in all :: s.context
      ensures r == match Resolve(t, place, name) case None => None case Some(h) => Some(t[h.scope].bindings[h.pos].mutable)
      ensures r == Some(false) <==> Resolve(t, place, name).Some? && !Resolved(t, place, name).mutable
      decreases place
    {
      assert StoredAt(all, t, place);
      FindInSync(bindings, bindingMap, name);
      if name in bindingMap then Some(bindings[bindingMap[name]].mutable)
      else if outer != null then
        assert StoredAt(all, t, t[place].parent);
        outer.IsBindingMutable(name, all, t)
      else None
    }

    // what assigning to a binding of this scope gives
    function SetHere(b: Binding): Result<Reference, LocatorError>
      reads this
    {
      if b.mutable then Ok(MakeReference(b)) else if b.strict then Err(MutateImmutable) else Err(Silent)
    }

    function SetMutableBinding(name: string, ghost all: seq<Scope>, ghost t: Tree): (r: Result<Reference, LocatorError>)
      requires Stored(all, t) && In(all)
      reads all, set s | s in all :: s.context
      ensures Sets(t, place, name, r)
      decreases place
    {
      assert StoredAt(all, t, place);
      FindInSync(bindings, bindingMap, name);
      if name in bindingMap then SetHere(bindings[bindingMap[name]])
      else if outer != null then
        assert StoredAt(all, t, t[place].parent);
        var r := outer.SetMutableBinding(name, all, t);
        SetsOutward(t, place, name, r);
        r
      else Ok(GlobalReference(name))
    }

    // only function scopes are searched
    function SetMutableBindingVar(name: string, ghost all: seq<Scope>, ghost t: Tree): (r: Result<Reference, LocatorError>)
      requires Stored(all, t) && In(all)
      reads all, set s | s in all :: s.context
      ensures Sets(OnlyFunctions(t), place, name, r)
      decreases place
    {
      assert StoredAt(all, t, place);
      FindInSync(bindings, bindingMap, name);
      if isFunction && name in bindingMap then SetHere(bindings[bindingMap[name]])
      else if outer != null then
        assert StoredAt(all, t, t[place].parent);
        var r := outer.SetMutableBindingVar(name, all, t);
        SetsOutward(OnlyFunctions(t), place, name, r);
        r
      else Ok(GlobalReference(name))
    }

    // simulate the use of a name in this scope
    method AccessBinding(name: string, evalOrWith: bool, ghost all: seq<Scope>, ghost t: Tree)
      requires Stored(all, t) && In(all)
      modifies all`bindings
      ensures Stored(all, Apply(t, Access(place, name, evalOrWith)))
    {
      AccessApplies(t, place, name, evalOrWith);
      hide Apply;
      hide WithBindings;
      hide Mark;
      var crossedFunctionBorder := false;
      var current: Scope := this;
      while true
        invariant Stored(all, t) && current.In(all)
        invariant Resolve(t, place, name) == AddCrossed(Resolve(t, current.place, name), crossedFunctionBorder)
        decreases current.place
      {
        assert StoredAt(all, t, current.place);
        FindInSync(current.bindings, current.bindingMap, name);
        if name in current.bindingMap {
          current.MarkAccessed(current.bindingMap[name], crossedFunctionBorder || evalOrWith, all, t);
          return;
        }
        if current.outer == null {
          return;
        }
        assert StoredAt(all, t, t[current.place].parent);
        if current.isFunction {
          crossedFunctionBorder := true;
        }
        current := current.outer;
      }
    }

    method MarkAccessed(pos: nat, escape: bool, ghost all: seq<Scope>, ghost t: Tree)
      requires Stored(all, t) && In(all) && pos < |bindings| && bindings == t[place].bindings
      modifies `bindings
      ensures Stored(all, WithBindings(t, place, t[place].bindings[pos := Mark(t[place].bindings[pos], escape)]))
    {
      assert StoredAt(all, t, place);
      var b := bindings[pos].(accessed := true);
      if escape {
        b := b.(escapes := true);
      }
      bindings := bindings[pos := b];
      StoredWith(all, t, place, t[place].(bindings := bindings));
    }

    method CreateMutableBinding(name: string, functionScope: bool, ghost all: seq<Scope>, ghost t: Tree) returns (r: Locator)
      requires Stored(all, t) && In(all)
      modifies `bindings, `bindingMap
      ensures Stored(all, Apply(t, CreateMutable(place, name, functionScope)))
      ensures name in old(bindingMap) ==> bindings == old(bindings) && bindingMap == old(bindingMap)
      ensures name !in old(bindingMap) ==>
        && bindings == old(bindings) + [Binding(name, |old(bindings)|, true, !functionScope, false, outer == null, false)]
        && bindingMap == old(bindingMap)[name := |old(bindings)|]
      ensures name in bindingMap && bindingMap[name] < |bindings|
      ensures r == Locator(name, index + 1, bindings[bindingMap[name]].index, uniqueId)
    {
      assert StoredAt(all, t, place);
      FindInSync(bindings, bindingMap, name);
      hide Find;
      hide Resolve;
      hide Stored;
      if name in bindingMap {
        return Locator(name, index + 1, bindings[bindingMap[name]].index, uniqueId);
      }
      r := Locator(name, index + 1, |bindings|, uniqueId);
      hide InSync;
      Push(Binding(name, |bindings|, true, !functionScope, false, outer == null, false), all, t);
    }

    method CreateImmutableBinding(name: string, strict: bool, ghost all: seq<Scope>, ghost t: Tree)
      requires Stored(all, t) && In(all)
      modifies `bindings, `bindingMap
      ensures Stored(all, Apply(t, CreateImmutable(place, name, strict)))
      ensures name in old(bindingMap) ==> bindings == old(bindings) && bindingMap == old(bindingMap)
      ensures name !in old(bindingMap) ==>
        && bindings == old(bindings) + [Binding(name, |old(bindings)|, false, true, strict, outer == null, false)]
        && bindingMap == old(bindingMap)[name := |old(bindings)|]
    {
      assert StoredAt(all, t, place);
      FindInSync(bindings, bindingMap, name);
      if name in bindingMap {
        return;
      }
      Push(Binding(name, |bindings|, false, true, strict, outer == null, false), all, t);
    }

    // a new binding at the end of the vector, the map kept in step
    method Push(b: Binding, ghost all: seq<Scope>, ghost t: Tree)
      requires Stored(all, t) && In(all) && b.name !in bindingMap
      modifies `bindings, `bindingMap
      ensures Stored(all, WithBindings(t, place, t[place].bindings + [b]))
      ensures bindings == old(bindings) + [b] && bindingMap == old(bindingMap)[b.name := |old(bindings)|]
    {
      assert StoredAt(all, t, place);
      PushInSync(bindings, bindingMap, b);
      bindingMap := bindingMap[b.name := |bindings|];
      bindings := bindings + [b];
      StoredWith(all, t, place, t[place].(bindings := bindings));
    }

    method EscapeAllBindings(ghost all: seq<Scope>, ghost t: Tree)
      requires Stored(all, t) && In(all)
      modifies `bindings
      ensures Stored(all, Apply(t, EscapeAll(place))) && |bindings| == |old(bindings)|
      ensures forall k | 0 <= k < |bindings| :: bindings[k] == old(bindings)[k].(escapes := true)
    {
      assert StoredAt(all, t, place);
      MarkEach();
      StoredWith(all, t, place, t[place].(bindings := bindings));
    }

    method MarkEach()
      modifies `bindings
      ensures bindings == EscapeEach(old(bindings))
    {
      for i := 0 to |bindings|
        invariant |bindings| == |old(bindings)|
        invariant forall k | 0 <= k < |bindings| :: bindings[k] == if k < i then old(bindings)[k].(escapes := true) else old(bindings)[k]
      {
        bindings := bindings[i := bindings[i].(escapes := true)];
      }
    }

    method ReorderBindingIndices(ghost all: seq<Scope>, ghost t: Tree)
      requires Stored(all, t) && In(all)
      modifies `bindings
      ensures Stored(all, Apply(t, Reorder(place))) && |bindings| == |old(bindings)|
      ensures forall k | 0 <= k < |bindings| ::
        bindings[k] == old(bindings)[k].(index := if old(bindings)[k].escapes then Escaping(old(bindings)[..k]) else 0)
    {
      assert StoredAt(all, t, place);
      NumberEach();
      forall k | 0 <= k < |bindings|
        ensures bindings[k] == old(bindings)[k].(index := if old(bindings)[k].escapes then Escaping(old(bindings)[..k]) else 0)
      {
        RenumberAt(old(bindings), k);
      }
      StoredWith(all, t, place, t[place].(bindings := bindings));
    }

    method NumberEach()
      modifies `bindings
      ensures bindings == Renumber(old(bindings))
    {
      ghost var bs := bindings;
      var next := 0;
      for i := 0 to |bindings|
        invariant |bindings| == |bs| && next == Escaping(bs[..i]) && bindings[..i] == Renumber(bs[..i])
        invariant forall k | i <= k < |bindings| :: bindings[k] == bs[k]
      {
        assert bs[..i + 1][..i] == bs[..i];
        ghost var before := bindings;
        if !bindings[i].escapes {
          bindings := bindings[i := bindings[i].(index := 0)];
        } else {
          bindings := bindings[i := bindings[i].(index := next)];
          next := next + 1;
        }
        assert bindings[..i + 1] == before[..i] + [bindings[i]];
      }
      assert bs[..|bs|] == bs && bindings[..|bindings|] == bindings;
    }

    // the number of bindings that are not local
    method NumBindingsNonLocal() returns (n: nat)
      ensures n == Escaping(bindings)
    {
      n := 0;
      for i := 0 to |bindings|
        invariant n == Escaping(bindings[..i])
      {
        assert bindings[..i + 1][..i] == bindings[..i];
        if bindings[i].escapes { n := n + 1; }
      }
      assert bindings[..|bindings|] == bindings;
    }

    method EscapeThisBinding(ghost all: seq<Scope>, ghost t: Tree)
      requires Stored(all, t) && In(all) && isFunction
      modifies `thisEscaped
      ensures Stored(all, Apply(t, EscapeThis(place))) && thisEscaped
    {
      assert StoredAt(all, t, place);
      thisEscaped := true;
      StoredWith(all, t, place, t[place].(thisEscaped := true));
    }

    method SetScopeIndex(index: nat, ghost all: seq<Scope>, ghost t: Tree)
      requires Stored(all, t) && In(all)
      modifies `index
      ensures Stored(all, Apply(t, SetIndex(place, index))) && this.index == index
    {
      assert StoredAt(all, t, place);
      this.index := index;
      StoredWith(all, t, place, t[place].(index := index));
    }
  }

  function AddCrossed(r: Option<Hit>, crossed: bool): Option<Hit> {
    match r
    case None => None
    case Some(h) => Some(h.(crossed := h.crossed || crossed))
  }

  lemma AccessApplies(t: Tree, i: nat, name: string, evalOrWith: bool)
    requires Shaped(t) && i < |t|
    ensures Apply(t, Access(i, name, evalOrWith)) == match Resolve(t, i, name)
      case None => t
      case Some(h) =>
        WithBindings(t, h.scope, t[h.scope].bindings[h.pos := Mark(t[h.scope].bindings[h.pos], h.crossed || evalOrWith)])
  {}

  /** A scope added below one of the others. */
  lemma OneMore(all: seq<Scope>, t: Tree, x: Scope, f: Frame)
    requires Shaped(t) && |all| == |t| && forall i | 0 <= i < |t| :: StoredAt(all, t, i)
    requires 0 <= f.parent < |t| && x.place == |t| && x.context == all[0].context && x.Matches(f) && x.outer == all[f.parent]
    requires Shaped(t + [f]) && x.context.uniqueIdCtr == |t| % U32
    ensures Stored(all + [x], t + [f])
  {
    var all', t' := all + [x], t + [f];
    forall i | 0 <= i < |t'| ensures StoredAt(all', t', i) {
      if i < |t| { assert StoredAt(all, t, i); }
    }
  }

  /** Only scope x changed, and it holds f now. */
  twostate lemma StoredWith(all: seq<Scope>, new t: Tree, new x: nat, new f: Frame)
    requires old(Stored(all, t)) && x < |t| && all[x].Matches(f) && f.parent == t[x].parent
    requires forall s | s in all && s.place != x ::
      s.index == old(s.index) && s.thisEscaped == old(s.thisEscaped) && s.bindings == old(s.bindings) && s.bindingMap == old(s.bindingMap)
    requires all[0].context.uniqueIdCtr == old(all[0].context.uniqueIdCtr)
    ensures Stored(all, t[x := f])
  {
    var t' := t[x := f];
    forall i | 0 <= i < |t| ensures StoredAt(all, t', i) { assert old(StoredAt(all, t, i)) && all[i] in all; }
  }

  ghost predicate Stored(all: seq<Scope>, t: Tree)
    reads all, set s | s in all :: s.context
  {
    && Shaped(t) && |all| == |t|
    && (forall i | 0 <= i < |t| :: StoredAt(all, t, i))
    && all[0].context.uniqueIdCtr == (|t| - 1) % U32
  }

  ghost predicate StoredAt(all: seq<Scope>, t: Tree, i: nat)
    requires Shaped(t) && |all| == |t| && i < |t|
    reads all
  {
    && all[i].place == i && all[i].context == all[0].context && all[i].Matches(t[i])
    && all[i].outer == if t[i].parent == -1 then null else all[t[i].parent]
  }
}
