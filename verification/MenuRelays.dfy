/** Exactly which menus can end up with an entry under an owner that it does not depend on: those
    in which one list has an entry with a prompt that can take siblings, behind it one without a
    prompt that can, and behind that one a further entry.  The second one takes the third, the
    first one takes the second, and the third one moves up to the first one untested. */
module MenuRelays {
  import opened Expressions
  import opened Elimination
  import opened Transformation
  import opened Joining
  import opened Duplicates
  import opened DuplicateMeaning
  import opened Comparing
  import opened MenuForest
  import opened MenuDependencies
  import opened MenuTree
  import opened MenuOwners

  /** Somewhere in the list f there is an entry without a prompt that can take the one behind it. */
  predicate RelayBehind(info: Info, f: Forest) {
    f.Node? && ((Adopter(info, f) && f.id !in info.prompt && f.rest.Node?) || RelayBehind(info, f.rest))
  }

  /** Such an entry stands behind one with a prompt that can take siblings, in some list of f. */
  predicate Relay(info: Info, f: Forest) {
    f.Node? &&
    ((Adopter(info, f) && f.id in info.prompt && RelayBehind(info, f.rest)) || Relay(info, f.kids) || Relay(info, f.rest))
  }

  // ---------------------------------------------------------------- without the pattern nothing is relayed

  lemma {:induction false} RelayTail(info: Info, f: Forest, t: Forest)
    requires TailOf(t, f)
    ensures Relay(info, t) ==> Relay(info, f)
    ensures RelayBehind(info, t) ==> RelayBehind(info, f)
  {
    if t != f { RelayTail(info, f.rest, t); }
  }

  lemma {:induction false} NoRelay(info: Info, c: Conditions, m: Id, kids: Forest, rest: Forest)
    requires !Relay(info, Node(m, kids, rest))
    ensures RelayFree(info, c, m, kids, rest)
    decreases Count(kids) + Count(rest), 2
  {
    if kids.Node? { NoRelayList(info, c, kids); }
    else if m in info.sym { NoRelayTaken(info, c, m, rest); }
  }

  lemma {:induction false} NoRelayList(info: Info, c: Conditions, f: Forest)
    requires !Relay(info, f)
    ensures RelayFreeList(info, c, f)
    decreases Count(f), 1
  {
    if f.Node? {
      var left := Finalized(info, c, f.id, f.kids, f.rest).1;
      FinalizedTail(info, c, f.id, f.kids, f.rest);
      RelayTail(info, f.rest, left);
      NoRelay(info, c, f.id, f.kids, f.rest);
      NoRelayList(info, c, left);
    }
  }

  lemma {:induction false} NoRelayTaken(info: Info, c: Conditions, m: Id, f: Forest)
    requires !Relay(info, f) && (m in info.prompt ==> !RelayBehind(info, f))
    ensures RelayFreeTaken(info, c, m, f)
    decreases Count(f), 1
  {
    if f.Node? && Takes(info, c, m, f.id) {
      var left := Finalized(info, c, f.id, f.kids, f.rest).1;
      FinalizedTail(info, c, f.id, f.kids, f.rest);
      RelayTail(info, f.rest, left);
      NoRelay(info, c, f.id, f.kids, f.rest);
      NoRelayTaken(info, c, m, left);
    }
  }

  // ---------------------------------------------------------------- with the pattern it can happen

  const OFF: Expr := Sym(SYMBOL_NO)

  type Guards = map<Id, Expr>

  /** All entries of f have the guard e of their menu. */
  function Inherited(f: Forest, e: Expr): Guards {
    if f.Nil? then map[] else Inherited(f.kids, e) + Inherited(f.rest, e) + map[f.id := e]
  }

  /** Behind an entry with the symbol s: entries that depend on s, up to one without a prompt that can
      take siblings, and behind that one an entry that needs its symbol to be unset. */
  function RelayGuards(info: Info, s: Symbol, f: Forest): Guards
    requires RelayBehind(info, f)
  {
    if Adopter(info, f) && f.id !in info.prompt && f.rest.Node? then
      var last := Not(Sym(info.sym[f.id]));
      Inherited(f.rest.kids, last) + map[f.id := Sym(s), f.rest.id := last]
    else Inherited(f.kids, Sym(s)) + RelayGuards(info, s, f.rest) + map[f.id := Sym(s)]
  }

  /** The last pattern in f; everything else has no condition. */
  function PatternGuards(info: Info, f: Forest): Guards
    requires Relay(info, f)
  {
    if Relay(info, f.kids) then PatternGuards(info, f.kids)
    else if Relay(info, f.rest) then PatternGuards(info, f.rest)
    else RelayGuards(info, info.sym[f.id], f.rest) + map[f.id := OFF]
  }

  /** Conditions with these guards. */
  function ConditionsOf(info: Info, g: Guards): Conditions {
    Conditions(g, map x | x in info.prompt :: seq(info.prompt[x] + 1, (i: nat) => Lookup(g, x)))
  }

  lemma GuardsOf(info: Info, g: Guards, x: Id)
    ensures Guard(info, ConditionsOf(info, g), x) == Lookup(g, x)
  {
    if x in info.prompt {
      var v := ConditionsOf(info, g).visible[x];
      assert v[info.prompt[x]] == Lookup(g, x);
    }
  }

  /** No symbol is set. */
  function AllUnset(): Env { Env((x: Symbol) => NO, (x: Symbol) => "", false) }

  /** The guards that occur. */
  predicate PlainGuard(e: Expr) {
    e == OFF || (e.Sym? && IsLogical(e.sym)) || (e.Not? && e.arg.Sym? && IsLogical(e.arg.sym))
  }

  ghost predicate Plain(g: Guards) { forall x :: x in g ==> PlainGuard(g[x]) }

  lemma PlainUnion(a: Guards, b: Guards)
    requires Plain(a) && Plain(b)
    ensures Plain(a + b) && (a + b).Keys == a.Keys + b.Keys
  {
  }

  lemma {:induction false} InheritedPlain(f: Forest, e: Expr)
    ensures Inherited(f, e).Keys == Ids(f) && forall x :: x in Inherited(f, e) ==> Inherited(f, e)[x] == e
  {
    if f.Node? {
      InheritedPlain(f.kids, e);
      InheritedPlain(f.rest, e);
      var both := Inherited(f.kids, e) + Inherited(f.rest, e);
      assert both.Keys == Ids(f.kids) + Ids(f.rest);
    }
  }

  ghost predicate Logical(info: Info) { forall x :: x in info.sym ==> IsLogical(info.sym[x]) }

  lemma {:induction false} RelayGuardsPlain(info: Info, s: Symbol, f: Forest)
    requires RelayBehind(info, f) && IsLogical(s) && Logical(info)
    ensures Plain(RelayGuards(info, s, f)) && RelayGuards(info, s, f).Keys <= Ids(f)
  {
    if Adopter(info, f) && f.id !in info.prompt && f.rest.Node? {
      var last := Not(Sym(info.sym[f.id]));
      InheritedPlain(f.rest.kids, last);
      PlainUnion(Inherited(f.rest.kids, last), map[f.id := Sym(s), f.rest.id := last]);
    } else {
      InheritedPlain(f.kids, Sym(s));
      RelayGuardsPlain(info, s, f.rest);
      PlainUnion(Inherited(f.kids, Sym(s)), RelayGuards(info, s, f.rest));
      PlainUnion(Inherited(f.kids, Sym(s)) + RelayGuards(info, s, f.rest), map[f.id := Sym(s)]);
    }
  }

  lemma {:induction false} PatternGuardsPlain(info: Info, f: Forest)
    requires Relay(info, f) && Logical(info)
    ensures Plain(PatternGuards(info, f)) && PatternGuards(info, f).Keys <= Ids(f)
  {
    if Relay(info, f.kids) { PatternGuardsPlain(info, f.kids); }
    else if Relay(info, f.rest) { PatternGuardsPlain(info, f.rest); }
    else { RelayGuardsPlain(info, info.sym[f.id], f.rest); }
  }

  lemma PlainFits(info: Info, g: Guards)
    requires Plain(g) && Logical(info)
    ensures Fit(info, ConditionsOf(info, g), AllUnset())
    ensures forall x: Id :: On(info, ConditionsOf(info, g), AllUnset(), x) <==> !(x in g) || g[x].Not?
  {
    forall x: Id
      ensures TypedOpt(Guard(info, ConditionsOf(info, g), x))
      ensures Guard(info, ConditionsOf(info, g), x).Some? ==> NotsDefinite(AllUnset(), Guard(info, ConditionsOf(info, g), x).value)
      ensures On(info, ConditionsOf(info, g), AllUnset(), x) <==> !(x in g) || g[x].Not?
    {
      GuardsOf(info, g, x);
      LiteralValues(AllUnset());
    }
  }

  /** Under c the entries of f have the guards g. */
  ghost predicate Guarded(info: Info, c: Conditions, g: Guards, f: Forest) {
    forall x :: x in Ids(f) ==> Guard(info, c, x) == Lookup(g, x)
  }

  lemma ValuesUnset(s: Symbol)
    requires IsLogical(s)
    ensures Val(AllUnset(), Sym(s)) == NO && Val(AllUnset(), Not(Sym(s))) == YES && Val(AllUnset(), OFF) == NO
  {
    LiteralValues(AllUnset());
    assert Val(AllUnset(), Sym(s)) == NO;
  }

  // ---------------------------------------------------------------- the guards come from conditions that were written

  /** The guards of the parts of f. */
  lemma RelayParts(info: Info, c: Conditions, s: Symbol, f: Forest)
    requires RelayBehind(info, f) && Distinct(f) && Guarded(info, c, RelayGuards(info, s, f), f)
    requires IsLogical(s) && Logical(info)
    ensures Guard(info, c, f.id) == Some(Sym(s))
    ensures if Adopter(info, f) && f.id !in info.prompt && f.rest.Node?
            then Guard(info, c, f.rest.id) == Some(Not(Sym(info.sym[f.id])))
            else Guarded(info, c, RelayGuards(info, s, f.rest), f.rest)
  {
    assert f.id in Ids(f);
    if Adopter(info, f) && f.id !in info.prompt && f.rest.Node? {
      assert f.rest.id in Ids(f);
    } else {
      InheritedPlain(f.kids, Sym(s));
      RelayGuardsPlain(info, s, f.rest);
      var g := RelayGuards(info, s, f.rest);
      forall x | x in Ids(f.rest) ensures Guard(info, c, x) == Lookup(g, x) {
        assert x in Ids(f) && x != f.id && x !in Inherited(f.kids, Sym(s));
      }
    }
  }

  lemma PatternParts(info: Info, c: Conditions, f: Forest)
    requires Relay(info, f) && Distinct(f) && Guarded(info, c, PatternGuards(info, f), f) && Logical(info)
    ensures if Relay(info, f.kids) then
              && Guard(info, c, f.id) == None
              && Guarded(info, c, PatternGuards(info, f.kids), f.kids) && Guarded(info, c, map[], f.rest)
            else if Relay(info, f.rest) then
              && Guard(info, c, f.id) == None
              && Guarded(info, c, map[], f.kids) && Guarded(info, c, PatternGuards(info, f.rest), f.rest)
            else
              Guard(info, c, f.id) == Some(OFF) && Guarded(info, c, RelayGuards(info, info.sym[f.id], f.rest), f.rest)
  {
    assert f.id in Ids(f);
    if Relay(info, f.kids) { PatternGuardsPlain(info, f.kids); }
    else if Relay(info, f.rest) { PatternGuardsPlain(info, f.rest); }
  }

  /** The conditions as they were written: each pattern entry its own, and nothing inside. */
  function RelayOwn(info: Info, s: Symbol, f: Forest): Guards
    requires RelayBehind(info, f)
  {
    if Adopter(info, f) && f.id !in info.prompt && f.rest.Node? then
      map[f.id := Sym(s), f.rest.id := Not(Sym(info.sym[f.id]))]
    else RelayOwn(info, s, f.rest) + map[f.id := Sym(s)]
  }

  function PatternOwn(info: Info, f: Forest): Guards
    requires Relay(info, f)
  {
    if Relay(info, f.kids) then PatternOwn(info, f.kids)
    else if Relay(info, f.rest) then PatternOwn(info, f.rest)
    else RelayOwn(info, info.sym[f.id], f.rest) + map[f.id := OFF]
  }

  function WrittenConditions(info: Info, own: Guards): Conditions {
    Conditions(own, map x | x in info.prompt :: seq(info.prompt[x] + 1, (i: nat) => None))
  }

  /** The guards of f are those of the menu above, or the entries' own ones where that has none. */
  ghost predicate Consistent(g: Guards, own: Guards, above: Option<Expr>, f: Forest)
    decreases f
  {
    f.Node? ==>
      && (if above.None? then Lookup(own, f.id) == Lookup(g, f.id) else f.id !in own && Lookup(g, f.id) == above)
      && Consistent(g, own, Lookup(g, f.id), f.kids) && Consistent(g, own, above, f.rest)
  }

  /** A plain guard is handed down as it is. */
  lemma PlainHandedDown(e: Expr, symbol: Option<Symbol>)
    requires PlainGuard(e)
    ensures HandDown(None, Some(e)) == Some(e) && HandDown(Some(e), None) == Some(e)
    ensures HandDownPrompt(Some(e), None, symbol) == Some(e)
  {
    assert !e.Bin? && Dups1(e) == (e, 0) && Dups2(e) == (e, 0);
    if e.Not? { assert Transform(e.arg) == e.arg && TransBool(e.arg) == e.arg; }
    assert Transform(e) == e && EliminateDups(e) == e && TransBool(e) == e;
  }

  lemma {:induction false} ConsistentHandedDown(info: Info, g: Guards, own: Guards, p: Id, f: Forest)
    requires Plain(g) && Consistent(g, own, Lookup(g, p), f)
    ensures HandedDown(info, WrittenConditions(info, own), ConditionsOf(info, g), p, f)
    decreases f
  {
    if f.Node? {
      EntryHandedDown(info, g, own, p, f.id);
      ConsistentHandedDown(info, g, own, f.id, f.kids);
      ConsistentHandedDown(info, g, own, p, f.rest);
    }
  }

  lemma EntryHandedDown(info: Info, g: Guards, own: Guards, p: Id, k: Id)
    requires Plain(g)
    requires if p !in g then Lookup(own, k) == Lookup(g, k) else k !in own && Lookup(g, k) == Lookup(g, p)
    ensures HandedEntry(info, WrittenConditions(info, own), ConditionsOf(info, g), p, k)
  {
    var c, d := WrittenConditions(info, own), ConditionsOf(info, g);
    GuardsOf(info, g, p);
    if k in g { PlainHandedDown(g[k], Lookup(info.sym, k)); }
    assert Lookup(d.dep, k) == HandDown(Lookup(g, p), Lookup(own, k));
    if k in info.prompt {
      var n := info.prompt[k] + 1;
      assert PartlyHanded(Lookup(g, k), c.visible[k], Lookup(info.sym, k), n) == d.visible[k];
    }
  }

  /** Guards outside f do not matter. */
  lemma {:induction false} ConsistentFrame(g: Guards, g': Guards, own: Guards, own': Guards, above: Option<Expr>, f: Forest)
    requires Consistent(g, own, above, f)
    requires forall x :: x in Ids(f) ==> Lookup(g, x) == Lookup(g', x) && Lookup(own, x) == Lookup(own', x)
    ensures Consistent(g', own', above, f)
    decreases f
  {
    if f.Node? {
      assert f.id in Ids(f);
      ConsistentFrame(g, g', own, own', Lookup(g, f.id), f.kids);
      ConsistentFrame(g, g', own, own', above, f.rest);
    }
  }

  lemma {:induction false} ConsistentInherited(g: Guards, own: Guards, e: Expr, f: Forest)
    requires forall x :: x in Ids(f) ==> x in g && g[x] == e && x !in own
    ensures Consistent(g, own, Some(e), f)
  {
    if f.Node? {
      assert f.id in Ids(f);
      ConsistentInherited(g, own, e, f.kids);
      ConsistentInherited(g, own, e, f.rest);
    }
  }

  lemma {:induction false} ConsistentFree(g: Guards, own: Guards, f: Forest)
    requires forall x :: x in Ids(f) ==> x !in g && x !in own
    ensures Consistent(g, own, None, f)
  {
    if f.Node? {
      assert f.id in Ids(f);
      ConsistentFree(g, own, f.kids);
      ConsistentFree(g, own, f.rest);
    }
  }

  lemma {:induction false} RelayConsistent(info: Info, s: Symbol, f: Forest)
    requires RelayBehind(info, f) && Distinct(f) && IsLogical(s) && Logical(info)
    ensures Consistent(RelayGuards(info, s, f), RelayOwn(info, s, f), None, f) && RelayOwn(info, s, f).Keys <= Ids(f)
  {
    var g, own := RelayGuards(info, s, f), RelayOwn(info, s, f);
    if Adopter(info, f) && f.id !in info.prompt && f.rest.Node? {
      var last := Not(Sym(info.sym[f.id]));
      InheritedPlain(f.rest.kids, last);
      ConsistentInherited(g, own, last, f.rest.kids);
      ConsistentFree(g, own, f.rest.rest);
    } else {
      InheritedPlain(f.kids, Sym(s));
      RelayGuardsPlain(info, s, f.rest);
      RelayConsistent(info, s, f.rest);
      ConsistentFrame(RelayGuards(info, s, f.rest), g, RelayOwn(info, s, f.rest), own, None, f.rest);
      forall x | x in Ids(f.kids) ensures x in g && g[x] == Sym(s) && x !in own {
        assert Inherited(f.kids, Sym(s))[x] == Sym(s);
      }
      ConsistentInherited(g, own, Sym(s), f.kids);
    }
  }

  lemma {:induction false} PatternConsistent(info: Info, f: Forest)
    requires Relay(info, f) && Distinct(f) && Logical(info)
    ensures Consistent(PatternGuards(info, f), PatternOwn(info, f), None, f) && PatternOwn(info, f).Keys <= Ids(f)
  {
    var g, own := PatternGuards(info, f), PatternOwn(info, f);
    if Relay(info, f.kids) {
      PatternConsistent(info, f.kids);
      PatternGuardsPlain(info, f.kids);
      ConsistentFree(g, own, f.rest);
    } else if Relay(info, f.rest) {
      PatternConsistent(info, f.rest);
      PatternGuardsPlain(info, f.rest);
      ConsistentFree(g, own, f.kids);
    } else {
      RelayConsistent(info, info.sym[f.id], f.rest);
      RelayGuardsPlain(info, info.sym[f.id], f.rest);
      ConsistentFrame(RelayGuards(info, info.sym[f.id], f.rest), g, RelayOwn(info, info.sym[f.id], f.rest), own, None, f.rest);
    }
  }

  // ---------------------------------------------------------------- and break the ownership

  /** Some entry of the list f is not ruled out. */
  ghost predicate AnyOn(info: Info, c: Conditions, f: Forest) {
    exists x :: x in Tops(f) && On(info, c, AllUnset(), x)
  }

  /** Some entry with a prompt is not enabled but owns one that is not ruled out. */
  ghost predicate Broken(info: Info, c: Conditions, f: Forest) {
    f.Node? && (
    || (f.id in info.prompt && !Enabled(info, c, AllUnset(), f.id) && AnyOn(info, c, f.kids))
    || Broken(info, c, f.kids) || Broken(info, c, f.rest))
  }

  lemma {:induction false} OwnedTops(info: Info, c: Conditions, on: bool, f: Forest)
    requires Owned(info, c, AllUnset(), on, f) && AnyOn(info, c, f)
    ensures on
  {
    if f.Node? && !On(info, c, AllUnset(), f.id) {
      var x :| x in Tops(f) && On(info, c, AllUnset(), x);
      assert x in Tops(f.rest);
      OwnedTops(info, c, on, f.rest);
    }
  }

  lemma {:induction false} BrokenNotOwned(info: Info, c: Conditions, on: bool, f: Forest)
    requires Broken(info, c, f)
    ensures !Owned(info, c, AllUnset(), on, f)
    decreases f
  {
    if Owned(info, c, AllUnset(), on, f) {
      if Broken(info, c, f.kids) { BrokenNotOwned(info, c, Enabled(info, c, AllUnset(), f.id), f.kids); }
      else if Broken(info, c, f.rest) { BrokenNotOwned(info, c, on, f.rest); }
      else { OwnedTops(info, c, Enabled(info, c, AllUnset(), f.id), f.kids); }
    }
  }

  lemma {:induction false} BrokenAppend(info: Info, c: Conditions, f: Forest, g: Forest)
    ensures Broken(info, c, f) || Broken(info, c, g) ==> Broken(info, c, Append(f, g))
  {
    if f.Node? { BrokenAppend(info, c, f.rest, g); }
  }

  lemma {:induction false} BrokenFlattened(info: Info, c: Conditions, f: Forest)
    requires Broken(info, c, f)
    ensures Broken(info, c, Flattened(info, f))
    decreases Count(f)
  {
    if f.kids.Node? && f.id !in info.prompt {
      AppendFacts(f.kids, f.rest);
      BrokenAppend(info, c, f.kids, f.rest);
      BrokenFlattened(info, c, Append(f.kids, f.rest));
    } else if Broken(info, c, f.rest) {
      BrokenFlattened(info, c, f.rest);
    }
  }

  lemma {:induction false} FlattenedTops(info: Info, f: Forest)
    ensures Tops(f) <= Tops(Flattened(info, f))
    ensures f.Node? && f.id !in info.prompt ==> Tops(f.kids) <= Tops(Flattened(info, f))
    decreases Count(f)
  {
    if f.Node? {
      if f.kids.Node? && f.id !in info.prompt {
        AppendFacts(f.kids, f.rest);
        FlattenedTops(info, Append(f.kids, f.rest));
      } else {
        FlattenedTops(info, f.rest);
      }
    }
  }

  /** An entry without a guard, or ruled out from the start, is not taken. */
  lemma NotTaken(info: Info, c: Conditions, m: Id, f: Forest)
    requires Logical(info) && (f.Node? ==> Guard(info, c, f.id) == None || Guard(info, c, f.id) == Some(OFF))
    ensures m in info.sym ==> FinalizedTaken(info, c, m, f) == (Nil, f)
    ensures Finalized(info, c, m, Nil, f) == (Nil, f)
  {
  }

  /** An entry that needs a symbol unset is taken by an entry of that symbol without a prompt. */
  lemma TakesNegation(info: Info, c: Conditions, m: Id, k: Id)
    requires Logical(info) && m in info.sym && m !in info.prompt && Guard(info, c, k) == Some(Not(Sym(info.sym[m])))
    ensures Takes(info, c, m, k)
  {
    var s := info.sym[m];
    var dep := Not(Sym(s));
    assert TransCompare(dep, false, SYMBOL_NO) == Cmp(true, s, SYMBOL_NO);
    assert !NotNo(Some(dep)).Bin?;
    assert NotNo(None) == YES_EXPR;
    assert EliminateEq(NotNo(Some(dep)), YES_EXPR).1 == YES_EXPR;
  }

  /** The entry m in front of f takes everything up to the pattern, and ends up with the last entry of it. */
  lemma {:induction false} RelayTaken(info: Info, c: Conditions, m: Id, f: Forest)
    requires RelayBehind(info, f) && !Relay(info, f) && Distinct(f) && Logical(info) && m in info.sym
    requires Guarded(info, c, RelayGuards(info, info.sym[m], f), f)
    ensures AnyOn(info, c, Flattened(info, FinalizedTaken(info, c, m, f).0))
    decreases f
  {
    var s := info.sym[m];
    RelayParts(info, c, s, f);
    assert Takes(info, c, m, f.id);
    var (k, left) := Finalized(info, c, f.id, f.kids, f.rest);
    var taken := FinalizedTaken(info, c, m, f).0;
    FlattenedTops(info, taken);
    if Adopter(info, f) && f.id !in info.prompt && f.rest.Node? {
      LastTaken(info, c, f);
      assert f.rest.id in Tops(k) && taken.kids == k && taken.id == f.id;
      ValuesUnset(info.sym[f.id]);
      assert On(info, c, AllUnset(), f.rest.id);
    } else {
      assert !Adopter(info, f) && left == f.rest;
      RelayTaken(info, c, m, f.rest);
      FlattenedKeeps(info, c, f.id, k, FinalizedTaken(info, c, m, left).0);
    }
  }

  /** The entry without a prompt takes the next one. */
  lemma LastTaken(info: Info, c: Conditions, f: Forest)
    requires Adopter(info, f) && f.id !in info.prompt && f.rest.Node? && Logical(info)
    requires Guard(info, c, f.rest.id) == Some(Not(Sym(info.sym[f.id])))
    ensures f.rest.id in Tops(Finalized(info, c, f.id, f.kids, f.rest).0)
  {
    TakesNegation(info, c, f.id, f.rest.id);
    FlattenedTops(info, FinalizedTaken(info, c, f.id, f.rest).0);
  }

  /** Flattening one more entry in front keeps what the rest of the list shows. */
  lemma FlattenedKeeps(info: Info, c: Conditions, x: Id, kids: Forest, rest: Forest)
    requires AnyOn(info, c, Flattened(info, rest))
    ensures AnyOn(info, c, Flattened(info, Node(x, kids, rest)))
  {
    if kids.Node? && x !in info.prompt {
      FlattenedSuffix(info, kids, rest);
    }
    var y :| y in Tops(Flattened(info, rest)) && On(info, c, AllUnset(), y);
    assert y in Tops(Flattened(info, Node(x, kids, rest)));
  }

  lemma {:induction false} FlattenedSuffix(info: Info, f: Forest, g: Forest)
    ensures Tops(Flattened(info, g)) <= Tops(Flattened(info, Append(f, g)))
    decreases Count(f)
  {
    if f.Node? {
      if f.kids.Node? && f.id !in info.prompt {
        AppendFacts(f.kids, f.rest);
        AppendAssociative(f.kids, f.rest, g);
        FlattenedSuffix(info, Append(f.kids, f.rest), g);
      } else {
        FlattenedSuffix(info, f.rest, g);
      }
    }
  }

  /** The first guard of a list with the pattern lets nothing be taken. */
  lemma {:induction false} PatternBroken(info: Info, c: Conditions, f: Forest)
    requires Relay(info, f) && Distinct(f) && Guarded(info, c, PatternGuards(info, f), f) && Logical(info)
    ensures Guard(info, c, f.id) == None || Guard(info, c, f.id) == Some(OFF)
    ensures Broken(info, c, FinalizedList(info, c, f))
    decreases f
  {
    PatternParts(info, c, f);
    if Relay(info, f.kids) {
      PatternBroken(info, c, f.kids);
      BrokenFlattened(info, c, FinalizedList(info, c, f.kids));
    } else if Relay(info, f.rest) {
      PatternBroken(info, c, f.rest);
      NotTaken(info, c, f.id, f.rest);
    } else {
      RelayTaken(info, c, f.id, f.rest);
      ValuesUnset(info.sym[f.id]);
    }
  }

  // ---------------------------------------------------------------- exactly

  /** In the finished tree every entry that is not ruled out has an enabled owner, whatever conditions
      were written and whatever the values are, exactly if no list has the pattern. */
  lemma OwnersNeedNoRelay(info: Info, root: Id, kids: Forest)
    requires Distinct(Node(root, kids, Nil)) && kids.Node? && root !in info.sym && Logical(info)
    ensures !Relay(info, kids) <==>
            forall c: Conditions, d: Conditions, env: Env ::
              Shaped(info, c) && HandedDown(info, c, d, root, kids) && Normal(Guard(info, d, root)) && Fit(info, d, env) ==>
                Owned(info, d, env, On(info, d, env, root), Finalized(info, d, root, kids, Nil).0)
  {
    if !Relay(info, kids) {
      forall c: Conditions, d: Conditions, env: Env |
        Shaped(info, c) && HandedDown(info, c, d, root, kids) && Normal(Guard(info, d, root)) && Fit(info, d, env)
        ensures Owned(info, d, env, On(info, d, env, root), Finalized(info, d, root, kids, Nil).0)
      {
        FinishedOwners(info, c, d, env, root, kids);
      }
    } else {
      RelayBreaks(info, root, kids);
      assert HandedDown(info, WrittenConditions(info, PatternOwn(info, kids)), ConditionsOf(info, PatternGuards(info, kids)), root, kids);
    }
  }

  lemma FinishedOwners(info: Info, c: Conditions, d: Conditions, env: Env, root: Id, kids: Forest)
    requires Shaped(info, c) && HandedDown(info, c, d, root, kids) && Normal(Guard(info, d, root)) && Fit(info, d, env)
    requires kids.Node? && !Relay(info, kids)
    ensures Owned(info, d, env, On(info, d, env, root), Finalized(info, d, root, kids, Nil).0)
  {
    var on := On(info, d, env, root);
    HandedDownImplies(info, c, d, env, root, kids);
    NoRelayList(info, d, kids);
    OwnersList(info, d, env, on, kids);
    FlattenedOwned(info, d, env, on, FinalizedList(info, d, kids));
  }

  /** The conditions that show it when there is the pattern. */
  lemma RelayBreaks(info: Info, root: Id, kids: Forest)
    requires Relay(info, kids) && Distinct(Node(root, kids, Nil)) && Logical(info)
    ensures var c, d := WrittenConditions(info, PatternOwn(info, kids)), ConditionsOf(info, PatternGuards(info, kids));
            && Shaped(info, c) && HandedDown(info, c, d, root, kids) && Guard(info, d, root) == None && Fit(info, d, AllUnset())
            && !Owned(info, d, AllUnset(), On(info, d, AllUnset(), root), Finalized(info, d, root, kids, Nil).0)
  {
    var g := PatternGuards(info, kids);
    var d := ConditionsOf(info, g);
    PatternGuardsPlain(info, kids);
    PlainFits(info, g);
    forall x: Id ensures Guard(info, d, x) == Lookup(g, x) { GuardsOf(info, g, x); }
    assert root !in g;
    PatternConsistent(info, kids);
    ConsistentHandedDown(info, g, PatternOwn(info, kids), root, kids);
    PatternBroken(info, d, kids);
    BrokenFlattened(info, d, FinalizedList(info, d, kids));
    BrokenNotOwned(info, d, On(info, d, AllUnset(), root), Finalized(info, d, root, kids, Nil).0);
  }

  /** The pattern takes three entries. */
  lemma {:induction false} RelayNeedsThree(info: Info, f: Forest)
    ensures RelayBehind(info, f) ==> Count(f) >= 2
    ensures Relay(info, f) ==> Count(f) >= 3
  {
    if f.Node? { RelayNeedsThree(info, f.kids); RelayNeedsThree(info, f.rest); }
  }

  function Three(a: Id, b: Id, c: Id): Forest { Node(a, Nil, Node(b, Nil, Node(c, Nil, Nil))) }

  /** What becomes of three entries when the first can take the second, and the second the third. */
  lemma ThreeFinalized(info: Info, d: Conditions, root: Id, a: Id, b: Id, c: Id)
    requires a in info.sym && a in info.prompt && b in info.sym && b !in info.prompt
    requires Takes(info, d, a, b) && Takes(info, d, b, c)
    ensures Finalized(info, d, root, Three(a, b, c), Nil).0 == Node(a, Node(b, Nil, Node(c, Nil, Nil)), Nil)
  {
    var last := Node(c, Nil, Nil);
    var rest := Node(b, Nil, last);
    assert Finalized(info, d, c, Nil, Nil) == (Nil, Nil);
    assert FinalizedTaken(info, d, b, last) == (last, Nil);
    assert Flattened(info, last) == last;
    assert Finalized(info, d, b, Nil, last) == (last, Nil);
    assert FinalizedTaken(info, d, a, rest) == (Node(b, last, Nil), Nil);
    assert Append(last, Nil) == last && Flattened(info, Node(b, last, Nil)) == rest;
    assert Finalized(info, d, a, Nil, rest) == (rest, Nil);
    assert FinalizedList(info, d, Node(a, Nil, rest)) == Node(a, rest, Nil);
  }

  /** Three entries in a list have the pattern if the first has a prompt and the second has not. */
  lemma ThreeRelay(info: Info, a: Id, b: Id, c: Id)
    requires a in info.sym && a in info.prompt && b in info.sym && b !in info.prompt && a != b && b != c && a != c
    ensures var f := Three(a, b, c);
            var own := map[a := OFF, b := Sym(info.sym[a]), c := Not(Sym(info.sym[b]))];
            && Relay(info, f) && Distinct(f) && Ids(f) == {a, b, c} && Count(f) == 3
            && PatternOwn(info, f) == own && PatternGuards(info, f) == own
  {
    var last := Node(c, Nil, Nil);
    var rest := Node(b, Nil, last);
    assert Ids(last) == {c} && Ids(rest) == {b, c};
    assert Count(last) == 1 && Count(rest) == 2;
    assert RelayBehind(info, rest) && !Relay(info, last);
    assert !Relay(info, rest) && !Relay(info, Nil);
  }

  /** A smallest such menu: A has a prompt with the condition n, B has no prompt and depends on A, C needs
      B to be unset.  With nothing set, C is not ruled out, but it ends up below A, which is off. */
  lemma SmallestRelay(info: Info, root: Id, a: Id, b: Id, c: Id)
    requires Logical(info) && a in info.sym && a in info.prompt && b in info.sym && b !in info.prompt
    requires a != b && b != c && a != c && root !in {a, b, c}
    ensures var f := Three(a, b, c);
            Relay(info, f) && Count(f) == 3 && (forall g :: Relay(info, g) ==> Count(g) >= 3) &&
            var own := map[a := OFF, b := Sym(info.sym[a]), c := Not(Sym(info.sym[b]))];
            var d := ConditionsOf(info, own);
            && HandedDown(info, WrittenConditions(info, own), d, root, f)
            && Finalized(info, d, root, f, Nil).0 == Node(a, Node(b, Nil, Node(c, Nil, Nil)), Nil)
            && On(info, d, AllUnset(), c) && !Enabled(info, d, AllUnset(), a)
            && !Owned(info, d, AllUnset(), On(info, d, AllUnset(), root), Finalized(info, d, root, f, Nil).0)
  {
    var f := Three(a, b, c);
    ThreeRelay(info, a, b, c);
    forall g ensures Relay(info, g) ==> Count(g) >= 3 { RelayNeedsThree(info, g); }
    RelayBreaks(info, root, f);
    var own := PatternGuards(info, f);
    var d := ConditionsOf(info, own);
    forall x: Id ensures Guard(info, d, x) == Lookup(own, x) { GuardsOf(info, own, x); }
    TakesNegation(info, d, b, c);
    assert Takes(info, d, a, b);
    ThreeFinalized(info, d, root, a, b, c);
    ValuesUnset(info.sym[a]);
    ValuesUnset(info.sym[b]);
  }
}
