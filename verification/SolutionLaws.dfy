/** What the solutions of the graph that the menus leave give each symbol, in terms of the entries: from the
    conditions of its prompts, the demands of the entries that select it, and its defaults and ranges in the
    order of the text. */
module SolutionLaws {
  import opened Expressions
  import opened Comparing
  import opened MenuForest
  import opened MenuDependencies
  import opened MenuTree
  import opened MenuCollect
  import opened MenuGraph
  import opened SymbolGraph
  import opened Evaluation
  import opened EvaluationMeaning
  import opened VisibilityRewrite

  // ---------------------------------------------------------------- properties and entries

  lemma {:induction false} PropertiesAppend(info: Info, c: Conditions, a: seq<Id>, b: seq<Id>, s: Symbol)
    ensures SymbolProperties(info, c, a + b, s) == SymbolProperties(info, c, a, s) + SymbolProperties(info, c, b, s)
  {
    if a == [] {
      assert a + b == b;
    } else {
      assert (a + b)[1..] == a[1..] + b;
      PropertiesAppend(info, c, a[1..], b, s);
    }
  }

  /** Property i of entry k is about s. */
  predicate IsAt(info: Info, c: Conditions, entries: seq<Id>, s: Symbol, k: Id, i: nat) {
    k in entries && k in info.sym && info.sym[k] == s && i < PropertyCount(c, k)
  }

  /** The properties of a symbol are those of its entries. */
  lemma {:induction false} PropertiesAre(info: Info, c: Conditions, entries: seq<Id>, s: Symbol)
    ensures forall p :: p in SymbolProperties(info, c, entries, s) <==>
              exists k, i: nat :: IsAt(info, c, entries, s, k, i) && p == PropertyOf(KindAt(info, k, i), ConditionAt(c, k, i))
  {
    if entries != [] {
      var rest := entries[1..];
      PropertiesAre(info, c, rest, s);
      assert forall k :: k in entries <==> k == entries[0] || k in rest;
      forall p
        ensures p in SymbolProperties(info, c, entries, s) <==>
                exists k, i: nat :: IsAt(info, c, entries, s, k, i) && p == PropertyOf(KindAt(info, k, i), ConditionAt(c, k, i))
      {
        if k, i: nat :| IsAt(info, c, entries, s, k, i) && p == PropertyOf(KindAt(info, k, i), ConditionAt(c, k, i)) {
          if k == entries[0] {
            assert EntryProperties(info, c, k)[i] == p;
          } else {
            assert IsAt(info, c, rest, s, k, i);
          }
        }
        if p in SymbolProperties(info, c, rest, s) {
          var k, i: nat :| IsAt(info, c, rest, s, k, i) && p == PropertyOf(KindAt(info, k, i), ConditionAt(c, k, i));
          assert IsAt(info, c, entries, s, k, i);
        } else if p in SymbolProperties(info, c, entries, s) {
          var i: nat :| i < PropertyCount(c, entries[0]) && EntryProperties(info, c, entries[0])[i] == p;
          assert IsAt(info, c, entries, s, entries[0], i);
        }
      }
    }
  }

  ghost predicate OnlyDefaults(l: Listing) { forall s, p :: s in l.extra && p in l.extra[s] ==> p.Default? }

  /** A solution of the graph that the menus leave. */
  ghost predicate SolvesMenus(info: Info, c: Conditions, l: Listing, users: Users, t: Table) {
    Solves(GraphFrom(info, c, l), users, t) && OnlyDefaults(l)
  }

  function EnvIn(l: Listing, t: Table): Env { Env((s: Symbol) => ValueIn(t, s), (s: Symbol) => TextIn(t, s), l.modules) }

  // ---------------------------------------------------------------- select bounds

  /** A boolean, and without modules every tristate, is y where it would be m. */
  predicate TakesModForYes(l: Listing, s: Symbol) { IsBoolean(s) || (IsTristate(s) && !l.modules) }

  /** Whatever an entry that selects s demands, s has; booleans are no exception. */
  lemma SelectedAtLeast(info: Info, c: Conditions, l: Listing, users: Users, t: Table, s: Symbol, k: Id, i: nat)
    requires SolvesMenus(info, c, l, users, t) && s in l.table && IsLogical(s)
    requires k in l.handed && i < PropertyCount(c, k) && SelectsAt(info, k, i, s)
    ensures Demand(EnvIn(l, t), info, c, k, i) <= t[s].value
  {
    BoundIsDemand(info, c, l, users, t, s);
    SolutionBounds(GraphFrom(info, c, l), users, t, s);
  }

  /** The select bound of a symbol is its highest demand, and n if nothing demands anything. */
  lemma BoundIsDemand(info: Info, c: Conditions, l: Listing, users: Users, t: Table, s: Symbol)
    requires SolvesMenus(info, c, l, users, t) && s in l.table && IsTyped(s)
    ensures forall k, i: nat :: k in l.handed && i < PropertyCount(c, k) && SelectsAt(info, k, i, s) ==>
              Demand(EnvIn(l, t), info, c, k, i) <= t[s].bound
    ensures t[s].bound == NO || exists k, i: nat ::
              && k in l.handed && i < PropertyCount(c, k) && SelectsAt(info, k, i, s)
              && t[s].bound == RaiseMod(TakesModForYes(l, s), Demand(EnvIn(l, t), info, c, k, i))
  {
    var g := GraphFrom(info, c, l);
    assert EnvOf(g, t) == EnvIn(l, t);
    SolutionBounded(g, users, t, s);
    HighestSelect(EnvIn(l, t), info, c, l.handed, s);
    var v := BoundValue(EnvIn(l, t), SelectsFrom(info, c, l.handed, s));
    assert t[s].bound == RaiseMod(TakesModForYes(l, s), v);
  }

  /** Without a user value, a default and a demand a symbol is n. */
  lemma NothingGivesNo(info: Info, c: Conditions, l: Listing, users: Users, t: Table, s: Symbol)
    requires SolvesMenus(info, c, l, users, t) && s in l.table && IsLogical(s) && s !in users.tri && s !in l.extra
    requires forall k, i: nat :: IsAt(info, c, l.entries, s, k, i) && KindAt(info, k, i).Value? ==> ValOpt(EnvIn(l, t), ConditionAt(c, k, i)) == NO
    requires forall k, i: nat :: k in l.handed && i < PropertyCount(c, k) && SelectsAt(info, k, i, s) ==>
               Demand(EnvIn(l, t), info, c, k, i) == NO
    ensures t[s].value == NO && t[s].bound == NO
  {
    var g := GraphFrom(info, c, l);
    assert EnvOf(g, t) == EnvIn(l, t);
    BoundIsDemand(info, c, l, users, t, s);
    PropertiesAre(info, c, l.entries, s);
    NoDefault(EnvIn(l, t), g.decls[s].props);
    SolutionBounds(g, users, t, s);
  }

  // ---------------------------------------------------------------- visibility

  /** The prompts of a symbol are those of its entries. */
  lemma PromptsAre(info: Info, c: Conditions, l: Listing, s: Symbol)
    requires OnlyDefaults(l) && s in l.table
    ensures forall e :: Prompt(e) in GraphFrom(info, c, l).decls[s].props <==>
              exists k, i: nat :: IsAt(info, c, l.entries, s, k, i) && KindAt(info, k, i).Title? && e == ConditionAt(c, k, i)
  {
    PropertiesAre(info, c, l.entries, s);
    var props, own := GraphFrom(info, c, l).decls[s].props, SymbolProperties(info, c, l.entries, s);
    forall e ensures Prompt(e) in props <==> Prompt(e) in own {
      assert s in l.extra ==> forall q :: q in l.extra[s] ==> q.Default?;
    }
  }

  /** The visibility of a symbol of any type is the highest condition of the prompts of its entries. */
  lemma VisibleByPrompts(info: Info, c: Conditions, l: Listing, users: Users, t: Table, s: Symbol)
    requires SolvesMenus(info, c, l, users, t) && s in l.table && IsTyped(s)
    ensures forall k, i: nat :: IsAt(info, c, l.entries, s, k, i) && KindAt(info, k, i).Title? ==>
              ValOpt(EnvIn(l, t), ConditionAt(c, k, i)) <= t[s].visible
    ensures t[s].visible == NO || exists k, i: nat ::
              && IsAt(info, c, l.entries, s, k, i) && KindAt(info, k, i).Title?
              && t[s].visible == RaiseMod(!IsTristate(s) || !l.modules, ValOpt(EnvIn(l, t), ConditionAt(c, k, i)))
  {
    var g, env := GraphFrom(info, c, l), EnvIn(l, t);
    assert EnvOf(g, t) == env;
    SolutionBounded(g, users, t, s);
    var props := g.decls[s].props;
    HighestPrompt(env, props);
    PromptsAre(info, c, l, s);
    forall k, i: nat | IsAt(info, c, l.entries, s, k, i) && KindAt(info, k, i).Title?
      ensures ValOpt(env, ConditionAt(c, k, i)) <= t[s].visible
    {
      assert Prompt(ConditionAt(c, k, i)) in props;
    }
    if t[s].visible != NO {
      var p :| p in props && p.Prompt? && ValOpt(env, p.condition) == PromptValue(env, props);
      assert Prompt(p.condition) in props;
    }
  }

  // ---------------------------------------------------------------- defaults and ranges in the order of the text

  predicate DefaultAt(env: Env, info: Info, c: Conditions, k: Id, i: nat) {
    KindAt(info, k, i).Value? && ValOpt(env, ConditionAt(c, k, i)) != NO
  }

  predicate RangeAt(env: Env, info: Info, c: Conditions, k: Id, i: nat) {
    KindAt(info, k, i).Ends? && ValOpt(env, ConditionAt(c, k, i)) != NO
  }

  /** Where property i of the entry k behind the entries `before` stands among those of the symbol. */
  lemma PropertyPosition(info: Info, c: Conditions, l: Listing, before: seq<Id>, k: Id, after: seq<Id>, i: nat, s: Symbol)
    requires s in l.table && l.entries == before + [k] + after && k in info.sym && info.sym[k] == s && i < PropertyCount(c, k)
    ensures var props, at := GraphFrom(info, c, l).decls[s].props, |SymbolProperties(info, c, before, s)| + i;
            && at < |props| && props[at] == PropertyOf(KindAt(info, k, i), ConditionAt(c, k, i))
            && props[..at] == SymbolProperties(info, c, before, s) + EntryProperties(info, c, k)[..i]
  {
    var a, b, own := SymbolProperties(info, c, before, s), SymbolProperties(info, c, after, s), EntryProperties(info, c, k);
    PropertiesAround(info, c, l, before, k, after, s);
    InTheMiddle(a, own, b + (if s in l.extra then l.extra[s] else []), i);
  }

  /** The properties of a symbol are those of one of its entries between those of the entries before and behind it. */
  lemma PropertiesAround(info: Info, c: Conditions, l: Listing, before: seq<Id>, k: Id, after: seq<Id>, s: Symbol)
    requires s in l.table && l.entries == before + [k] + after && k in info.sym && info.sym[k] == s
    ensures GraphFrom(info, c, l).decls[s].props ==
              SymbolProperties(info, c, before, s) + EntryProperties(info, c, k)
              + (SymbolProperties(info, c, after, s) + (if s in l.extra then l.extra[s] else []))
  {
    var a, b, own := SymbolProperties(info, c, before, s), SymbolProperties(info, c, after, s), EntryProperties(info, c, k);
    calc {
      SymbolProperties(info, c, l.entries, s);
      { PropertiesAppend(info, c, before + [k], after, s); }
      SymbolProperties(info, c, before + [k], s) + b;
      { PropertiesAppend(info, c, before, [k], s); OneEntry(info, c, k, s); }
      a + own + b;
    }
    Regrouped(a + own, b, if s in l.extra then l.extra[s] else []);
  }

  lemma OneEntry(info: Info, c: Conditions, k: Id, s: Symbol)
    requires k in info.sym && info.sym[k] == s
    ensures SymbolProperties(info, c, [k], s) == EntryProperties(info, c, k)
  {
    assert [k][1..] == [];
  }

  lemma Regrouped(a: seq<Property>, b: seq<Property>, c: seq<Property>)
    ensures a + b + c == a + (b + c)
  {
  }

  lemma InTheMiddle(a: seq<Property>, own: seq<Property>, b: seq<Property>, i: nat)
    requires i < |own|
    ensures var props := a + own + b; |a| + i < |props| && props[|a| + i] == own[i] && props[..|a| + i] == a + own[..i]
  {
  }

  /** Property i of entry k is about s, and no property of s that stands earlier in the text is an active default. */
  ghost predicate IsFirstDefault(env: Env, info: Info, c: Conditions, before: seq<Id>, k: Id, i: nat, s: Symbol) {
    && k in info.sym && info.sym[k] == s && i < PropertyCount(c, k) && DefaultAt(env, info, c, k, i)
    && (forall j: nat :: j < i ==> !DefaultAt(env, info, c, k, j))
    && (forall x, j: nat :: IsAt(info, c, before, s, x, j) ==> !DefaultAt(env, info, c, x, j))
  }

  /** The same for ranges. */
  ghost predicate IsFirstRange(env: Env, info: Info, c: Conditions, before: seq<Id>, k: Id, i: nat, s: Symbol) {
    && k in info.sym && info.sym[k] == s && i < PropertyCount(c, k) && RangeAt(env, info, c, k, i)
    && (forall j: nat :: j < i ==> !RangeAt(env, info, c, k, j))
    && (forall x, j: nat :: IsAt(info, c, before, s, x, j) ==> !RangeAt(env, info, c, x, j))
  }

  /** The first active default in the order of the text counts. */
  lemma FirstDefaultOfEntries(info: Info, c: Conditions, l: Listing, env: Env, before: seq<Id>, k: Id, after: seq<Id>, i: nat, s: Symbol)
    requires s in l.table && l.entries == before + [k] + after
    requires IsFirstDefault(env, info, c, before, k, i, s)
    ensures var props, v := GraphFrom(info, c, l).decls[s].props, KindAt(info, k, i).value;
            && DefaultValue(env, props) == Some(Apply(And, Val(env, v), ValOpt(env, ConditionAt(c, k, i))))
            && DefaultText(env, props) == if v.Sym? then Some(CurrentText(env, v.sym)) else None
  {
    var props, at := GraphFrom(info, c, l).decls[s].props, |SymbolProperties(info, c, before, s)| + i;
    PropertyPosition(info, c, l, before, k, after, i, s);
    forall j | 0 <= j < at ensures !Active(env, props[j]) {
      var x, n := EarlierProperty(info, c, l, before, k, after, i, s, j);
      assert !DefaultAt(env, info, c, x, n);
    }
    FirstDefault(env, props, at);
    FirstText(env, props, at);
  }

  /** It is the value of a symbol that is invisible or has no user value, unless the select bound is higher. */
  lemma DefaultCounts(info: Info, c: Conditions, l: Listing, users: Users, t: Table, before: seq<Id>, k: Id, after: seq<Id>, i: nat, s: Symbol)
    requires SolvesMenus(info, c, l, users, t) && s in l.table && IsLogical(s) && l.entries == before + [k] + after
    requires IsFirstDefault(EnvIn(l, t), info, c, before, k, i, s)
    requires t[s].visible == NO || s !in users.tri
    ensures var default := Apply(And, Val(EnvIn(l, t), KindAt(info, k, i).value), ValOpt(EnvIn(l, t), ConditionAt(c, k, i)));
            t[s].write && t[s].value == RaiseMod(TakesModForYes(l, s), Apply(Or, default, t[s].bound))
  {
    assert EnvOf(GraphFrom(info, c, l), t) == EnvIn(l, t);
    FirstDefaultOfEntries(info, c, l, EnvIn(l, t), before, k, after, i, s);
    SolutionBounds(GraphFrom(info, c, l), users, t, s);
    NoDefault(EnvIn(l, t), GraphFrom(info, c, l).decls[s].props);
  }

  /** The text of the default of a number or string: that of its symbol, or its name if it is a constant; a boolean
      or tristate always lends n. */
  lemma TextOfDefault(env: Env, v: Symbol)
    ensures v.Const? ==> CurrentText(env, v) == v.name
    ensures HasText(v) ==> CurrentText(env, v) == env.str(v)
    ensures IsLogical(v) ==> CurrentText(env, v) == "n"
  {
  }

  /** The first active range in the order of the text counts. */
  lemma FirstRangeOfEntries(info: Info, c: Conditions, l: Listing, env: Env, before: seq<Id>, k: Id, after: seq<Id>, i: nat, s: Symbol)
    requires s in l.table && l.entries == before + [k] + after
    requires IsFirstRange(env, info, c, before, k, i, s)
    ensures ActiveRange(env, GraphFrom(info, c, l).decls[s].props) == Some((KindAt(info, k, i).low, KindAt(info, k, i).high))
  {
    var props, at := GraphFrom(info, c, l).decls[s].props, |SymbolProperties(info, c, before, s)| + i;
    PropertyPosition(info, c, l, before, k, after, i, s);
    forall j | 0 <= j < at ensures !ActiveEnds(env, props[j]) {
      var x, n := EarlierProperty(info, c, l, before, k, after, i, s, j);
      assert !RangeAt(env, info, c, x, n);
    }
    FirstRange(env, props, at);
  }

  /** A property in front of that position comes from an earlier entry or stands earlier in the same one. */
  lemma EarlierProperty(info: Info, c: Conditions, l: Listing, before: seq<Id>, k: Id, after: seq<Id>, i: nat, s: Symbol, j: nat)
    returns (x: Id, n: nat)
    requires s in l.table && l.entries == before + [k] + after && k in info.sym && info.sym[k] == s && i < PropertyCount(c, k)
    requires j < |SymbolProperties(info, c, before, s)| + i
    ensures j < |GraphFrom(info, c, l).decls[s].props|
    ensures GraphFrom(info, c, l).decls[s].props[j] == PropertyOf(KindAt(info, x, n), ConditionAt(c, x, n))
    ensures (x == k && n < i) || IsAt(info, c, before, s, x, n)
  {
    var props, own := GraphFrom(info, c, l).decls[s].props, SymbolProperties(info, c, before, s);
    PropertyPosition(info, c, l, before, k, after, i, s);
    assert props[j] == props[..|own| + i][j];
    if j < |own| {
      PropertiesAre(info, c, before, s);
      assert own[j] in own;
      x, n :| IsAt(info, c, before, s, x, n) && own[j] == PropertyOf(KindAt(info, x, n), ConditionAt(c, x, n));
    } else {
      x, n := k, j - |own|;
    }
  }

  // ---------------------------------------------------------------- direct dependencies

  /** Entry k is about s and has a dependency. */
  predicate HasDependency(info: Info, c: Conditions, order: seq<Id>, s: Symbol, k: Id) {
    k in order && k in info.sym && info.sym[k] == s && k in c.dep
  }

  /** The direct dependency is the highest of the entries that have one; those that have none do not count. */
  lemma {:induction false} HighestDirect(env: Env, info: Info, c: Conditions, order: seq<Id>, s: Symbol)
    ensures DirectFrom(info, c, order, s) == None <==> forall k :: !HasDependency(info, c, order, s, k)
    ensures var e := DirectFrom(info, c, order, s);
            e.Some? ==>
              && (forall k :: HasDependency(info, c, order, s, k) ==> Val(env, c.dep[k]) <= Val(env, e.value))
              && exists k :: HasDependency(info, c, order, s, k) && Val(env, c.dep[k]) == Val(env, e.value)
  {
    if order != [] {
      var n := |order| - 1;
      HighestDirect(env, info, c, order[..n], s);
      forall k ensures HasDependency(info, c, order, s, k) <==>
                       HasDependency(info, c, order[..n], s, k) || (k == order[n] && HasDependency(info, c, [k], s, k))
      {
        assert k in order <==> k in order[..n] || k == order[n];
      }
      assert HasDependency(info, c, [order[n]], s, order[n]) <==> Lookup(c.dep, order[n]).Some? && order[n] in info.sym && info.sym[order[n]] == s;
      if HasDependency(info, c, [order[n]], s, order[n]) { assert HasDependency(info, c, order, s, order[n]); }
    }
  }

  /** A symbol's direct dependencies are unmet exactly if some entry of it has one and none of these is met. */
  lemma DirectByEntries(info: Info, c: Conditions, l: Listing, users: Users, t: Table, s: Symbol)
    requires SolvesMenus(info, c, l, users, t) && s in l.table && IsTyped(s)
    ensures t[s].direct == NO <==>
            && (exists k :: HasDependency(info, c, l.entered, s, k))
            && (forall k :: HasDependency(info, c, l.entered, s, k) ==> Val(EnvIn(l, t), c.dep[k]) == NO)
  {
    assert EnvOf(GraphFrom(info, c, l), t) == EnvIn(l, t);
    SolutionBounded(GraphFrom(info, c, l), users, t, s);
    HighestDirect(EnvIn(l, t), info, c, l.entered, s);
  }

  // ---------------------------------------------------------------- what the search follows

  /** Of the entries of a symbol, the search follows the conditions of all properties but selects, and the values
      of defaults; besides, the select bound. */
  lemma FollowsEntries(info: Info, c: Conditions, l: Listing, s: Symbol, t: Symbol)
    requires s in l.table && s !in l.extra
    ensures Follows(DeclFrom(info, c, l, s), t) <==>
            || Mentions(SelectsFrom(info, c, l.handed, s), t)
            || (exists k, i: nat :: IsAt(info, c, l.entries, s, k, i) && !KindAt(info, k, i).Selects? && Mentions(ConditionAt(c, k, i), t))
            || (exists k, i: nat :: IsAt(info, c, l.entries, s, k, i) && KindAt(info, k, i).Value? && ContainsSymbol(KindAt(info, k, i).value, t))
  {
    var d := DeclFrom(info, c, l, s);
    FollowsExactly(d, t);
    assert d.props == SymbolProperties(info, c, l.entries, s);
    ConditionsFollowed(info, c, l.entries, s, t);
    ValuesFollowed(info, c, l.entries, s, t);
  }

  lemma ConditionsFollowed(info: Info, c: Conditions, entries: seq<Id>, s: Symbol, t: Symbol)
    ensures (exists p :: p in SymbolProperties(info, c, entries, s) && !p.Select? && Mentions(p.condition, t)) <==>
            exists k, i: nat :: IsAt(info, c, entries, s, k, i) && !KindAt(info, k, i).Selects? && Mentions(ConditionAt(c, k, i), t)
  {
    PropertiesAre(info, c, entries, s);
    if k, i: nat :| IsAt(info, c, entries, s, k, i) && !KindAt(info, k, i).Selects? && Mentions(ConditionAt(c, k, i), t) {
      assert PropertyOf(KindAt(info, k, i), ConditionAt(c, k, i)) in SymbolProperties(info, c, entries, s);
    }
  }

  lemma ValuesFollowed(info: Info, c: Conditions, entries: seq<Id>, s: Symbol, t: Symbol)
    ensures (exists p :: p in SymbolProperties(info, c, entries, s) && p.Default? && ContainsSymbol(p.value, t)) <==>
            exists k, i: nat :: IsAt(info, c, entries, s, k, i) && KindAt(info, k, i).Value? && ContainsSymbol(KindAt(info, k, i).value, t)
  {
    PropertiesAre(info, c, entries, s);
    if k, i: nat :| IsAt(info, c, entries, s, k, i) && KindAt(info, k, i).Value? && ContainsSymbol(KindAt(info, k, i).value, t) {
      assert PropertyOf(KindAt(info, k, i), ConditionAt(c, k, i)) in SymbolProperties(info, c, entries, s);
    }
  }
}
