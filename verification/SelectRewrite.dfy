/** A tristate that a boolean selects notices the rewriting of the select condition: `X != n` is `y` where
    X is `m`, but the rewritten condition `X` is `m`, and both enter the select bound.  So does the bound of
    a selected text, which nothing depends on. */
module SelectRewrite {
  import opened Expressions
  import opened Joining
  import opened DuplicateMeaning
  import opened Transformation
  import opened Comparing
  import opened MenuForest
  import opened MenuDependencies
  import opened MenuTree
  import opened MenuCollect
  import opened MenuFinalize
  import opened MenuGraph
  import opened SymbolGraph
  import opened Evaluation
  import opened EvaluationMeaning
  import opened VisibilityRewrite

  // ---------------------------------------------------------------- the equations

  /** The same condition for every property. */
  function Everywhere(info: Info, e: Expr): Conditions {
    Conditions(map[], map k | k in info.props :: seq(|info.props[k]|, (i: nat) => Some(e)))
  }

  function OneOn(a: Symbol, x: Symbol, l: Listing): Env {
    Env((s: Symbol) => if s == a then YES else if s == x then MOD else NO, (s: Symbol) => "", l.modules)
  }

  lemma NotNoOf(env: Env, x: Symbol)
    requires IsTristate(x) && env.modules && env.tri(x) == MOD
    ensures Val(env, Ne(x, SYMBOL_NO)) == YES && NormalForm(Ne(x, SYMBOL_NO))
    ensures TransBool(Ne(x, SYMBOL_NO)) == Sym(x) && Val(env, Sym(x)) == MOD
  {
  }

  const X: Symbol := Config("X", SymbolType.Tri)

  /** The bound of the selected symbol is `m` with the rewriting and `y` without. */
  lemma EquationChanges(info: Info, l: Listing, s: Symbol, k: Id, i: nat)
    requires Configures(info) && l.modules && s in l.table && TakesMod(s)
    requires k in l.handed && SelectsAt(info, k, i, s) && IsBoolean(info.sym[k])
    ensures var c, env := Everywhere(info, Ne(X, SYMBOL_NO)), OneOn(info.sym[k], X, l);
            && NormalConditions(c) && Sane(env)
            && Equation(GraphFrom(info, Rewritten(info, c), l), NOTHING_SET, env, s) != Equation(GraphFrom(info, c, l), NOTHING_SET, env, s)
  {
    var c, env := Everywhere(info, Ne(X, SYMBOL_NO)), OneOn(info.sym[k], X, l);
    var d := Rewritten(info, c);
    NotNoOf(env, X);
    HighestSelect(env, info, c, l.handed, s);
    assert Demand(env, info, c, k, i) == YES;
    HighestSelect(env, info, d, l.handed, s);
    forall j: Id, n: nat | SelectsAt(info, j, n, s) && n < PropertyCount(d, j) ensures Demand(env, info, d, j, n) <= MOD {
      RewrittenAt(info, c, j, n);
    }
  }

  /** The equations of all symbols are the same with and without the rewriting, for all conditions, user
      values and values of the symbols, exactly if no boolean selects a tristate or a text while there are modules. */
  lemma EquationsNeedNoSelect(info: Info, l: Listing)
    requires Configures(info)
    ensures !BooleanSelects(info, l) <==>
            forall c: Conditions, users: Users, env: Env, s: Symbol ::
              NormalConditions(c) && Sane(env) && env.modules == l.modules && s in l.table ==>
                Equation(GraphFrom(info, Rewritten(info, c), l), users, env, s) == Equation(GraphFrom(info, c, l), users, env, s)
  {
    if BooleanSelects(info, l) {
      var s :| s in l.table && TakesMod(s) && SelectedByBoolean(info, l.handed, s);
      var k, i: nat :| k in l.handed && SelectsAt(info, k, i, s) && IsBoolean(info.sym[k]);
      EquationChanges(info, l, s, k, i);
    } else {
      forall c: Conditions, users: Users, env: Env, s: Symbol |
        NormalConditions(c) && Sane(env) && env.modules == l.modules && s in l.table
        ensures Equation(GraphFrom(info, Rewritten(info, c), l), users, env, s) == Equation(GraphFrom(info, c, l), users, env, s)
      {
        EquationUnchanged(info, c, l, users, env, s);
      }
    }
  }

  // ---------------------------------------------------------------- a menu where the solution changes

  const X_ENTRY: Id := 0
  const A_ENTRY: Id := 1
  const T_ENTRY: Id := 2
  const ROOT: Id := 3

  const ENTRIES: seq<Id> := [X_ENTRY, A_ENTRY, T_ENTRY]

  /** A tristate x with a prompt, a boolean a with a prompt that selects t, and a tristate (or text) t. */
  function SelectMenu(x: Symbol, a: Symbol, t: Symbol): Info {
    Info(map[X_ENTRY := x, A_ENTRY := a, T_ENTRY := t],
         map[X_ENTRY := [Definition, Title], A_ENTRY := [Definition, Title, Selects(t)], T_ENTRY := [Definition]],
         map[X_ENTRY := 1, A_ENTRY := 1])
  }

  /** The conditions when the select property has the condition e. */
  function SelectConditions(e: Expr): Conditions {
    Conditions(map[], map[X_ENTRY := [None, None], A_ENTRY := [None, None, Some(e)], T_ENTRY := [None]])
  }

  function SelectListing(x: Symbol, a: Symbol, t: Symbol): Listing {
    Listing(ENTRIES, ENTRIES, ENTRIES, map[], {x, a, t}, true)
  }

  ghost predicate SelectSymbols(x: Symbol, a: Symbol, t: Symbol) {
    IsTristate(x) && IsBoolean(a) && TakesMod(t) && x != t
  }

  function SelectKids(): Forest { Node(X_ENTRY, Nil, Node(A_ENTRY, Nil, Node(T_ENTRY, Nil, Nil))) }

  lemma SelectRewritten(x: Symbol, a: Symbol, t: Symbol)
    requires SelectSymbols(x, a, t)
    ensures Rewritten(SelectMenu(x, a, t), SelectConditions(Ne(x, SYMBOL_NO))) == SelectConditions(Sym(x))
  {
    var c, d := SelectConditions(Ne(x, SYMBOL_NO)), SelectConditions(Sym(x));
    var r := Rewritten(SelectMenu(x, a, t), c);
    assert TransBool(Ne(x, SYMBOL_NO)) == Sym(x);
    assert r.visible[X_ENTRY] == d.visible[X_ENTRY];
    assert r.visible[A_ENTRY] == d.visible[A_ENTRY];
    assert r.visible[T_ENTRY] == d.visible[T_ENTRY];
    assert r.visible == d.visible;
  }

  /** The menu code makes `select t if x` of `select t if x != n`. */
  lemma SelectHandedDown(x: Symbol, a: Symbol, t: Symbol)
    requires SelectSymbols(x, a, t)
    ensures var info, c := SelectMenu(x, a, t), SelectConditions(Ne(x, SYMBOL_NO));
            && NormalConditions(c) && Configures(info) && Rewritten(info, c) == SelectConditions(Sym(x))
            && HandedDown(info, c, Rewritten(info, c), ROOT, SelectKids())
  {
    var info, c := SelectMenu(x, a, t), SelectConditions(Ne(x, SYMBOL_NO));
    var d := SelectConditions(Sym(x));
    var e := Ne(x, SYMBOL_NO);
    SelectRewritten(x, a, t);
    assert NormalForm(e) && HandDown(None, None) == None && HandDown(None, Some(e)) == Some(e);
    forall k: Id | k in ENTRIES ensures HandedEntry(info, c, d, ROOT, k) {
      assert PartlyHanded(None, c.visible[k], Lookup(info.sym, k), |c.visible[k]|) == d.visible[k];
    }
  }

  function SelectUsers(x: Symbol, a: Symbol): Users { Users(map[x := MOD, a := YES], map[]) }

  /** The values when the bound of t is v. */
  function SelectValues(x: Symbol, a: Symbol, t: Symbol, v: Tristate): Table {
    map[x := Cell(true, true, MOD, YES, NO, YES, ""), a := Cell(true, true, YES, YES, NO, YES, ""),
        t := if IsTristate(t) then Cell(true, v != NO, v, NO, v, YES, "") else Cell(true, false, NO, NO, v, YES, "")]
  }

  lemma SelectProps(x: Symbol, a: Symbol, t: Symbol, e: Expr, env: Env, s: Symbol)
    requires SelectSymbols(x, a, t) && s in {x, a, t}
    ensures var props := SymbolProperties(SelectMenu(x, a, t), SelectConditions(e), ENTRIES, s);
            PromptValue(env, props) == (if s == t then NO else YES) && DefaultValue(env, props) == None &&
            DefaultText(env, props) == None && ActiveRange(env, props) == None
  {
    var info, c := SelectMenu(x, a, t), SelectConditions(e);
    assert ENTRIES[1..] == [A_ENTRY, T_ENTRY] && [A_ENTRY, T_ENTRY][1..] == [T_ENTRY] && [T_ENTRY][1..] == [];
    assert SymbolProperties(info, c, [T_ENTRY], s) == if s == t then EntryProperties(info, c, T_ENTRY) else [];
    assert SymbolProperties(info, c, [A_ENTRY, T_ENTRY], s) ==
           if s == a then EntryProperties(info, c, A_ENTRY) else SymbolProperties(info, c, [T_ENTRY], s);
    var props := SymbolProperties(info, c, ENTRIES, s);
    assert EntryProperties(info, c, X_ENTRY) == [Other(None), Prompt(None)];
    assert EntryProperties(info, c, A_ENTRY) == [Other(None), Prompt(None), Select(Some(e))];
    assert EntryProperties(info, c, T_ENTRY) == [Other(None)];
    assert props == if s == x then [Other(None), Prompt(None)]
                    else if s == a then [Other(None), Prompt(None), Select(Some(e))] else [Other(None)];
    NoTexts(env, props);
    HighestPrompt(env, props);
    if s != t { assert props[1] in props; }
  }

  lemma SelectBoundOf(x: Symbol, a: Symbol, t: Symbol, e: Expr, env: Env, s: Symbol)
    requires SelectSymbols(x, a, t) && s in {x, a, t} && env.tri(a) == YES
    ensures BoundValue(env, SelectsFrom(SelectMenu(x, a, t), SelectConditions(e), ENTRIES, s)) ==
            if s == t then Val(env, e) else NO
  {
    var info, c := SelectMenu(x, a, t), SelectConditions(e);
    HighestSelect(env, info, c, ENTRIES, s);
    assert SelectsAt(info, A_ENTRY, 2, t) && A_ENTRY in ENTRIES && Demand(env, info, c, A_ENTRY, 2) == Val(env, e);
  }

  /** The graph when the select property has the condition e. */
  function SelectGraph(x: Symbol, a: Symbol, t: Symbol, e: Expr): Graph {
    GraphFrom(SelectMenu(x, a, t), SelectConditions(e), SelectListing(x, a, t))
  }

  lemma SelectEquation(x: Symbol, a: Symbol, t: Symbol, e: Expr, v: Tristate, s: Symbol)
    requires SelectSymbols(x, a, t) && s in {x, a, t}
    ensures var env := EnvOf(SelectGraph(x, a, t, e), SelectValues(x, a, t, v));
            Equation(SelectGraph(x, a, t, e), SelectUsers(x, a), env, s) == SelectValues(x, a, t, Val(env, e))[s]
  {
    var info, c, l, g := SelectMenu(x, a, t), SelectConditions(e), SelectListing(x, a, t), SelectGraph(x, a, t, e);
    var env := EnvOf(g, SelectValues(x, a, t, v));
    SelectProps(x, a, t, e, env, s);
    SelectBoundOf(x, a, t, e, env, s);
    NoDirect(info, c, ENTRIES, s);
    var decl := g.decls[s];
    assert decl == DeclFrom(info, c, l, s) && decl.props == SymbolProperties(info, c, ENTRIES, s);
    SelectCell(x, a, t, g, env, s, if s == t then Val(env, e) else NO);
  }

  /** The cell of a symbol of the menu with the given bound. */
  lemma SelectCell(x: Symbol, a: Symbol, t: Symbol, g: Graph, env: Env, s: Symbol, bound: Tristate)
    requires SelectSymbols(x, a, t) && s in {x, a, t} && s in g.decls && g.modules
    requires PromptValue(env, g.decls[s].props) == (if s == t then NO else YES) && DefaultValue(env, g.decls[s].props) == None
    requires DefaultText(env, g.decls[s].props) == None && ActiveRange(env, g.decls[s].props) == None
    requires BoundValue(env, g.decls[s].selected) == bound && g.decls[s].depends == None && (s != t ==> bound == NO)
    ensures Equation(g, SelectUsers(x, a), env, s) == SelectValues(x, a, t, bound)[s]
  {
  }

  /** The bound of t is the value of the condition of the select property. */
  lemma SelectSolution(x: Symbol, a: Symbol, t: Symbol, e: Expr, v: Tristate)
    requires SelectSymbols(x, a, t)
    ensures var g, r := SelectGraph(x, a, t, e), SelectValues(x, a, t, v);
            Solves(g, SelectUsers(x, a), r) <==> Val(EnvOf(g, r), e) == v
  {
    var g, r := SelectGraph(x, a, t, e), SelectValues(x, a, t, v);
    var w := Val(EnvOf(g, r), e);
    SelectEquations(x, a, t, e, v);
    if Solves(g, SelectUsers(x, a), r) {
      assert Equation(g, SelectUsers(x, a), EnvOf(g, r), t) == r[t];
      assert r[t].bound == v && SelectValues(x, a, t, w)[t].bound == w;
    }
  }

  lemma SelectEquations(x: Symbol, a: Symbol, t: Symbol, e: Expr, v: Tristate)
    requires SelectSymbols(x, a, t)
    ensures var g, r := SelectGraph(x, a, t, e), SelectValues(x, a, t, v);
            forall s :: s in g.decls ==> Equation(g, SelectUsers(x, a), EnvOf(g, r), s) == SelectValues(x, a, t, Val(EnvOf(g, r), e))[s]
  {
    forall s | s in SelectGraph(x, a, t, e).decls
      ensures var g, r := SelectGraph(x, a, t, e), SelectValues(x, a, t, v);
              Equation(g, SelectUsers(x, a), EnvOf(g, r), s) == SelectValues(x, a, t, Val(EnvOf(g, r), e))[s]
    {
      SelectEquation(x, a, t, e, v, s);
    }
  }

  lemma SolutionWithout(x: Symbol, a: Symbol, t: Symbol, v: Tristate)
    requires SelectSymbols(x, a, t)
    ensures Solves(SelectGraph(x, a, t, Ne(x, SYMBOL_NO)), SelectUsers(x, a), SelectValues(x, a, t, v)) <==> v == YES
  {
    SelectSolution(x, a, t, Ne(x, SYMBOL_NO), v);
    NotNoOf(EnvOf(SelectGraph(x, a, t, Ne(x, SYMBOL_NO)), SelectValues(x, a, t, v)), x);
  }

  lemma SolutionWith(x: Symbol, a: Symbol, t: Symbol, v: Tristate)
    requires SelectSymbols(x, a, t)
    ensures Solves(SelectGraph(x, a, t, Sym(x)), SelectUsers(x, a), SelectValues(x, a, t, v)) <==> v == MOD
  {
    SelectSolution(x, a, t, Sym(x), v);
    NotNoOf(EnvOf(SelectGraph(x, a, t, Sym(x)), SelectValues(x, a, t, v)), x);
  }

  /** With x = m and a = y, the select bound of t, and so its value if it is a tristate, is m with the
      rewriting and y without. */
  lemma SolutionChanges(x: Symbol, a: Symbol, t: Symbol)
    requires SelectSymbols(x, a, t)
    ensures var info, c, l := SelectMenu(x, a, t), SelectConditions(Ne(x, SYMBOL_NO)), SelectListing(x, a, t);
            var g, h := GraphFrom(info, c, l), GraphFrom(info, Rewritten(info, c), l);
            && Solves(h, SelectUsers(x, a), SelectValues(x, a, t, MOD)) && !Solves(g, SelectUsers(x, a), SelectValues(x, a, t, MOD))
            && Solves(g, SelectUsers(x, a), SelectValues(x, a, t, YES)) && !Solves(h, SelectUsers(x, a), SelectValues(x, a, t, YES))
  {
    SelectRewritten(x, a, t);
    SolutionWith(x, a, t, MOD);
    SolutionWith(x, a, t, YES);
    SolutionWithout(x, a, t, MOD);
    SolutionWithout(x, a, t, YES);
  }

  // ---------------------------------------------------------------- exactly when it does

  /** Who selects whom in the menu is among the pairs. */
  ghost predicate SelectsWithin(info: Info, pairs: set<(Symbol, Symbol)>) {
    forall k, i: nat, s :: SelectsAt(info, k, i, s) ==> (info.sym[k], s) in pairs
  }

  ghost predicate SameSolutions(info: Info, c: Conditions, l: Listing) {
    forall users: Users, t: Table ::
      Solves(GraphFrom(info, Rewritten(info, c), l), users, t) <==> Solves(GraphFrom(info, c, l), users, t)
  }

  lemma SelectMenuWithin(x: Symbol, a: Symbol, t: Symbol, pairs: set<(Symbol, Symbol)>)
    requires (a, t) in pairs
    ensures SelectsWithin(SelectMenu(x, a, t), pairs)
  {
  }

  lemma SelectMenuDiffers(x: Symbol, a: Symbol, t: Symbol)
    requires SelectSymbols(x, a, t)
    ensures !SameSolutions(SelectMenu(x, a, t), SelectConditions(Ne(x, SYMBOL_NO)), SelectListing(x, a, t))
  {
    SolutionChanges(x, a, t);
    var users, r := SelectUsers(x, a), SelectValues(x, a, t, MOD);
    var info, c, l := SelectMenu(x, a, t), SelectConditions(Ne(x, SYMBOL_NO)), SelectListing(x, a, t);
    assert Solves(GraphFrom(info, Rewritten(info, c), l), users, r) && !Solves(GraphFrom(info, c, l), users, r);
  }

  /** All menus with such selects have the same solutions with and without the rewriting exactly if there
      are no modules or no boolean selects a tristate or a text. */
  lemma SolutionsNeedNoSelect(pairs: set<(Symbol, Symbol)>, modules: bool)
    ensures !(modules && exists p :: p in pairs && IsBoolean(p.0) && TakesMod(p.1)) <==>
            forall info: Info, c: Conditions, l: Listing ::
              SelectsWithin(info, pairs) && Configures(info) && NormalConditions(c) && l.modules == modules ==>
                SameSolutions(info, c, l)
  {
    if modules && exists p :: p in pairs && IsBoolean(p.0) && TakesMod(p.1) {
      var p :| p in pairs && IsBoolean(p.0) && TakesMod(p.1);
      var (a, t) := p;
      var x := Config(t.name + "'", SymbolType.Tri);
      assert |x.name| == |t.name| + 1;
      SelectHandedDown(x, a, t);
      SelectMenuWithin(x, a, t, pairs);
      SelectMenuDiffers(x, a, t);
    } else {
      forall info: Info, c: Conditions, l: Listing |
        SelectsWithin(info, pairs) && Configures(info) && NormalConditions(c) && l.modules == modules
        ensures SameSolutions(info, c, l)
      {
        forall users: Users, t: Table
          ensures Solves(GraphFrom(info, Rewritten(info, c), l), users, t) <==> Solves(GraphFrom(info, c, l), users, t)
        {
          SolutionsUnchanged(info, c, l, users, t);
        }
      }
    }
  }

  // ---------------------------------------------------------------- finished menus

  /** The conditions of finished menus without the last step: c0 as written, d as handed down. */
  function Unrewritten(info: Info, c0: Conditions, d: Conditions, ids: set<Id>): Conditions {
    Conditions(d.dep, map k | k in ids && k in c0.visible ::
      seq(|c0.visible[k]|, (i: nat) requires i < |c0.visible[k]| => HandDown(Lookup(d.dep, k), c0.visible[k][i])))
  }

  lemma {:induction false} HandedNormal(info: Info, c0: Conditions, d: Conditions, p: Id, f: Forest, k: Id)
    requires Shaped(info, c0) && HandedDown(info, c0, d, p, f) && Normal(Guard(info, d, p)) && k in Ids(f)
    ensures Normal(Lookup(d.dep, k))
    decreases f
  {
    HandDownNormal(Guard(info, d, p), Lookup(c0.dep, f.id));
    if k == f.id {
    } else if k in Ids(f.kids) {
      if f.id in info.prompt {
        var i := info.prompt[f.id];
        HandDownPromptNormal(Lookup(d.dep, f.id), c0.visible[f.id][i], Lookup(info.sym, f.id));
      }
      HandedNormal(info, c0, d, f.id, f.kids, k);
    } else {
      HandedNormal(info, c0, d, p, f.rest, k);
    }
  }

  lemma UnrewrittenNormal(info: Info, c0: Conditions, d: Conditions, root: Id, kids: Forest)
    requires Shaped(info, c0) && HandedDown(info, c0, d, root, kids) && Normal(Guard(info, d, root))
    ensures NormalConditions(Unrewritten(info, c0, d, Ids(kids)))
  {
    var c := Unrewritten(info, c0, d, Ids(kids));
    forall k: Id, i: nat ensures Normal(ConditionAt(c, k, i)) {
      if k in c.visible && i < |c.visible[k]| {
        HandedNormal(info, c0, d, root, kids, k);
        HandDownNormal(Lookup(d.dep, k), c0.visible[k][i]);
      }
    }
  }

  /** Finished menus are what the last step makes of them. */
  lemma FinishedRewritten(info: Info, c0: Conditions, d: Conditions, root: Id, kids: Forest, k: Id)
    requires HandedDown(info, c0, d, root, kids) && k in Ids(kids)
    ensures SameConditions(Rewritten(info, Unrewritten(info, c0, d, Ids(kids))), d, k)
  {
    var r := Rewritten(info, Unrewritten(info, c0, d, Ids(kids)));
    var q := HandedAt(info, c0, d, root, kids, k);
    if k in c0.visible {
      assert d.visible[k] == PartlyHanded(Lookup(d.dep, k), c0.visible[k], Lookup(info.sym, k), |c0.visible[k]|);
      assert r.visible[k] == d.visible[k];
    }
  }

  lemma {:induction false} SymbolPropsFrame(info: Info, c: Conditions, d: Conditions, entries: seq<Id>, s: Symbol)
    requires SameOn(c, d, Elements(entries))
    ensures SymbolProperties(info, c, entries, s) == SymbolProperties(info, d, entries, s)
  {
    if entries != [] {
      assert entries[0] in Elements(entries) && SameConditions(c, d, entries[0]);
      assert EntryProperties(info, c, entries[0]) == EntryProperties(info, d, entries[0]);
      SymbolPropsFrame(info, c, d, entries[1..], s);
    }
  }

  /** The solutions of finished menus are those without the rewriting, unless a boolean selects a tristate
      while there are modules. */
  lemma MenusUnchanged(menus: Menus, c0: Conditions, root: Id, kids: Forest, l: Listing, g: Graph, users: Users, t: Table)
    requires Finished(menus, c0, root, kids, l) && Elements(menus.handed) <= Ids(kids)
    requires g == Graph(Leaves(menus, l), l.modules)
    requires Shaped(menus.info, c0) && Normal(Guard(menus.info, menus.conditions, root)) && Configures(menus.info)
    requires !BooleanSelects(menus.info, l)
    ensures var c := Unrewritten(menus.info, c0, menus.conditions, Ids(kids));
            Solves(g, users, t) <==> Solves(GraphFrom(menus.info, c, l), users, t)
  {
    var info, d := menus.info, menus.conditions;
    var c := Unrewritten(info, c0, d, Ids(kids));
    LeavesGathered(menus, c0, root, kids, l);
    UnrewrittenNormal(info, c0, d, root, kids);
    forall k | k in Ids(kids) ensures SameConditions(Rewritten(info, c), d, k) { FinishedRewritten(info, c0, d, root, kids, k); }
    IdsPreorder(kids);
    forall s | s in l.table ensures DeclFrom(info, d, l, s) == DeclFrom(info, Rewritten(info, c), l, s) {
      SymbolPropsFrame(info, Rewritten(info, c), d, l.entries, s);
      SelectsFrame(info, Rewritten(info, c), d, l.handed, s);
      DirectFrame(info, Rewritten(info, c), d, l.entered, s);
    }
    assert g == GraphFrom(info, Rewritten(info, c), l);
    SolutionsUnchanged(info, c, l, users, t);
  }
}
