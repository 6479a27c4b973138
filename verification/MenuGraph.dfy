/** The symbols as `menu_finalize` leaves them: their properties, select bounds and direct
    dependencies, for the search for recursive dependencies and for the evaluation. */
module MenuGraph {
  import opened Expressions
  import opened Transformation
  import opened Comparing
  import opened Duplicates
  import opened DuplicateMeaning
  import opened MenuForest
  import opened MenuDependencies
  import opened MenuTree
  import opened MenuCollect
  import opened MenuFinalize
  import opened MenuWalk
  import opened SymbolGraph
  import opened DependencyCheck
  import opened Evaluation
  import opened EvaluationMeaning

  // ---------------------------------------------------------------- declarations from entries

  function PropertyOf(kind: Kind, condition: Option<Expr>): Property {
    match kind
    case Definition => Other(condition)
    case Title => Prompt(condition)
    case Value(v) => Default(condition, v)
    case Selects(_) => Select(condition)
    case Ends(low, high) => Property.Range(condition, low, high)
  }

  function EntryProperties(info: Info, c: Conditions, k: Id): (r: seq<Property>)
    ensures |r| == PropertyCount(c, k)
  {
    seq(PropertyCount(c, k), (i: nat) requires i < PropertyCount(c, k) => PropertyOf(KindAt(info, k, i), ConditionAt(c, k, i)))
  }

  /** The properties of s: those of its entries in the order of the text. */
  function SymbolProperties(info: Info, c: Conditions, entries: seq<Id>, s: Symbol): seq<Property> {
    if entries == [] then []
    else
      (if entries[0] in info.sym && info.sym[entries[0]] == s then EntryProperties(info, c, entries[0]) else []) +
      SymbolProperties(info, c, entries[1..], s)
  }

  /** The declarations of the symbols of the table.  Some properties belong to no entry: the defaults of
      the symbol for modules and of symbols from the environment. */
  function Declared(info: Info, c: Conditions, entries: seq<Id>, extra: map<Symbol, seq<Property>>,
                    selects: map<Symbol, Expr>, direct: map<Symbol, Expr>, table: set<Symbol>): map<Symbol, Decl>
  {
    map s | s in table :: Decl(SymbolProperties(info, c, entries, s) + (if s in extra then extra[s] else []),
                               Lookup(selects, s), Lookup(direct, s))
  }

  /** The entries in the order of the text, in the order in which they were handed their conditions, and in
      the order in which they were finalised; and what does not come from entries. */
  datatype Listing = Listing(entries: seq<Id>, handed: seq<Id>, entered: seq<Id>,
                             extra: map<Symbol, seq<Property>>, table: set<Symbol>, modules: bool)

  /** The declaration of s when the conditions are c. */
  function DeclFrom(info: Info, c: Conditions, l: Listing, s: Symbol): Decl {
    Decl(SymbolProperties(info, c, l.entries, s) + (if s in l.extra then l.extra[s] else []),
         SelectsFrom(info, c, l.handed, s), DirectFrom(info, c, l.entered, s))
  }

  function GraphFrom(info: Info, c: Conditions, l: Listing): Graph {
    Graph(map s | s in l.table :: DeclFrom(info, c, l, s), l.modules)
  }

  /** `menu_add_entry`: every entry of a symbol starts with a property for the definition, without a
      condition of its own. */
  ghost predicate Defined(info: Info, c: Conditions, f: Forest) {
    forall k :: k in Ids(f) && k in info.sym ==>
      k in info.props && k in c.visible && |c.visible[k]| > 0 && |info.props[k]| > 0 &&
      info.props[k][0] == Definition && c.visible[k][0] == None
  }

  /** The menus below the root have been finalised: the conditions were written as c and are now d. */
  ghost predicate Completed(info: Info, c: Conditions, d: Conditions, root: Id, kids: Forest, l: Listing) {
    && HandedDown(info, c, d, root, kids) && Defined(info, c, kids)
    && l.entries == Preorder(kids) && Elements(l.entered) <= Ids(kids)
    && (forall s, p :: s in l.extra && p in l.extra[s] ==> p.Default?) && SYMBOL_NO !in l.table
  }

  /** The same for what the menu code leaves, which has gathered select bounds and direct dependencies. */
  ghost predicate Finished(menus: Menus, c: Conditions, root: Id, kids: Forest, l: Listing)
    reads menus
  {
    && menus.Gathered() && l.handed == menus.handed && l.entered == menus.entered
    && Completed(menus.info, c, menus.conditions, root, kids, l)
  }

  /** The declarations they leave. */
  ghost function Leaves(menus: Menus, l: Listing): map<Symbol, Decl>
    reads menus
  {
    Declared(menus.info, menus.conditions, l.entries, l.extra, menus.selects, menus.direct, l.table)
  }

  /** What was gathered step by step is what the entries demand together. */
  lemma LeavesGathered(menus: Menus, c: Conditions, root: Id, kids: Forest, l: Listing)
    requires Finished(menus, c, root, kids, l)
    ensures Leaves(menus, l) == GraphFrom(menus.info, menus.conditions, l).decls
  {
  }

  // ---------------------------------------------------------------- the direct dependency is followed

  /** The rewriting for conditions that are not tristate drops no symbol but a literal. */
  lemma {:induction false} TransBoolMentions(e: Expr, t: Symbol)
    requires ContainsSymbol(e, t) && t != SYMBOL_NO
    ensures ContainsSymbol(TransBool(e), t)
  {
    if e.Bin? {
      if ContainsSymbol(e.left, t) { TransBoolMentions(e.left, t); } else { TransBoolMentions(e.right, t); }
    } else if e.Not? {
      TransBoolMentions(e.arg, t);
    }
  }

  /** The definition's condition is the entry's dependency once more. */
  lemma DefinitionCondition(above: Option<Expr>, own: Option<Expr>, symbol: Option<Symbol>, t: Symbol)
    requires t != SYMBOL_NO
    ensures var dep := HandDown(above, own);
            Mentions(dep, t) ==> Mentions(HandDownPrompt(dep, None, symbol), t)
  {
    var dep := HandDown(above, own);
    if dep.Some? {
      EliminateDupsSettles(AllocAnd(above, TransformOpt(own)).value);
      EliminateDupsSettles(dep.value);
      assert HandDown(dep, None) == dep;
      if Mentions(dep, t) { TransBoolMentions(dep.value, t); }
    }
  }

  lemma {:induction false} HandedAt(info: Info, c: Conditions, d: Conditions, p: Id, f: Forest, k: Id) returns (q: Id)
    requires HandedDown(info, c, d, p, f) && k in Ids(f)
    ensures HandedEntry(info, c, d, q, k)
    decreases f
  {
    if k == f.id { q := p; }
    else if k in Ids(f.kids) { q := HandedAt(info, c, d, f.id, f.kids, k); }
    else { q := HandedAt(info, c, d, p, f.rest, k); }
  }

  /** What the direct dependency mentions comes from an entry of the symbol. */
  lemma {:induction false} DirectMentions(info: Info, c: Conditions, order: seq<Id>, s: Symbol, t: Symbol) returns (k: Id)
    requires Mentions(DirectFrom(info, c, order, s), t)
    ensures k in order && k in info.sym && info.sym[k] == s && Mentions(Lookup(c.dep, k), t)
  {
    k := order[|order| - 1];
    var before := DirectFrom(info, c, order[..|order| - 1], s);
    if !(k in info.sym && info.sym[k] == s && Mentions(Lookup(c.dep, k), t)) {
      k := DirectMentions(info, c, order[..|order| - 1], s, t);
    }
  }

  lemma {:induction false} EntryPropertyOf(info: Info, c: Conditions, entries: seq<Id>, k: Id, i: nat)
    requires k in entries && k in info.sym && i < PropertyCount(c, k)
    ensures PropertyOf(KindAt(info, k, i), ConditionAt(c, k, i)) in SymbolProperties(info, c, entries, info.sym[k])
  {
    if entries[0] == k {
      assert EntryProperties(info, c, k)[i] == PropertyOf(KindAt(info, k, i), ConditionAt(c, k, i));
    } else {
      EntryPropertyOf(info, c, entries[1..], k, i);
    }
  }

  /** Some range of the properties ends at s. */
  predicate EndsAt(props: seq<Property>, s: Symbol) { exists p :: p in props && Bounds(p, s) }

  /** Whatever the evaluation of a symbol evaluates, the search for recursive dependencies follows, but for
      the ends of ranges: the direct dependency through the properties of the definitions. */
  lemma EvaluatedIsFollowed(info: Info, c: Conditions, d: Conditions, root: Id, kids: Forest, l: Listing, s: Symbol, t: Symbol)
    requires Completed(info, c, d, root, kids, l) && s in l.table && t != SYMBOL_NO
    ensures var decl := DeclFrom(info, d, l, s); Evaluates(decl, t) ==> Follows(decl, t) || EndsAt(decl.props, t)
  {
    var decl := DeclFrom(info, d, l, s);
    if Mentions(decl.depends, t) {
      var k := DirectMentions(info, d, l.entered, s, t);
      assert k in Elements(l.entered);
      var q := HandedAt(info, c, d, root, kids, k);
      DefinitionCondition(Guard(info, d, q), Lookup(c.dep, k), Lookup(info.sym, k), t);
      IdsPreorder(kids);
      EntryPropertyOf(info, d, Preorder(kids), k, 0);
      assert PropertyMentions(Other(ConditionAt(d, k, 0)), t);
    }
  }

  /** No range ends at a symbol of the table that has a value of its own. */
  ghost predicate FixedEnds(decls: map<Symbol, Decl>) {
    forall s, t :: s in decls && t in decls && IsTyped(t) ==> !EndsAt(decls[s].props, t)
  }

  /** A graph of finalised menus that passes the search is acyclic for the evaluation, if ranges have fixed
      ends. */
  lemma CheckedIsAcyclic(info: Info, c: Conditions, d: Conditions, root: Id, kids: Forest, l: Listing)
    requires Completed(info, c, d, root, kids, l)
    requires var decls := GraphFrom(info, d, l).decls; !Cyclic(CheckedReferences(decls)) && FixedEnds(decls)
    ensures Acyclic(GraphFrom(info, d, l))
  {
    var decls := GraphFrom(info, d, l).decls;
    var evaluated, checked := EvaluatedReferences(decls), CheckedReferences(decls);
    forall s, t, u | Edge(evaluated, s, t) && Edge(evaluated, t, u) ensures Edge(checked, s, t) {
      assert IsTyped(t) && !EndsAt(decls[s].props, t);
      EvaluatedIsFollowed(info, c, d, root, kids, l, s, t);
    }
    FewerLoops(evaluated, checked);
  }

  /** All symbols are invalid in t, and the calls reach all of them. */
  ghost predicate FreshStart(g: Graph, t: Table, calls: seq<Symbol>) {
    t.Keys == g.decls.Keys && (forall s :: s in t ==> !t[s].valid) && forall s :: s in g.decls ==> s in calls
  }

  /** Such a graph has one value per symbol, whatever the order of the evaluations and whatever stale values
      they start from. */
  lemma CheckedOrderIrrelevant(info: Info, c: Conditions, d: Conditions, root: Id, kids: Forest, l: Listing,
                               users: Users, t: Table, calls: seq<Symbol>)
    requires Completed(info, c, d, root, kids, l)
    requires var decls := GraphFrom(info, d, l).decls; !Cyclic(CheckedReferences(decls)) && FixedEnds(decls)
    requires FreshStart(GraphFrom(info, d, l), t, calls)
    ensures var g := GraphFrom(info, d, l); forall u :: Solves(g, users, u) <==> u == CalcEach(g, users, t, calls)
  {
    CheckedIsAcyclic(info, c, d, root, kids, l);
    OrderIrrelevant(GraphFrom(info, d, l), users, t, calls);
  }

  /** `conf_parse` after the menus are finalised: the search reports a loop exactly if there is one, and
      without a report every order of evaluations stores the one solution, if ranges have fixed ends. */
  method CheckMenus(menus: Menus, ghost c: Conditions, ghost root: Id, ghost kids: Forest, ghost l: Listing,
                    g: Graph, order: seq<Symbol>)
    returns (reported: bool)
    requires Finished(menus, c, root, kids, l) && g.decls == Leaves(menus, l) && g.modules == l.modules
    requires Closed(g.decls) && forall s :: s in order <==> s in g.decls
    ensures reported <==> Cyclic(CheckedReferences(g.decls))
    ensures !reported && FixedEnds(g.decls) ==> Acyclic(g)
    ensures !reported && FixedEnds(g.decls) ==>
              forall users: Users, t: Table, calls: seq<Symbol> ::
                FreshStart(g, t, calls) ==> Solves(g, users, CalcEach(g, users, t, calls))
  {
    var checker := new Checker(g.decls);
    var errors := checker.CheckAll(order);
    reported := checker.reports != [];
    if !reported && FixedEnds(g.decls) {
      LeavesGathered(menus, c, root, kids, l);
      CheckedIsAcyclic(menus.info, c, menus.conditions, root, kids, l);
      forall users: Users, t: Table, calls: seq<Symbol> | FreshStart(g, t, calls)
        ensures Solves(g, users, CalcEach(g, users, t, calls))
      {
        OrderIrrelevant(g, users, t, calls);
      }
    }
  }
}
