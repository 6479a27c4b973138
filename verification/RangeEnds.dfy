/** The ends of a range are evaluated, but the search for recursive dependencies does not follow them: a
    number whose range ends at another symbol can depend on itself without a report. */
module RangeEnds {
  import opened Expressions
  import opened Transformation
  import opened Comparing
  import opened Numbers
  import opened MenuForest
  import opened MenuDependencies
  import opened MenuTree
  import opened MenuCollect
  import opened MenuGraph
  import opened SymbolGraph
  import opened DependencyCheck
  import opened Evaluation
  import opened EvaluationMeaning

  // ---------------------------------------------------------------- the menu

  const A_ENTRY: Id := 0
  const B_ENTRY: Id := 1
  const ROOT: Id := 2

  const ENTRIES: seq<Id> := [A_ENTRY, B_ENTRY]

  const ONE: Symbol := Const("1")

  /** An int a with the default 1 and a range from b to b, and a symbol b with the default a. */
  function RangeMenu(a: Symbol, b: Symbol): Info {
    Info(map[A_ENTRY := a, B_ENTRY := b],
         map[A_ENTRY := [Definition, Value(Sym(ONE)), Ends(b, b)], B_ENTRY := [Definition, Value(Sym(a))]], map[])
  }

  /** Nothing has a condition. */
  function RangeConditions(): Conditions { Conditions(map[], map[A_ENTRY := [None, None, None], B_ENTRY := [None, None]]) }

  function RangeListing(a: Symbol, b: Symbol): Listing { Listing(ENTRIES, ENTRIES, ENTRIES, map[], {a, b}, true) }

  function RangeKids(): Forest { Node(A_ENTRY, Nil, Node(B_ENTRY, Nil, Nil)) }

  function RangeGraph(a: Symbol, b: Symbol): Graph { GraphFrom(RangeMenu(a, b), RangeConditions(), RangeListing(a, b)) }

  ghost predicate RangeSymbols(a: Symbol, b: Symbol) { a.Config? && a.kind == Int && IsTyped(b) && a != b }

  lemma RangeCompleted(a: Symbol, b: Symbol)
    requires RangeSymbols(a, b)
    ensures Completed(RangeMenu(a, b), RangeConditions(), RangeConditions(), ROOT, RangeKids(), RangeListing(a, b))
  {
    var info, c := RangeMenu(a, b), RangeConditions();
    assert HandDown(None, None) == None;
    forall k: Id | k in ENTRIES ensures HandedEntry(info, c, c, ROOT, k) {
      assert PartlyHanded(None, c.visible[k], Lookup(info.sym, k), |c.visible[k]|) == c.visible[k];
    }
    assert HandedDown(info, c, c, ROOT, Node(B_ENTRY, Nil, Nil));
    assert Preorder(Node(B_ENTRY, Nil, Nil)) == [B_ENTRY];
  }

  lemma RangeDecls(a: Symbol, b: Symbol)
    requires RangeSymbols(a, b)
    ensures RangeGraph(a, b).decls ==
            map[a := Decl([Other(None), Default(None, Sym(ONE)), Property.Range(None, b, b)], None, None),
                b := Decl([Other(None), Default(None, Sym(a))], None, None)]
  {
    var info, c, l := RangeMenu(a, b), RangeConditions(), RangeListing(a, b);
    assert ENTRIES[1..] == [B_ENTRY] && [B_ENTRY][1..] == [] && ENTRIES[..1] == [A_ENTRY] && [A_ENTRY][..0] == [];
    assert EntryProperties(info, c, A_ENTRY) == [Other(None), Default(None, Sym(ONE)), Property.Range(None, b, b)];
    assert EntryProperties(info, c, B_ENTRY) == [Other(None), Default(None, Sym(a))];
    forall s | s in l.table
      ensures SymbolProperties(info, c, ENTRIES, s) == if s == a then EntryProperties(info, c, A_ENTRY) else EntryProperties(info, c, B_ENTRY)
      ensures SelectsFrom(info, c, ENTRIES, s) == None && DirectFrom(info, c, ENTRIES, s) == None
    {
      assert SymbolProperties(info, c, [B_ENTRY], s) == if s == b then EntryProperties(info, c, B_ENTRY) else [];
      NothingSelected(info, c, ENTRIES, s);
      NoDirect(info, c, ENTRIES, s);
    }
    assert DeclFrom(info, c, l, a).props == EntryProperties(info, c, A_ENTRY);
    assert DeclFrom(info, c, l, b).props == EntryProperties(info, c, B_ENTRY);
  }

  lemma RangeChecked(a: Symbol, b: Symbol)
    requires RangeSymbols(a, b)
    ensures !Cyclic(CheckedReferences(RangeGraph(a, b).decls))
  {
    RangeDecls(a, b);
    var decls := RangeGraph(a, b).decls;
    assert forall t :: t in decls ==> !Follows(decls[a], t);
    NoReferences(map[]);
    FewerLoops(CheckedReferences(decls), map[]);
  }

  /** The search passes, although the evaluation goes round in a circle. */
  lemma RangeLoop(a: Symbol, b: Symbol)
    requires RangeSymbols(a, b)
    ensures !Cyclic(CheckedReferences(RangeGraph(a, b).decls)) && !Acyclic(RangeGraph(a, b))
  {
    RangeChecked(a, b);
    RangeDecls(a, b);
    var decls := RangeGraph(a, b).decls;
    var evaluated := EvaluatedReferences(decls);
    var range, default := Property.Range(None, b, b), Default(None, Sym(a));
    assert range in decls[a].props && PropertyEvaluates(range, b);
    assert default in decls[b].props && PropertyEvaluates(default, a);
    EdgeDepends(evaluated, a, b);
    EdgeDepends(evaluated, b, a);
    DependsThrough(evaluated, a, b, a);
  }

  // ---------------------------------------------------------------- what can be stored

  lemma NumberTexts()
    ensures Number("0", 10) == 0 && Number("1", 10) == 1 && Number("", 10) == 0 && Decimal(0) == "0" && Decimal(1) == "1"
  {
    NumberDecimal(0);
    NumberDecimal(1);
  }

  function TextCellOf(text: string): Cell { Cell(true, true, NO, NO, NO, YES, text) }

  function RangeTable(a: Symbol, b: Symbol, text: string): Table { map[a := TextCellOf(text), b := TextCellOf(text)] }

  lemma AValues(env: Env, a: Symbol, b: Symbol)
    ensures var props := [Other(None), Default(None, Sym(ONE)), Property.Range(None, b, b)];
            PromptValue(env, props) == NO && DefaultText(env, props) == Some("1") && ActiveRange(env, props) == Some((b, b))
  {
    var props := [Other(None), Default(None, Sym(ONE)), Property.Range(None, b, b)];
    assert props[1..] == [Default(None, Sym(ONE)), Property.Range(None, b, b)];
    assert props[1..][1..] == [Property.Range(None, b, b)] && props[1..][1..][1..] == [];
    HighestPrompt(env, props);
    assert ActiveRange(env, props[1..][1..]) == Some((b, b));
  }

  lemma BValues(env: Env, a: Symbol)
    ensures var props := [Other(None), Default(None, Sym(a))];
            PromptValue(env, props) == NO && DefaultText(env, props) == Some(CurrentText(env, a)) && ActiveRange(env, props) == None
  {
    var props := [Other(None), Default(None, Sym(a))];
    assert props[1..] == [Default(None, Sym(a))] && props[1..][1..] == [];
    HighestPrompt(env, props);
    assert ActiveRange(env, props[1..]) == None;
  }

  /** For two ints there is a solution in which both are 1, and one in which both are 0. */
  lemma TwoSolutions(a: Symbol, b: Symbol, text: string)
    requires RangeSymbols(a, b) && b.kind == Int && (text == "0" || text == "1")
    ensures Solves(RangeGraph(a, b), NOTHING_SET, RangeTable(a, b, text))
  {
    var g, t := RangeGraph(a, b), RangeTable(a, b, text);
    var env := EnvOf(g, t);
    RangeDecls(a, b);
    NumberTexts();
    AValues(env, a, b);
    BValues(env, a);
    assert t[a] == TextCell(g, NOTHING_SET, env, a);
    assert t[b] == TextCell(g, NOTHING_SET, env, b);
  }

  /** So no order of evaluations stores "the" solution. */
  lemma NotOneSolution(a: Symbol, b: Symbol, t: Table, calls: seq<Symbol>)
    requires RangeSymbols(a, b) && b.kind == Int && t.Keys == RangeGraph(a, b).decls.Keys
    ensures !forall u :: Solves(RangeGraph(a, b), NOTHING_SET, u) <==> u == CalcEach(RangeGraph(a, b), NOTHING_SET, t, calls)
  {
    TwoSolutions(a, b, "0");
    TwoSolutions(a, b, "1");
    assert RangeTable(a, b, "0")[a].text != RangeTable(a, b, "1")[a].text;
  }

  // ---------------------------------------------------------------- exactly when it can happen

  /** Every range of the menus ends at one of these symbols. */
  ghost predicate EndsWithin(info: Info, ends: set<Symbol>) {
    forall k: Id, i: nat :: KindAt(info, k, i).Ends? ==> KindAt(info, k, i).low in ends && KindAt(info, k, i).high in ends
  }

  /** All finished menus whose ranges end at these symbols are acyclic for the evaluation once they pass the
      search, exactly if none of the symbols has a value of its own. */
  lemma EndsNeedFixed(ends: set<Symbol>)
    ensures (forall s :: s in ends ==> !IsTyped(s)) <==>
            forall info: Info, c: Conditions, d: Conditions, root: Id, kids: Forest, l: Listing ::
              Completed(info, c, d, root, kids, l) && EndsWithin(info, ends) && !Cyclic(CheckedReferences(GraphFrom(info, d, l).decls)) ==>
                Acyclic(GraphFrom(info, d, l))
  {
    if b :| b in ends && IsTyped(b) {
      var a := Config(b.name + "'", Int);
      assert |a.name| == |b.name| + 1;
      EndsBreak(ends, a, b);
    } else {
      forall info: Info, c: Conditions, d: Conditions, root: Id, kids: Forest, l: Listing |
        Completed(info, c, d, root, kids, l) && EndsWithin(info, ends) && !Cyclic(CheckedReferences(GraphFrom(info, d, l).decls))
        ensures Acyclic(GraphFrom(info, d, l))
      {
        EndsOfMenus(info, c, d, root, kids, l, ends);
        CheckedIsAcyclic(info, c, d, root, kids, l);
      }
    }
  }

  lemma EndsBreak(ends: set<Symbol>, a: Symbol, b: Symbol)
    requires b in ends && RangeSymbols(a, b)
    ensures Completed(RangeMenu(a, b), RangeConditions(), RangeConditions(), ROOT, RangeKids(), RangeListing(a, b))
    ensures EndsWithin(RangeMenu(a, b), ends)
    ensures !Cyclic(CheckedReferences(RangeGraph(a, b).decls)) && !Acyclic(RangeGraph(a, b))
  {
    RangeCompleted(a, b);
    RangeLoop(a, b);
    RangeMenuEnds(ends, a, b);
  }

  lemma RangeMenuEnds(ends: set<Symbol>, a: Symbol, b: Symbol)
    requires b in ends
    ensures EndsWithin(RangeMenu(a, b), ends)
  {
  }

  lemma EndsOfMenus(info: Info, c: Conditions, d: Conditions, root: Id, kids: Forest, l: Listing, ends: set<Symbol>)
    requires Completed(info, c, d, root, kids, l) && EndsWithin(info, ends) && forall s :: s in ends ==> !IsTyped(s)
    ensures FixedEnds(GraphFrom(info, d, l).decls)
  {
    forall s, t, p | s in l.table && p in DeclFrom(info, d, l, s).props && Bounds(p, t) ensures t in ends {
      EndsOfSymbol(info, d, l.entries, s, ends);
      assert forall q :: s in l.extra && q in l.extra[s] ==> q.Default?;
    }
    assert forall s :: s in l.table ==> GraphFrom(info, d, l).decls[s] == DeclFrom(info, d, l, s);
  }

  lemma {:induction false} EndsOfSymbol(info: Info, c: Conditions, entries: seq<Id>, s: Symbol, ends: set<Symbol>)
    requires EndsWithin(info, ends)
    ensures forall p, x :: p in SymbolProperties(info, c, entries, s) && Bounds(p, x) ==> x in ends
  {
    if entries != [] { EndsOfSymbol(info, c, entries[1..], s, ends); }
  }
}
