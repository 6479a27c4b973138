/** The search for recursive dependencies: a depth first search over the flags
    `SYMBOL_CHECK` (on the search path) and `SYMBOL_CHECKED` (visited). */
module DependencyCheck {
  import opened Expressions
  import opened Comparing
  import opened SymbolGraph

  const LITERALS: set<Symbol> := {SYMBOL_YES, SYMBOL_MOD, SYMBOL_NO}

  /** Every symbol an expression mentions is in the symbol table, or one of the literals, which are not. */
  ghost predicate Closed(decls: map<Symbol, Decl>) {
    && (forall s :: s in decls ==> s !in LITERALS)
    && (forall s, t :: s in decls && Follows(decls[s], t) ==> t in decls || t in LITERALS)
  }

  /** All symbols there are; the literals have no properties. */
  function WithLiterals(decls: map<Symbol, Decl>): map<Symbol, Decl> {
    map s | s in decls.Keys + LITERALS :: if s in decls then decls[s] else Decl([], None, None)
  }

  /** The literals are on no loop. */
  lemma LiteralEdges(decls: map<Symbol, Decl>, s: Symbol, t: Symbol, u: Symbol)
    requires Edge(CheckedReferences(WithLiterals(decls)), s, t) && Edge(CheckedReferences(WithLiterals(decls)), t, u)
    ensures Edge(CheckedReferences(decls), s, t)
  {
    assert Follows(WithLiterals(decls)[s], t) && Follows(WithLiterals(decls)[t], u);
  }

  lemma LoopWithoutLiterals(decls: map<Symbol, Decl>, loop: seq<Symbol>)
    requires Loop(CheckedReferences(WithLiterals(decls)), loop)
    ensures Loop(CheckedReferences(decls), loop)
  {
    var d := CheckedReferences(WithLiterals(decls));
    var p := loop + [loop[0]];
    forall i | 0 <= i < |p| - 1 ensures Edge(CheckedReferences(decls), p[i], p[i + 1]) {
      var j := if i + 1 < |p| - 1 then i + 1 else 0;
      assert p[j] == p[i + 1] && Edge(d, p[i], p[i + 1]) && Edge(d, p[j], p[j + 1]);
      LiteralEdges(decls, p[i], p[i + 1], p[j + 1]);
    }
  }

  lemma CyclicWithLiterals(decls: map<Symbol, Decl>)
    ensures Cyclic(CheckedReferences(decls)) ==> Cyclic(CheckedReferences(WithLiterals(decls)))
  {
    var d, e := CheckedReferences(decls), CheckedReferences(WithLiterals(decls));
    forall s, t | Edge(d, s, t) ensures Edge(e, s, t) { assert Follows(decls[s], t); }
    FewerLoops(d, e);
  }

  /** The symbols of a printed loop: each refers to the next one, and the last to the first. */
  predicate Loop(d: Digraph, loop: seq<Symbol>) {
    loop != [] && Path(d, loop + [loop[0]])
  }

  /** Each symbol comes after everything it refers to. */
  ghost predicate Ordered(d: Digraph, order: seq<Symbol>) {
    forall i, t :: 0 <= i < |order| && Edge(d, order[i], t) ==> t in order[..i]
  }

  lemma {:induction false} OrderedPath(d: Digraph, order: seq<Symbol>, p: seq<Symbol>, i: nat) returns (j: nat)
    requires Ordered(d, order) && Path(d, p) && i < |order| && order[i] == p[0]
    ensures j < i && order[j] == p[|p| - 1]
    decreases |p|
  {
    assert Edge(d, p[0], p[1]);
    assert p[1] in order[..i];
    j :| 0 <= j < i && order[j] == p[1];
    if |p| > 2 {
      forall k | 0 <= k < |p| - 2 ensures Edge(d, p[1..][k], p[1..][k + 1]) { assert Edge(d, p[k + 1], p[k + 2]); }
      j := OrderedPath(d, order, p[1..], j);
    }
  }

  lemma {:induction false} OrderedNoLoop(d: Digraph, order: seq<Symbol>, p: seq<Symbol>, i: nat)
    requires Ordered(d, order) && Path(d, p) && p[0] == p[|p| - 1] && i < |order|
    ensures order[i] != p[0]
  {
    if order[i] == p[0] {
      var j := OrderedPath(d, order, p, i);
      OrderedNoLoop(d, order, p, j);
    }
  }

  lemma OrderedAcyclic(d: Digraph, order: seq<Symbol>)
    requires Ordered(d, order) && forall s, t :: Edge(d, s, t) ==> s in order
    ensures !Cyclic(d)
  {
    if s :| DependsOn(d, s, s) {
      var p :| Path(d, p) && p[0] == s && p[|p| - 1] == s;
      assert Edge(d, p[0], p[1]);
      var i :| 0 <= i < |order| && order[i] == s;
      OrderedNoLoop(d, order, p, i);
    }
  }

  lemma OrderedExtended(d: Digraph, order: seq<Symbol>, s: Symbol)
    requires Ordered(d, order) && forall t :: Edge(d, s, t) ==> t in order
    ensures Ordered(d, order + [s])
  {
    var next := order + [s];
    forall i, t | 0 <= i < |next| && Edge(d, next[i], t) ensures t in next[..i] {
      assert next[..i] == order[..i];
      assert order[..|order|] == order;
    }
  }

  lemma LoopCyclic(d: Digraph, loop: seq<Symbol>)
    requires Loop(d, loop)
    ensures Cyclic(d)
  {
    assert DependsOn(d, loop[0], loop[0]);
  }

  class Checker {
    const decls: map<Symbol, Decl>
    const table: map<Symbol, Decl>
    /** The symbols with SYMBOL_CHECK and with SYMBOL_CHECKED. */
    var check: set<Symbol>
    var checked: set<Symbol>
    /** The dependency stack, bottom first. */
    var stack: seq<Symbol>
    /** The loops printed so far. */
    var reports: seq<seq<Symbol>>
    /** The symbols whose check is over, in that order. */
    ghost var finished: seq<Symbol>

    constructor (decls: map<Symbol, Decl>)
      requires Closed(decls)
      ensures this.decls == decls && Valid() && stack == [] && check == {} && checked == {} && reports == []
    {
      this.decls, table := decls, WithLiterals(decls);
      check, checked, stack, reports, finished := {}, {}, [], [], [];
    }

    ghost predicate Sound()
      reads this
    {
      && Closed(decls) && table == WithLiterals(decls) && check <= checked <= table.Keys
      && (forall i :: 0 <= i < |stack| - 1 ==> Edge(CheckedReferences(table), stack[i], stack[i + 1]))
      && (forall loop :: loop in reports ==> Loop(CheckedReferences(table), loop))
      && (reports == [] ==>
            (forall s :: s in finished <==> s in checked && s !in check) && Ordered(CheckedReferences(table), finished))
    }

    ghost predicate Valid()
      reads this
    {
      Sound() && forall s :: s in stack <==> s in check
    }

    /** s is referred to by the symbol on top of the stack, if there is one. */
    ghost predicate Next(s: Symbol)
      reads this
    {
      stack != [] ==> Edge(CheckedReferences(table), stack[|stack| - 1], s)
    }

    /** `sym_check_print_recursive`: the symbol is always found on the stack. */
    method PrintRecursive(sym: Symbol)
      requires Valid() && Next(sym) && sym in check
      modifies this`reports
      ensures Valid() && exists k :: 0 <= k < |stack| && stack[k] == sym && reports == old(reports) + [stack[k..]]
    {
      var k := |stack| - 1;
      while k >= 0 && stack[k] != sym
        invariant -1 <= k < |stack|
        invariant sym in stack[..k + 1]
      {
        k := k - 1;
      }
      var loop := stack[k..];
      ghost var p := loop + [loop[0]];
      forall i | 0 <= i < |p| - 1 ensures Edge(CheckedReferences(table), p[i], p[i + 1]) {
        if i < |loop| - 1 { assert Edge(CheckedReferences(table), stack[k + i], stack[k + i + 1]); }
      }
      reports := reports + [loop];
    }

    /** `sym_check_deps`: a result is a symbol further down the stack. */
    method CheckDeps(sym: Symbol) returns (found: Option<Symbol>)
      requires Valid() && sym in table && Next(sym)
      modifies this
      ensures Valid() && check == old(check) && stack == old(stack)
      ensures old(checked) <= checked && sym in checked
      ensures old(reports) <= reports
      ensures found.Some? ==> found.value in check && reports != []
      ensures reports == [] ==> sym in finished
      decreases table.Keys - checked, 0
    {
      if sym in check {
        PrintRecursive(sym);
        return Some(sym);
      }
      if sym in checked { return None; }
      check, checked := check + {sym}, checked + {sym};
      found := CheckSymDeps(sym);
      check := check - {sym};
      if reports == [] {
        OrderedExtended(CheckedReferences(table), finished, sym);
        finished := finished + [sym];
      }
      if found == Some(sym) { found := None; }
    }

    /** `sym_check_sym_deps`: the select bound, then the properties in order. */
    method CheckSymDeps(sym: Symbol) returns (found: Option<Symbol>)
      requires Sound() && Next(sym)
      requires sym in check && sym !in stack && forall s :: s in check <==> s in stack || s == sym
      modifies this
      ensures Sound() && check == old(check) && stack == old(stack)
      ensures old(checked) <= checked
      ensures old(reports) <= reports
      ensures found.Some? ==> found.value in check && reports != []
      ensures reports == [] ==> forall t :: Edge(CheckedReferences(table), sym, t) ==> t in finished
      decreases table.Keys - checked, 5
    {
      Push(sym);
      found := CheckTop();
      Pop(old(stack), sym);
      assert forall t :: Edge(CheckedReferences(table), sym, t) ==> Follows(table[sym], t);
    }

    /** `dep_stack_remove` */
    method Pop(ghost below: seq<Symbol>, ghost sym: Symbol)
      requires Sound() && stack == below + [sym]
      modifies this`stack
      ensures Sound() && stack == below
    {
      assert forall i :: 0 <= i < |below| ==> below[i] == stack[i];
      stack := stack[..|stack| - 1];
    }

    /** `dep_stack_insert` */
    method Push(sym: Symbol)
      requires Sound() && Next(sym) && sym in check && forall s :: s in check <==> s in stack || s == sym
      modifies this`stack
      ensures Valid() && stack == old(stack) + [sym]
    {
      stack := stack + [sym];
    }

    /** Everything the check follows from the symbol on top of the stack. */
    method CheckTop() returns (found: Option<Symbol>)
      requires Valid() && stack != [] && stack[|stack| - 1] in table
      modifies this
      ensures Valid() && check == old(check) && stack == old(stack)
      ensures old(checked) <= checked
      ensures old(reports) <= reports
      ensures found.Some? ==> found.value in check && reports != []
      ensures reports == [] ==> forall t :: Follows(table[stack[|stack| - 1]], t) ==> t in finished
      decreases table.Keys - checked, 4
    {
      var decl := table[stack[|stack| - 1]];
      assert forall t :: Follows(decl, t) ==> t in table && Next(t);
      assert forall t :: Mentions(decl.selected, t) ==> Follows(decl, t);
      assert forall p, t :: p in decl.props && PropertyMentions(p, t) ==> Follows(decl, t);
      found := CheckExprDeps(decl.selected);
      if found.None? { found := CheckProperties(decl.props); }
    }

    /** The loop over the properties of the symbol on top of the stack. */
    method CheckProperties(props: seq<Property>) returns (found: Option<Symbol>)
      requires Valid() && stack != []
      requires forall p, t :: p in props && PropertyMentions(p, t) ==> t in table && Next(t)
      modifies this
      ensures Valid() && check == old(check) && stack == old(stack)
      ensures old(checked) <= checked
      ensures old(reports) <= reports
      ensures found.Some? ==> found.value in check && reports != []
      ensures reports == [] ==> forall p, t :: p in props && PropertyMentions(p, t) ==> t in finished
      decreases table.Keys - checked, 3
    {
      found := None;
      for i := 0 to |props|
        invariant Valid() && check == old(check) && stack == old(stack) && found.None?
        invariant old(checked) <= checked && old(reports) <= reports
        invariant reports == [] ==> forall p, t :: p in props[..i] && PropertyMentions(p, t) ==> t in finished
      {
        assert props[i] in props;
        assert props[..i + 1] == props[..i] + [props[i]];
        found := CheckProperty(props[i]);
        if found.Some? { return; }
      }
      assert props[..|props|] == props;
    }

    /** One property of the symbol on top of the stack. */
    method CheckProperty(p: Property) returns (found: Option<Symbol>)
      requires Valid() && stack != [] && forall t :: PropertyMentions(p, t) ==> t in table && Next(t)
      modifies this
      ensures Valid() && check == old(check) && stack == old(stack)
      ensures old(checked) <= checked
      ensures old(reports) <= reports
      ensures found.Some? ==> found.value in check && reports != []
      ensures reports == [] ==> forall t :: PropertyMentions(p, t) ==> t in finished
      decreases table.Keys - checked, 2
    {
      if p.Select? { return None; }
      assert forall t :: Mentions(p.condition, t) ==> PropertyMentions(p, t);
      assert p.Default? ==> forall t :: Mentions(Some(p.value), t) ==> PropertyMentions(p, t);
      found := CheckExprDeps(p.condition);
      if found.None? && p.Default? { found := CheckExprDeps(Some(p.value)); }
    }

    /** `sym_check_expr_deps` on an expression of the symbol on top of the stack. */
    method CheckExprDeps(e: Option<Expr>) returns (found: Option<Symbol>)
      requires Valid() && stack != [] && forall t :: Mentions(e, t) ==> t in table && Next(t)
      modifies this
      ensures Valid() && check == old(check) && stack == old(stack)
      ensures old(checked) <= checked
      ensures old(reports) <= reports
      ensures found.Some? ==> found.value in check && reports != []
      ensures reports == [] ==> forall t :: Mentions(e, t) ==> t in finished
      decreases table.Keys - checked, 1, if e.Some? then Size(e.value) else 0
    {
      if e.None? { return None; }
      MentionsParts(e.value);
      match e.value
      case Bin(_, l, r) =>
        found := CheckOperands(l, r);
      case Not(a) =>
        found := CheckExprDeps(Some(a));
      case Cmp(_, s, t) =>
        found := CheckDeps(s);
        if found.None? { found := CheckDeps(t); }
      case Sym(s) =>
        found := CheckDeps(s);
    }

    /** The operands of AND and OR, the second one only if the first one has found nothing. */
    method CheckOperands(l: Expr, r: Expr) returns (found: Option<Symbol>)
      requires Valid() && stack != []
      requires forall t :: Mentions(Some(l), t) || Mentions(Some(r), t) ==> t in table && Next(t)
      modifies this
      ensures Valid() && check == old(check) && stack == old(stack)
      ensures old(checked) <= checked
      ensures old(reports) <= reports
      ensures found.Some? ==> found.value in check && reports != []
      ensures reports == [] ==> forall t :: Mentions(Some(l), t) || Mentions(Some(r), t) ==> t in finished
      decreases table.Keys - checked, 1, Size(l) + Size(r)
    {
      found := CheckExprDeps(Some(l));
      if found.None? { found := CheckExprDeps(Some(r)); }
    }

    /** The loop of `conf_parse` over all symbols of the table.  A loop is reported exactly if there is
        one.  The error count stays zero even then: the call that owns the loop clears the result. */
    method CheckAll(order: seq<Symbol>) returns (errors: int)
      requires Valid() && stack == [] && check == {} && checked == {} && reports == []
      requires forall s :: s in order <==> s in decls
      modifies this
      ensures errors == 0
      ensures check == {} && stack == [] && decls.Keys <= checked <= decls.Keys + LITERALS
      ensures reports != [] <==> Cyclic(CheckedReferences(decls))
      ensures forall loop :: loop in reports ==> Loop(CheckedReferences(decls), loop)
    {
      errors := 0;
      for i := 0 to |order|
        invariant Valid() && stack == [] && check == {} && errors == 0
        invariant forall s :: s in order[..i] ==> s in checked
      {
        var found := CheckDeps(order[i]);
        if found.Some? { errors := errors + 1; }
      }
      assert order[..|order|] == order;
      forall loop | loop in reports ensures Loop(CheckedReferences(decls), loop) { LoopWithoutLiterals(decls, loop); }
      if reports == [] {
        OrderedAcyclic(CheckedReferences(table), finished);
        CyclicWithLiterals(decls);
      } else {
        LoopCyclic(CheckedReferences(decls), reports[0]);
      }
    }
  }
}
