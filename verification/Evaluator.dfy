/** The evaluator in the form of the source: the symbols' cells are overwritten in place. */
module Evaluator {
  import opened Expressions
  import opened Numbers
  import opened SymbolGraph
  import opened Evaluation
  import opened EvaluationMeaning

  ghost predicate Cleared(t: Table) { forall s :: s in t ==> !t[s].valid }

  function Invalidated(t: Table): (r: Table)
    ensures r.Keys == t.Keys && Cleared(r)
  {
    map s | s in t :: t[s].(valid := false)
  }

  /** The table after all valid flags are cleared and the symbol for modules is evaluated. */
  function Restarted(g: Graph, users: Users, t: Table, modulesSymbol: Option<Symbol>): Table
    requires t.Keys == g.decls.Keys
  {
    if modulesSymbol.Some? then Calc(g, users, Invalidated(t), modulesSymbol.value) else Invalidated(t)
  }

  class Solver {
    const graph: Graph
    /** The user values, with the flag SYMBOL_DEF_USER. */
    var users: Users
    var table: Table

    /** Nothing is valid yet. */
    constructor (graph: Graph, users: Users)
      ensures this.graph == graph && this.users == users && Valid() && Cleared(table)
    {
      this.graph, this.users := graph, users;
      table := map s | s in graph.decls :: Cell(false, false, NO, NO, NO, NO, "");
    }

    ghost predicate Valid()
      reads this
    {
      table.Keys == graph.decls.Keys
    }

    /** `sym_calc_value` */
    method CalcValue(s: Symbol)
      requires Valid()
      modifies this`table
      ensures Valid() && table == Calc(graph, users, old(table), s)
      decreases Pending(table), 0, 0
    {
      if s !in table || table[s].valid { return; }
      table := Store(table, s, table[s].(valid := true));
      if !IsLogical(s) && !HasText(s) {
        table := Store(table, s, UNTYPED);
        return;
      }
      CalcVisibility(s);
      if IsLogical(s) { CalcOwnValue(s); } else { CalcTextValue(s); }
    }

    /** The user text or that of the first active default, and the range it has to be in. */
    method CalcTextValue(s: Symbol)
      requires Valid() && s in table && table[s].valid && HasText(s)
      modifies this`table
      ensures Valid() && table == TextValue(graph, users, old(table), s)
      decreases Pending(table), 5, 0
    {
      table := Store(table, s, table[s].(value := NO, text := ""));
      ghost var cleared := table;
      var used: Option<string> := None;
      if table[s].visible != NO && s in users.text {
        used := Some(users.text[s]);
      } else {
        used := CalcDefaultText(graph.decls[s].props);
      }
      assert (table, used) == UsedText(graph, users, cleared, s);
      table := Store(table, s, Written(table[s], used));
      ValidateRange(s);
    }

    method CalcDefaultText(props: seq<Property>) returns (used: Option<string>)
      requires Valid()
      modifies this`table
      ensures Valid() && (table, used) == DefaultTexts(graph, users, old(table), props)
      decreases Pending(table), 3, 0
    {
      for i := 0 to |props|
        invariant Valid() && Pending(table) <= Pending(old(table))
        invariant DefaultTexts(graph, users, old(table), props) == DefaultTexts(graph, users, table, props[i..])
      {
        assert props[i..][0] == props[i] && props[i..][1..] == props[i + 1..];
        if props[i].Default? {
          var condition := ConditionValue(props[i].condition);
          if condition != NO {
            if !props[i].value.Sym? { return None; }
            CalcValue(props[i].value.sym);
            return Some(CurrentText(EnvOf(graph, table), props[i].value.sym));
          }
        }
      }
      used := None;
    }

    /** `sym_validate_range` */
    method ValidateRange(s: Symbol)
      requires Valid() && s in table && table[s].valid && HasText(s)
      modifies this`table
      ensures Valid() && table == Validate(graph, users, old(table), s)
      decreases Pending(table), 4, 0
    {
      if s.kind == String { return; }
      var range := CalcRange(graph.decls[s].props);
      if range.Some? { ClampText(s, range.value); }
    }

    /** The text against the range that is active. */
    method ClampText(s: Symbol, range: (Symbol, Symbol))
      requires Valid() && s in table && table[s].valid && HasText(s)
      modifies this`table
      ensures Valid() && table == Clamp(graph, users, old(table), s, range)
      decreases Pending(table), 3, 0
    {
      var value := ValueOfText(s.kind, table[s].text);
      var low := RangeEnd(range.0, s.kind);
      if value < low {
        table := Store(table, s, table[s].(text := TextOfValue(s.kind, low)));
      } else {
        ClampTextHigh(s, range.1);
      }
    }

    method ClampTextHigh(s: Symbol, x: Symbol)
      requires Valid() && s in table && table[s].valid && HasText(s)
      modifies this`table
      ensures Valid() && table == ClampHigh(graph, users, old(table), s, x)
      decreases Pending(table), 2, 0
    {
      ghost var before := table;
      var value := ValueOfText(s.kind, table[s].text);
      var high := RangeEnd(x, s.kind);
      assert (table, high) == End(graph, users, before, x, s.kind);
      if value > high { table := Store(table, s, table[s].(text := TextOfValue(s.kind, high))); }
    }

    /** `sym_get_range_prop` */
    method CalcRange(props: seq<Property>) returns (range: Option<(Symbol, Symbol)>)
      requires Valid()
      modifies this`table
      ensures Valid() && (table, range) == Ranges(graph, users, old(table), props)
      decreases Pending(table), 3, 0
    {
      for i := 0 to |props|
        invariant Valid() && Pending(table) <= Pending(old(table))
        invariant Ranges(graph, users, old(table), props) == Ranges(graph, users, table, props[i..])
      {
        assert props[i..][0] == props[i] && props[i..][1..] == props[i + 1..];
        if props[i].Range? {
          var condition := ConditionValue(props[i].condition);
          if condition != NO { return Some((props[i].low, props[i].high)); }
        }
      }
      range := None;
    }

    /** `sym_get_range_val` */
    method RangeEnd(s: Symbol, kind: SymbolType) returns (n: int)
      requires Valid()
      modifies this`table
      ensures Valid() && (table, n) == End(graph, users, old(table), s, kind)
      decreases Pending(table), 1, 0
    {
      CalcValue(s);
      n := EndOf(EnvOf(graph, table), s, kind);
    }

    /** The user value or the first active default, and the select bound. */
    method CalcOwnValue(s: Symbol)
      requires Valid() && s in table && table[s].valid
      modifies this`table
      ensures Valid() && table == OwnValue(graph, users, old(table), s)
      decreases Pending(table), 4, 0
    {
      table := Store(table, s, table[s].(value := NO, text := ""));
      ghost var settled := table;
      var default: Option<Tristate> := None;
      if table[s].visible == NO || s !in users.tri {
        default := CalcDefault(graph.decls[s].props);
      }
      assert (table, default) == UsedDefault(graph, users, settled, s);
      table := Store(table, s, Combine(graph, s, UserValue(users, s), table[s], default));
    }

    /** `sym_calc_visibility` */
    method CalcVisibility(s: Symbol)
      requires Valid() && s in table && table[s].valid
      modifies this`table
      ensures Valid() && table == Visibility(graph, users, old(table), s)
      decreases Pending(table), 4, 0
    {
      var boolean := ActsBoolean(graph, s);
      var prompts := CalcPrompts(graph.decls[s].props);
      table := Store(table, s, table[s].(visible := RaiseMod(boolean, prompts)));
      ghost var visible := table;
      assert visible == PromptVisibility(graph, users, old(table), s);
      var direct := ConditionValue(graph.decls[s].depends);
      table := Store(table, s, table[s].(direct := RaiseMod(true, direct)));
      ghost var dependent := table;
      assert dependent == DirectDependency(graph, users, visible, s);
      CalcSelectBound(s);
    }

    method CalcSelectBound(s: Symbol)
      requires Valid() && s in table && table[s].valid
      modifies this`table
      ensures Valid() && table == SelectBound(graph, users, old(table), s)
      decreases Pending(table), 3, 0
    {
      var bound := NO;
      if graph.decls[s].selected.Some? { bound := ExprValue(graph.decls[s].selected.value); }
      table := Store(table, s, table[s].(bound := RaiseMod(IsLogical(s) && ActsBoolean(graph, s), bound)));
    }

    /** The loop over the prompts. */
    method CalcPrompts(props: seq<Property>) returns (tri: Tristate)
      requires Valid()
      modifies this`table
      ensures Valid() && (table, tri) == Prompts(graph, users, old(table), props)
      decreases Pending(table), 3, 0
    {
      tri := NO;
      for i := 0 to |props|
        invariant Valid() && Pending(table) <= Pending(old(table))
        invariant var (r, v) := Prompts(graph, users, table, props[i..]);
                  Prompts(graph, users, old(table), props) == (r, Apply(Or, tri, v))
      {
        assert props[i..][0] == props[i] && props[i..][1..] == props[i + 1..];
        if props[i].Prompt? {
          var v := ConditionValue(props[i].condition);
          tri := Apply(Or, tri, v);
        }
      }
    }

    /** `sym_get_default_prop`, and the value of the property it finds. */
    method CalcDefault(props: seq<Property>) returns (default: Option<Tristate>)
      requires Valid()
      modifies this`table
      ensures Valid() && (table, default) == Defaults(graph, users, old(table), props)
      decreases Pending(table), 3, 0
    {
      for i := 0 to |props|
        invariant Valid() && Pending(table) <= Pending(old(table))
        invariant Defaults(graph, users, old(table), props) == Defaults(graph, users, table, props[i..])
      {
        assert props[i..][0] == props[i] && props[i..][1..] == props[i + 1..];
        if props[i].Default? {
          var condition := ConditionValue(props[i].condition);
          if condition != NO {
            var value := ExprValue(props[i].value);
            return Some(Apply(And, value, condition));
          }
        }
      }
      default := None;
    }

    /** `expr_calc_value`, for which the null expression is `yes` */
    method ConditionValue(e: Option<Expr>) returns (v: Tristate)
      requires Valid()
      modifies this`table
      ensures Valid() && (table, v) == EvalOpt(graph, users, old(table), e)
      decreases Pending(table), 2, 0
    {
      if e.None? { return YES; }
      v := ExprValue(e.value);
    }

    method ExprValue(e: Expr) returns (v: Tristate)
      requires Valid()
      modifies this`table
      ensures Valid() && (table, v) == Eval(graph, users, old(table), e)
      decreases Pending(table), 1, Size(e)
    {
      match e
      case Sym(s) =>
        CalcValue(s);
        v := SymValue(EnvOf(graph, table), s);
      case Not(a) =>
        v := ExprValue(a);
        v := Negate(v);
      case Bin(op, l, r) =>
        v := ExprValue(l);
        var w := ExprValue(r);
        v := Apply(op, v, w);
      case Cmp(equal, a, b) =>
        CalcValue(a);
        CalcValue(b);
        v := OfBool((SymText(EnvOf(graph, table), a) == SymText(EnvOf(graph, table), b)) == equal);
    }

    /** `sym_clear_all_valid`, which evaluates the symbol for modules at once. */
    method ClearAllValid(modulesSymbol: Option<Symbol>)
      requires Valid()
      modifies this`table
      ensures Valid() && table == Restarted(graph, users, old(table), modulesSymbol)
      ensures if modulesSymbol.None? then Cleared(table) else modulesSymbol.value in table ==> table[modulesSymbol.value].valid
      ensures Acyclic(graph) ==> Right(graph, users, table)
    {
      table := Invalidated(table);
      if modulesSymbol.Some? {
        if Acyclic(graph) { CalcRight(graph, users, table, modulesSymbol.value); }
        CalcValue(modulesSymbol.value);
      }
    }

    /** `sym_set_tristate_value`.  A new value that is accepted is what every later evaluation finds,
        and no symbol that does not depend on this one changes.  The value the symbol already has is
        accepted without evaluating anything again; what is valid stays right exactly if the user
        value makes no difference. */
    method SetTristateValue(s: Symbol, v: Tristate, modulesSymbol: Option<Symbol>) returns (ok: bool)
      requires Valid() && s in table
      modifies this
      ensures Valid()
      ensures ok <==> old(table)[s].value == v || WithinRange(graph, old(table)[s], s, v)
      ensures !ok ==> users == old(users) && table == old(table)
      ensures ok ==> users == WithValue(old(users), s, v)
      ensures ok && old(table)[s].value != v ==> table == Restarted(graph, users, old(table), modulesSymbol)
      ensures old(table)[s].value == v ==> table == old(table)
      ensures ok && old(table)[s].value != v && old(table)[s].valid && Right(graph, old(users), old(table)) ==>
                && Right(graph, users, table) && SolutionTable(graph, users)[s].value == v
                && forall x :: x in table && x != s && !DependsOn(EvaluatedReferences(graph.decls), x, s) ==>
                     SolutionTable(graph, users)[x] == SolutionTable(graph, old(users))[x]
      ensures old(table)[s].value == v && old(table)[s].valid && IsLogical(s) && Right(graph, old(users), old(table)) ==>
                var c := old(table)[s];
                Right(graph, users, table) <==> c.visible == NO || v <= c.visible || v == c.bound
    {
      ghost var before := users;
      var oldValue := table[s].value;
      if oldValue != v && !WithinRange(graph, table[s], s, v) { return false; }
      users := WithValue(users, s, v);
      ok := true;
      if oldValue == v && table[s].valid && IsLogical(s) && Right(graph, before, table) { SameValueKeeps(graph, before, s, v); }
      if oldValue != v {
        if table[s].valid && Right(graph, before, table) {
          AcceptedTakesEffect(graph, before, s, v);
          SetOne(before, s, v, "");
          forall x | x in table && x != s && !DependsOn(EvaluatedReferences(graph.decls), x, s)
            ensures SolutionTable(graph, users)[x] == SolutionTable(graph, before)[x]
          {
            OthersKeep(graph, before, users, s, x);
          }
        }
        ClearAllValid(modulesSymbol);
      }
    }
  }
}
