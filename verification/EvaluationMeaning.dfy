/** Evaluation on demand against the equations: on an acyclic graph there is one solution, and
    any order of evaluations stores it. */
module EvaluationMeaning {
  import opened Expressions
  import opened Comparing
  import opened SymbolGraph
  import opened Evaluation
  import opened Numbers

  // ---------------------------------------------------------------- the equations of one symbol

  ghost predicate SameAt(env1: Env, env2: Env, s: Symbol) { env1.tri(s) == env2.tri(s) && env1.str(s) == env2.str(s) }

  /** The environments agree on what the expression mentions. */
  ghost predicate SameFor(env1: Env, env2: Env, e: Option<Expr>) {
    env1.modules == env2.modules && forall s :: Mentions(e, s) ==> SameAt(env1, env2, s)
  }

  lemma SameOpt(env1: Env, env2: Env, e: Option<Expr>)
    requires SameFor(env1, env2, e)
    ensures ValOpt(env1, e) == ValOpt(env2, e)
  {
    if e.Some? {
      forall s | ContainsSymbol(e.value, s) ensures SameAt(env1, env2, s) { assert Mentions(e, s); }
      OnlyContained(env1, env2, e.value);
    }
  }

  ghost predicate SameForAll(env1: Env, env2: Env, props: seq<Property>) {
    env1.modules == env2.modules && forall p, s :: p in props && PropertyEvaluates(p, s) ==> SameAt(env1, env2, s)
  }

  lemma SameFirst(env1: Env, env2: Env, props: seq<Property>)
    requires SameForAll(env1, env2, props) && props != []
    ensures SameForAll(env1, env2, props[1..])
    ensures props[0].Prompt? || props[0].Default? || props[0].Range? ==>
              ValOpt(env1, props[0].condition) == ValOpt(env2, props[0].condition)
    ensures props[0].Default? ==>
              Val(env1, props[0].value) == Val(env2, props[0].value) &&
              (props[0].value.Sym? ==> CurrentText(env1, props[0].value.sym) == CurrentText(env2, props[0].value.sym))
    ensures props[0].Range? ==> SameAt(env1, env2, props[0].low) && SameAt(env1, env2, props[0].high)
  {
    var p := props[0];
    assert p in props;
    forall s | PropertyEvaluates(p, s) ensures SameAt(env1, env2, s) {}
    if p.Prompt? || p.Default? || p.Range? { SameOpt(env1, env2, p.condition); }
    if p.Default? {
      SameOpt(env1, env2, Some(p.value));
      if p.value.Sym? { assert PropertyEvaluates(p, p.value.sym); }
    }
    if p.Range? { assert PropertyEvaluates(p, p.low) && PropertyEvaluates(p, p.high); }
  }

  lemma {:induction false} SameProps(env1: Env, env2: Env, props: seq<Property>)
    requires SameForAll(env1, env2, props)
    ensures PromptValue(env1, props) == PromptValue(env2, props)
    ensures DefaultValue(env1, props) == DefaultValue(env2, props)
  {
    if props != [] {
      SameFirst(env1, env2, props);
      SameProps(env1, env2, props[1..]);
    }
  }

  lemma {:induction false} SameTexts(env1: Env, env2: Env, props: seq<Property>)
    requires SameForAll(env1, env2, props)
    ensures DefaultText(env1, props) == DefaultText(env2, props)
  {
    if props != [] {
      SameFirst(env1, env2, props);
      SameTexts(env1, env2, props[1..]);
    }
  }

  lemma {:induction false} SameRanges(env1: Env, env2: Env, props: seq<Property>)
    requires SameForAll(env1, env2, props)
    ensures ActiveRange(env1, props) == ActiveRange(env2, props)
    ensures var range := ActiveRange(env1, props);
            range.Some? ==> SameAt(env1, env2, range.value.0) && SameAt(env1, env2, range.value.1)
  {
    if props != [] {
      SameFirst(env1, env2, props);
      SameRanges(env1, env2, props[1..]);
    }
  }

  /** The user value of s is the same. */
  ghost predicate SameUser(users1: Users, users2: Users, s: Symbol) {
    && (s in users1.tri <==> s in users2.tri) && (s in users1.tri ==> users1.tri[s] == users2.tri[s])
    && (s in users1.text <==> s in users2.text) && (s in users1.text ==> users1.text[s] == users2.text[s])
  }

  /** The equation of a symbol depends on its own user value and on what it refers to. */
  lemma EquationLocal(g: Graph, users1: Users, users2: Users, env1: Env, env2: Env, s: Symbol)
    requires s in g.decls && env1.modules == env2.modules
    requires IsTyped(s) ==> forall t :: Evaluates(g.decls[s], t) ==> SameAt(env1, env2, t)
    requires SameUser(users1, users2, s)
    ensures Equation(g, users1, env1, s) == Equation(g, users2, env2, s)
  {
    if IsTyped(s) { TypedEquationLocal(g, users1, users2, env1, env2, s); }
  }

  lemma TypedEquationLocal(g: Graph, users1: Users, users2: Users, env1: Env, env2: Env, s: Symbol)
    requires s in g.decls && env1.modules == env2.modules && IsTyped(s)
    requires forall t :: Evaluates(g.decls[s], t) ==> SameAt(env1, env2, t)
    requires SameUser(users1, users2, s)
    ensures Equation(g, users1, env1, s) == Equation(g, users2, env2, s)
  {
    var d := g.decls[s];
    forall p, x | p in d.props && PropertyEvaluates(p, x) ensures SameAt(env1, env2, x) { assert Evaluates(d, x); }
    SameOpt(env1, env2, d.selected);
    SameOpt(env1, env2, d.depends);
    SameProps(env1, env2, d.props);
    SameTexts(env1, env2, d.props);
    SameRanges(env1, env2, d.props);
    assert Bounded(g, env1, s) == Bounded(g, env2, s);
  }

  lemma SameBelow(g: Graph, users1: Users, users2: Users, a: Table, b: Table, s: Symbol)
    requires a.Keys == b.Keys == g.decls.Keys && s in g.decls
    requires forall t :: Edge(EvaluatedReferences(g.decls), s, t) ==> a[t] == b[t]
    requires SameUser(users1, users2, s)
    ensures Equation(g, users1, EnvOf(g, a), s) == Equation(g, users2, EnvOf(g, b), s)
  {
    forall t | IsTyped(s) && Evaluates(g.decls[s], t) ensures SameAt(EnvOf(g, a), EnvOf(g, b), t) {
      if t in g.decls { assert Edge(EvaluatedReferences(g.decls), s, t); }
    }
    EquationLocal(g, users1, users2, EnvOf(g, a), EnvOf(g, b), s);
  }

  // ---------------------------------------------------------------- exactly one solution

  ghost predicate Acyclic(g: Graph) { !Cyclic(EvaluatedReferences(g.decls)) }

  ghost function RankIn(g: Graph, s: Symbol): nat { Rank(EvaluatedReferences(g.decls), s) }

  ghost function Solution(g: Graph, users: Users, s: Symbol): Cell
    requires Acyclic(g) && s in g.decls
    decreases RankIn(g, s), 1
  {
    Equation(g, users, EnvOf(g, Below(g, users, s)), s)
  }

  /** The solution for what s refers to. */
  ghost function Below(g: Graph, users: Users, s: Symbol): Table
    requires Acyclic(g) && s in g.decls
    decreases RankIn(g, s), 0
  {
    map t | t in g.decls && Edge(EvaluatedReferences(g.decls), s, t) ::
      (RankDecreases(EvaluatedReferences(g.decls), s, t); Solution(g, users, t))
  }

  ghost function SolutionTable(g: Graph, users: Users): Table
    requires Acyclic(g)
  {
    map s | s in g.decls :: Solution(g, users, s)
  }

  lemma SolutionExists(g: Graph, users: Users)
    requires Acyclic(g)
    ensures Solves(g, users, SolutionTable(g, users))
  {
    var t := SolutionTable(g, users);
    forall s | s in g.decls ensures t[s] == Equation(g, users, EnvOf(g, t), s) {
      var below := Below(g, users, s);
      forall u | IsTyped(s) && Evaluates(g.decls[s], u) ensures SameAt(EnvOf(g, below), EnvOf(g, t), u) {
        if u in g.decls { assert Edge(EvaluatedReferences(g.decls), s, u); }
      }
      EquationLocal(g, users, users, EnvOf(g, below), EnvOf(g, t), s);
    }
  }

  lemma {:induction false} SolutionsAgree(g: Graph, users: Users, a: Table, b: Table, s: Symbol)
    requires Acyclic(g) && Solves(g, users, a) && Solves(g, users, b) && s in g.decls
    ensures a[s] == b[s]
    decreases RankIn(g, s)
  {
    var d := EvaluatedReferences(g.decls);
    forall t | Edge(d, s, t) ensures a[t] == b[t] {
      RankDecreases(d, s, t);
      SolutionsAgree(g, users, a, b, t);
    }
    SameBelow(g, users, users, a, b, s);
  }

  /** On an acyclic graph the equations have exactly one solution. */
  lemma UniqueSolution(g: Graph, users: Users, t: Table)
    requires Acyclic(g)
    ensures Solves(g, users, t) <==> t == SolutionTable(g, users)
  {
    SolutionExists(g, users);
    if Solves(g, users, t) {
      forall s | s in g.decls ensures t[s] == SolutionTable(g, users)[s] {
        SolutionsAgree(g, users, t, SolutionTable(g, users), s);
      }
    }
  }

  /** A solution is a proper environment: what the expression rewriter assumes of one holds. */
  lemma SolutionSane(g: Graph, users: Users, t: Table)
    requires Solves(g, users, t)
    ensures Sane(EnvOf(g, t))
  {
    var env := EnvOf(g, t);
    forall s: Symbol | IsLogical(s) && (IsBoolean(s) || !env.modules) ensures env.tri(s) != MOD {
      if s in g.decls { assert t[s] == Equation(g, users, env, s); }
    }
  }

  /** The value of the prompts is the highest of their conditions. */
  lemma {:induction false} HighestPrompt(env: Env, props: seq<Property>)
    ensures forall p :: p in props && p.Prompt? ==> ValOpt(env, p.condition) <= PromptValue(env, props)
    ensures PromptValue(env, props) == NO ||
            exists p :: p in props && p.Prompt? && ValOpt(env, p.condition) == PromptValue(env, props)
  {
    if props != [] {
      HighestPrompt(env, props[1..]);
      assert props[0] in props && forall p :: p in props <==> p == props[0] || p in props[1..];
    }
  }

  predicate Active(env: Env, p: Property) { p.Default? && ValOpt(env, p.condition) != NO }

  /** The default is that of the first property whose condition is not `no`. */
  lemma {:induction false} FirstDefault(env: Env, props: seq<Property>, i: nat)
    requires i < |props| && Active(env, props[i]) && forall j :: 0 <= j < i ==> !Active(env, props[j])
    ensures DefaultValue(env, props) == Some(Apply(And, Val(env, props[i].value), ValOpt(env, props[i].condition)))
  {
    if i > 0 {
      assert !Active(env, props[0]) && props[1..][i - 1] == props[i];
      forall j | 0 <= j < i - 1 ensures !Active(env, props[1..][j]) { assert props[1..][j] == props[j + 1]; }
      FirstDefault(env, props[1..], i - 1);
    }
  }

  lemma {:induction false} NoDefault(env: Env, props: seq<Property>)
    ensures DefaultValue(env, props) == None <==> forall p :: p in props ==> !Active(env, p)
  {
    if props != [] {
      NoDefault(env, props[1..]);
      assert props[0] in props && forall p :: p in props <==> p == props[0] || p in props[1..];
    }
  }

  /** The text is that of the same property, if its value is a symbol. */
  lemma {:induction false} FirstText(env: Env, props: seq<Property>, i: nat)
    requires i < |props| && Active(env, props[i]) && forall j :: 0 <= j < i ==> !Active(env, props[j])
    ensures DefaultText(env, props) ==
            if props[i].value.Sym? then Some(CurrentText(env, props[i].value.sym)) else None
  {
    if i > 0 {
      assert !Active(env, props[0]) && props[1..][i - 1] == props[i];
      forall j | 0 <= j < i - 1 ensures !Active(env, props[1..][j]) { assert props[1..][j] == props[j + 1]; }
      FirstText(env, props[1..], i - 1);
    }
  }

  predicate ActiveEnds(env: Env, p: Property) { p.Range? && ValOpt(env, p.condition) != NO }

  /** The range is the first one whose condition is not `no`. */
  lemma {:induction false} FirstRange(env: Env, props: seq<Property>, i: nat)
    requires i < |props| && ActiveEnds(env, props[i]) && forall j :: 0 <= j < i ==> !ActiveEnds(env, props[j])
    ensures ActiveRange(env, props) == Some((props[i].low, props[i].high))
  {
    if i > 0 {
      assert !ActiveEnds(env, props[0]) && props[1..][i - 1] == props[i];
      forall j | 0 <= j < i - 1 ensures !ActiveEnds(env, props[1..][j]) { assert props[1..][j] == props[j + 1]; }
      FirstRange(env, props[1..], i - 1);
    }
  }

  lemma {:induction false} NoRange(env: Env, props: seq<Property>)
    ensures ActiveRange(env, props) == None <==> forall p :: p in props ==> !ActiveEnds(env, p)
    ensures (forall p :: p in props ==> !Active(env, p)) ==> DefaultText(env, props) == None
  {
    if props != [] {
      NoRange(env, props[1..]);
      assert props[0] in props && forall p :: p in props <==> p == props[0] || p in props[1..];
    }
  }

  lemma {:induction false} NoTexts(env: Env, props: seq<Property>)
    requires forall p :: p in props ==> !p.Default? && !p.Range?
    ensures DefaultValue(env, props) == None && DefaultText(env, props) == None && ActiveRange(env, props) == None
  {
    if props != [] {
      assert props[0] in props && forall p :: p in props[1..] ==> p in props;
      NoTexts(env, props[1..]);
    }
  }

  /** A selected symbol is at least as high as its selectors demand.  A visible user value is cut to
      the visibility; otherwise the first default counts.  The larger of that and the select bound
      is the value, with `m` raised where there is none. */
  lemma SolutionBounds(g: Graph, users: Users, t: Table, s: Symbol)
    requires Solves(g, users, t) && s in g.decls && IsLogical(s)
    ensures t[s].bound <= t[s].value
    ensures t[s].visible != NO && s in users.tri ==>
              t[s].value == RaiseMod(ActsBoolean(g, s), Apply(Or, Apply(And, users.tri[s], t[s].visible), t[s].bound))
    ensures t[s].visible != NO && s in users.tri ==> t[s].value <= Apply(Or, t[s].visible, t[s].bound)
    ensures t[s].visible == NO || s !in users.tri ==>
              var default := DefaultValue(EnvOf(g, t), g.decls[s].props);
              t[s].value == RaiseMod(ActsBoolean(g, s), Apply(Or, if default.Some? then default.value else NO, t[s].bound))
    ensures t[s].write <==> t[s].visible != NO || t[s].bound != NO || exists p :: p in g.decls[s].props && Active(EnvOf(g, t), p)
    ensures t[s].value != NO ==> t[s].write
  {
    assert t[s] == Equation(g, users, EnvOf(g, t), s);
    NoDefault(EnvOf(g, t), g.decls[s].props);
  }

  // ---------------------------------------------------------------- the cache

  ghost predicate Ranks(g: Graph, rank: Symbol -> nat) {
    forall s, t :: Edge(EvaluatedReferences(g.decls), s, t) ==> rank(t) < rank(s)
  }

  /** Every symbol of rank below k with the valid flag stores its part of the solution. */
  ghost predicate Agrees(t: Table, sol: Table, rank: Symbol -> nat, k: nat) {
    forall s :: s in t && s in sol && t[s].valid && rank(s) < k ==> t[s] == sol[s]
  }

  /** Symbols of rank k and above are untouched. */
  ghost predicate Untouched(t: Table, u: Table, rank: Symbol -> nat, k: nat) {
    t.Keys == u.Keys && forall s :: s in t && rank(s) >= k ==> u[s] == t[s]
  }

  ghost predicate Low(g: Graph, e: Option<Expr>, rank: Symbol -> nat, k: nat) {
    forall s :: s in g.decls && Mentions(e, s) ==> rank(s) < k
  }

  ghost predicate LowProps(g: Graph, props: seq<Property>, rank: Symbol -> nat, k: nat) {
    forall p, s :: p in props && s in g.decls && PropertyEvaluates(p, s) ==> rank(s) < k
  }

  ghost predicate Setting(g: Graph, users: Users, t: Table, sol: Table, rank: Symbol -> nat, k: nat) {
    Ranks(g, rank) && Solves(g, users, sol) && t.Keys == g.decls.Keys && Agrees(t, sol, rank, k)
  }

  lemma LowFirst(g: Graph, props: seq<Property>, rank: Symbol -> nat, k: nat)
    requires LowProps(g, props, rank, k) && props != []
    ensures LowProps(g, props[1..], rank, k)
    ensures props[0].Prompt? || props[0].Default? || props[0].Range? ==> Low(g, props[0].condition, rank, k)
    ensures props[0].Default? ==> Low(g, Some(props[0].value), rank, k)
    ensures forall s :: s in g.decls && Bounds(props[0], s) ==> rank(s) < k
  {
    assert props[0] in props;
  }

  lemma LowDecl(g: Graph, rank: Symbol -> nat, s: Symbol)
    requires Ranks(g, rank) && s in g.decls && IsTyped(s)
    ensures var k := rank(s);
            LowProps(g, g.decls[s].props, rank, k) && Low(g, g.decls[s].selected, rank, k) && Low(g, g.decls[s].depends, rank, k)
  {
    var d := EvaluatedReferences(g.decls);
    forall t | t in g.decls && Evaluates(g.decls[s], t) ensures rank(t) < rank(s) { assert Edge(d, s, t); }
  }

  lemma BothMentioned(g: Graph, e: Expr, rank: Symbol -> nat, k: nat)
    requires e.Bin? && Low(g, Some(e), rank, k)
    ensures Low(g, Some(e.left), rank, k) && Low(g, Some(e.right), rank, k)
  {
    assert forall s :: Mentions(Some(e.left), s) || Mentions(Some(e.right), s) ==> Mentions(Some(e), s);
  }

  lemma {:induction false} EvalAgrees(g: Graph, users: Users, t: Table, sol: Table, rank: Symbol -> nat, e: Expr, k: nat)
    requires Setting(g, users, t, sol, rank, k) && Low(g, Some(e), rank, k)
    ensures var (r, v) := Eval(g, users, t, e);
            Agrees(r, sol, rank, k) && Untouched(t, r, rank, k) && v == Val(EnvOf(g, sol), e)
    decreases Pending(t), 1, Size(e) + 1
  {
    match e
    case Sym(s) =>
      assert Mentions(Some(e), s);
      SymbolAgrees(g, users, t, sol, rank, s, k);
    case Not(a) =>
      assert forall s :: Mentions(Some(a), s) ==> Mentions(Some(e), s);
      EvalAgrees(g, users, t, sol, rank, a, k);
    case Bin(_, l, r) =>
      BothMentioned(g, e, rank, k);
      EvalAgrees(g, users, t, sol, rank, l, k);
      EvalAgrees(g, users, Eval(g, users, t, l).0, sol, rank, r, k);
    case Cmp(_, a, b) =>
      assert Mentions(Some(e), a) && Mentions(Some(e), b);
      CompareAgrees(g, users, t, sol, rank, e, k);
  }

  lemma SameText(g: Graph, t: Table, u: Table, s: Symbol)
    requires ValueIn(t, s) == ValueIn(u, s) && TextIn(t, s) == TextIn(u, s)
    ensures SymValue(EnvOf(g, t), s) == SymValue(EnvOf(g, u), s)
    ensures SymText(EnvOf(g, t), s) == SymText(EnvOf(g, u), s)
    ensures CurrentText(EnvOf(g, t), s) == CurrentText(EnvOf(g, u), s)
  {
  }

  lemma SymbolAgrees(g: Graph, users: Users, t: Table, sol: Table, rank: Symbol -> nat, s: Symbol, k: nat)
    requires Setting(g, users, t, sol, rank, k)
    requires s in g.decls ==> rank(s) < k
    ensures var (r, v) := Eval(g, users, t, Sym(s));
            Agrees(r, sol, rank, k) && Untouched(t, r, rank, k) && v == SymValue(EnvOf(g, sol), s) &&
            CurrentText(EnvOf(g, r), s) == CurrentText(EnvOf(g, sol), s)
    decreases Pending(t), 1, 1
  {
    CalcAgrees(g, users, t, sol, rank, s, k);
    SameText(g, Calc(g, users, t, s), sol, s);
  }

  lemma CompareAgrees(g: Graph, users: Users, t: Table, sol: Table, rank: Symbol -> nat, e: Expr, k: nat)
    requires Setting(g, users, t, sol, rank, k) && e.Cmp?
    requires forall s :: s == e.lhs || s == e.rhs ==> s in g.decls ==> rank(s) < k
    ensures var (r, v) := Eval(g, users, t, e);
            Agrees(r, sol, rank, k) && Untouched(t, r, rank, k) && v == Val(EnvOf(g, sol), e)
    decreases Pending(t), 1, 1
  {
    CalcBothAgree(g, users, t, sol, rank, e.lhs, e.rhs, k);
    var r := Calc(g, users, Calc(g, users, t, e.lhs), e.rhs);
    SameText(g, r, sol, e.lhs);
    SameText(g, r, sol, e.rhs);
  }

  lemma CalcBothAgree(g: Graph, users: Users, t: Table, sol: Table, rank: Symbol -> nat, a: Symbol, b: Symbol, k: nat)
    requires Setting(g, users, t, sol, rank, k)
    requires a in g.decls ==> rank(a) < k
    requires b in g.decls ==> rank(b) < k
    ensures var r := Calc(g, users, Calc(g, users, t, a), b);
            Agrees(r, sol, rank, k) && Untouched(t, r, rank, k) &&
            ValueIn(r, a) == ValueIn(sol, a) && ValueIn(r, b) == ValueIn(sol, b) &&
            TextIn(r, a) == TextIn(sol, a) && TextIn(r, b) == TextIn(sol, b)
    decreases Pending(t), 1, 0
  {
    CalcAgrees(g, users, t, sol, rank, a, k);
    CalcAgrees(g, users, Calc(g, users, t, a), sol, rank, b, k);
  }

  lemma EvalOptAgrees(g: Graph, users: Users, t: Table, sol: Table, rank: Symbol -> nat, e: Option<Expr>, k: nat)
    requires Setting(g, users, t, sol, rank, k) && Low(g, e, rank, k)
    ensures var (r, v) := EvalOpt(g, users, t, e);
            Agrees(r, sol, rank, k) && Untouched(t, r, rank, k) && v == ValOpt(EnvOf(g, sol), e)
    decreases Pending(t), 1, if e.Some? then Size(e.value) + 2 else 0
  {
    if e.Some? { EvalAgrees(g, users, t, sol, rank, e.value, k); }
  }

  lemma {:induction false} PromptsAgree(g: Graph, users: Users, t: Table, sol: Table, rank: Symbol -> nat, props: seq<Property>, k: nat)
    requires Setting(g, users, t, sol, rank, k) && LowProps(g, props, rank, k)
    ensures var (r, v) := Prompts(g, users, t, props);
            Agrees(r, sol, rank, k) && Untouched(t, r, rank, k) && v == PromptValue(EnvOf(g, sol), props)
    decreases Pending(t), 2, |props|
  {
    if props != [] {
      LowFirst(g, props, rank, k);
      if props[0].Prompt? {
        EvalOptAgrees(g, users, t, sol, rank, props[0].condition, k);
        PromptsAgree(g, users, EvalOpt(g, users, t, props[0].condition).0, sol, rank, props[1..], k);
      } else {
        PromptsAgree(g, users, t, sol, rank, props[1..], k);
      }
    }
  }

  lemma {:induction false} DefaultsAgree(g: Graph, users: Users, t: Table, sol: Table, rank: Symbol -> nat, props: seq<Property>, k: nat)
    requires Setting(g, users, t, sol, rank, k) && LowProps(g, props, rank, k)
    ensures var (r, v) := Defaults(g, users, t, props);
            Agrees(r, sol, rank, k) && Untouched(t, r, rank, k) && v == DefaultValue(EnvOf(g, sol), props)
    decreases Pending(t), 2, |props|
  {
    if props != [] {
      LowFirst(g, props, rank, k);
      if props[0].Default? {
        EvalOptAgrees(g, users, t, sol, rank, props[0].condition, k);
        var (t1, condition) := EvalOpt(g, users, t, props[0].condition);
        if condition == NO {
          DefaultsAgree(g, users, t1, sol, rank, props[1..], k);
        } else {
          EvalAgrees(g, users, t1, sol, rank, props[0].value, k);
        }
      } else {
        DefaultsAgree(g, users, t, sol, rank, props[1..], k);
      }
    }
  }

  lemma {:induction false} DefaultTextsAgree(g: Graph, users: Users, t: Table, sol: Table, rank: Symbol -> nat, props: seq<Property>, k: nat)
    requires Setting(g, users, t, sol, rank, k) && LowProps(g, props, rank, k)
    ensures var (r, v) := DefaultTexts(g, users, t, props);
            Agrees(r, sol, rank, k) && Untouched(t, r, rank, k) && v == DefaultText(EnvOf(g, sol), props)
    decreases Pending(t), 2, |props|
  {
    if props != [] {
      LowFirst(g, props, rank, k);
      if props[0].Default? {
        EvalOptAgrees(g, users, t, sol, rank, props[0].condition, k);
        var (t1, condition) := EvalOpt(g, users, t, props[0].condition);
        if condition == NO {
          DefaultTextsAgree(g, users, t1, sol, rank, props[1..], k);
        } else if props[0].value.Sym? {
          assert Mentions(Some(props[0].value), props[0].value.sym);
          SymbolAgrees(g, users, t1, sol, rank, props[0].value.sym, k);
        }
      } else {
        DefaultTextsAgree(g, users, t, sol, rank, props[1..], k);
      }
    }
  }

  lemma {:induction false} RangesAgree(g: Graph, users: Users, t: Table, sol: Table, rank: Symbol -> nat, props: seq<Property>, k: nat)
    requires Setting(g, users, t, sol, rank, k) && LowProps(g, props, rank, k)
    ensures var (r, v) := Ranges(g, users, t, props);
            Agrees(r, sol, rank, k) && Untouched(t, r, rank, k) && v == ActiveRange(EnvOf(g, sol), props)
    ensures var v := Ranges(g, users, t, props).1;
            v.Some? ==> forall s :: s in g.decls && (s == v.value.0 || s == v.value.1) ==> rank(s) < k
    decreases Pending(t), 2, |props|
  {
    if props != [] {
      LowFirst(g, props, rank, k);
      if props[0].Range? {
        EvalOptAgrees(g, users, t, sol, rank, props[0].condition, k);
        var (t1, condition) := EvalOpt(g, users, t, props[0].condition);
        assert Bounds(props[0], props[0].low) && Bounds(props[0], props[0].high);
        if condition == NO { RangesAgree(g, users, t1, sol, rank, props[1..], k); }
      } else {
        RangesAgree(g, users, t, sol, rank, props[1..], k);
      }
    }
  }

  lemma EndAgrees(g: Graph, users: Users, t: Table, sol: Table, rank: Symbol -> nat, s: Symbol, kind: SymbolType, k: nat)
    requires Setting(g, users, t, sol, rank, k)
    requires s in g.decls ==> rank(s) < k
    ensures var (r, v) := End(g, users, t, s, kind);
            Agrees(r, sol, rank, k) && Untouched(t, r, rank, k) && v == EndOf(EnvOf(g, sol), s, kind)
    decreases Pending(t), 1, 2
  {
    SymbolAgrees(g, users, t, sol, rank, s, k);
  }

  /** Everything but the cell of s itself is untouched from its rank on. */
  ghost predicate Around(t: Table, u: Table, rank: Symbol -> nat, s: Symbol) {
    t.Keys == u.Keys &&
    forall x :: x in t && x != s && rank(x) >= rank(s) ==> u[x] == t[x]
  }

  /** A step in the evaluation of s that has left the cell of s at c. */
  ghost predicate Step(t: Table, r: Table, sol: Table, rank: Symbol -> nat, s: Symbol, c: Cell) {
    Agrees(r, sol, rank, rank(s)) && Around(t, r, rank, s) && s in r && r[s] == c
  }

  ghost predicate At(g: Graph, users: Users, t: Table, sol: Table, rank: Symbol -> nat, s: Symbol) {
    s in t && Setting(g, users, t, sol, rank, rank(s)) && t[s].valid && IsTyped(s)
  }

  lemma StepThen(g: Graph, users: Users, t: Table, u: Table, r: Table, sol: Table, rank: Symbol -> nat, s: Symbol, c: Cell, d: Cell)
    requires At(g, users, t, sol, rank, s) && c.valid
    requires Step(t, u, sol, rank, s, c)
    ensures At(g, users, u, sol, rank, s) && (Step(u, r, sol, rank, s, d) ==> Step(t, r, sol, rank, s, d))
  {
  }

  /** Filling the cell of s is a step. */
  lemma StepStore(g: Graph, users: Users, t: Table, sol: Table, rank: Symbol -> nat, s: Symbol, c: Cell)
    requires At(g, users, t, sol, rank, s) && c.valid
    ensures Step(t, Store(t, s, c), sol, rank, s, c) && At(g, users, Store(t, s, c), sol, rank, s)
  {
  }

  /** What the visibility step stores of the solution. */
  lemma SolutionBounded(g: Graph, users: Users, sol: Table, s: Symbol)
    requires Solves(g, users, sol) && s in g.decls && IsTyped(s)
    ensures var c := Bounded(g, EnvOf(g, sol), s);
            sol[s].visible == c.visible && sol[s].bound == c.bound && sol[s].direct == c.direct && sol[s].valid
  {
    assert sol[s] == Equation(g, users, EnvOf(g, sol), s);
  }

  lemma PromptVisibilityAgrees(g: Graph, users: Users, t: Table, sol: Table, rank: Symbol -> nat, s: Symbol)
    requires At(g, users, t, sol, rank, s)
    ensures Step(t, PromptVisibility(g, users, t, s), sol, rank, s, t[s].(visible := sol[s].visible))
    decreases Pending(t), 3, 0
  {
    LowDecl(g, rank, s);
    PromptsAgree(g, users, t, sol, rank, g.decls[s].props, rank(s));
    var t1 := Prompts(g, users, t, g.decls[s].props).0;
    SolutionBounded(g, users, sol, s);
    StoreAgrees(g, users, t, t1, sol, rank, s, t[s].(visible := sol[s].visible));
  }

  /** A call that leaves the cell of s alone, and then its new content. */
  lemma StoreAgrees(g: Graph, users: Users, t: Table, u: Table, sol: Table, rank: Symbol -> nat, s: Symbol, c: Cell)
    requires At(g, users, t, sol, rank, s) && c.valid && Later(t, u)
    requires Agrees(u, sol, rank, rank(s)) && Untouched(t, u, rank, rank(s))
    ensures Step(t, Store(u, s, c), sol, rank, s, c) && Step(t, u, sol, rank, s, t[s]) && At(g, users, Store(u, s, c), sol, rank, s)
    ensures At(g, users, u, sol, rank, s)
  {
  }

  lemma LeftAlone(g: Graph, users: Users, t: Table, u: Table, sol: Table, rank: Symbol -> nat, s: Symbol)
    requires At(g, users, t, sol, rank, s) && Later(t, u)
    requires Agrees(u, sol, rank, rank(s)) && Untouched(t, u, rank, rank(s))
    ensures Step(t, u, sol, rank, s, t[s]) && At(g, users, u, sol, rank, s)
  {
  }

  lemma DirectDependencyAgrees(g: Graph, users: Users, t: Table, sol: Table, rank: Symbol -> nat, s: Symbol)
    requires At(g, users, t, sol, rank, s)
    ensures Step(t, DirectDependency(g, users, t, s), sol, rank, s, t[s].(direct := sol[s].direct))
    decreases Pending(t), 3, 0
  {
    LowDecl(g, rank, s);
    EvalOptAgrees(g, users, t, sol, rank, g.decls[s].depends, rank(s));
    var t1 := EvalOpt(g, users, t, g.decls[s].depends).0;
    SolutionBounded(g, users, sol, s);
    StoreAgrees(g, users, t, t1, sol, rank, s, t[s].(direct := sol[s].direct));
  }

  lemma SelectBoundAgrees(g: Graph, users: Users, t: Table, sol: Table, rank: Symbol -> nat, s: Symbol)
    requires At(g, users, t, sol, rank, s)
    ensures Step(t, SelectBound(g, users, t, s), sol, rank, s, t[s].(bound := sol[s].bound))
    decreases Pending(t), 3, 0
  {
    LowDecl(g, rank, s);
    SolutionBounded(g, users, sol, s);
    var selected := g.decls[s].selected;
    var t1 := t;
    if selected.Some? {
      EvalAgrees(g, users, t, sol, rank, selected.value, rank(s));
      t1 := Eval(g, users, t, selected.value).0;
    }
    StoreAgrees(g, users, t, t1, sol, rank, s, t[s].(bound := sol[s].bound));
  }

  lemma DependenciesAgree(g: Graph, users: Users, t: Table, sol: Table, rank: Symbol -> nat, s: Symbol)
    requires At(g, users, t, sol, rank, s)
    ensures Step(t, SelectBound(g, users, DirectDependency(g, users, t, s), s), sol, rank, s,
                 t[s].(direct := sol[s].direct, bound := sol[s].bound))
    decreases Pending(t), 3, 1
  {
    var c, d := t[s].(direct := sol[s].direct), t[s].(direct := sol[s].direct, bound := sol[s].bound);
    var t1 := DirectDependency(g, users, t, s);
    DirectDependencyAgrees(g, users, t, sol, rank, s);
    StepThen(g, users, t, t1, SelectBound(g, users, t1, s), sol, rank, s, c, d);
    SelectBoundAgrees(g, users, t1, sol, rank, s);
  }

  lemma VisibilityAgrees(g: Graph, users: Users, t: Table, sol: Table, rank: Symbol -> nat, s: Symbol)
    requires At(g, users, t, sol, rank, s)
    ensures Step(t, Visibility(g, users, t, s), sol, rank, s,
                 t[s].(visible := sol[s].visible, direct := sol[s].direct, bound := sol[s].bound))
    decreases Pending(t), 4, 0
  {
    var c, d := t[s].(visible := sol[s].visible), t[s].(visible := sol[s].visible, direct := sol[s].direct, bound := sol[s].bound);
    var t1 := PromptVisibility(g, users, t, s);
    PromptVisibilityAgrees(g, users, t, sol, rank, s);
    StepThen(g, users, t, t1, Visibility(g, users, t, s), sol, rank, s, c, d);
    DependenciesAgree(g, users, t1, sol, rank, s);
  }

  lemma UsedDefaultAgrees(g: Graph, users: Users, t: Table, sol: Table, rank: Symbol -> nat, s: Symbol)
    requires At(g, users, t, sol, rank, s) && t[s].visible == sol[s].visible && IsLogical(s)
    ensures var (r, default) := UsedDefault(g, users, t, s);
            Step(t, r, sol, rank, s, t[s]) &&
            default == if sol[s].visible != NO && s in users.tri then None
                       else DefaultValue(EnvOf(g, sol), g.decls[s].props)
    decreases Pending(t), 2, |g.decls[s].props| + 1
  {
    LowDecl(g, rank, s);
    if t[s].visible == NO || s !in users.tri { DefaultsAgree(g, users, t, sol, rank, g.decls[s].props, rank(s)); }
  }

  lemma OwnValueAgrees(g: Graph, users: Users, t: Table, sol: Table, rank: Symbol -> nat, s: Symbol)
    requires At(g, users, t, sol, rank, s) && IsLogical(s)
    requires t[s].visible == sol[s].visible && t[s].direct == sol[s].direct && t[s].bound == sol[s].bound
    ensures Step(t, OwnValue(g, users, t, s), sol, rank, s, sol[s])
    decreases Pending(t), 3, 0
  {
    var c := t[s].(value := NO, text := "");
    var t1 := Store(t, s, c);
    StepStore(g, users, t, sol, rank, s, c);
    UsedDefaultAgrees(g, users, t1, sol, rank, s);
    var (t2, default) := UsedDefault(g, users, t1, s);
    var t3 := OwnValue(g, users, t, s);
    SolutionBounded(g, users, sol, s);
    assert sol[s] == Equation(g, users, EnvOf(g, sol), s) == LogicalCell(g, users, EnvOf(g, sol), s);
    assert sol[s] == Combine(g, s, UserValue(users, s), c, default);
    StepThen(g, users, t1, t2, t3, sol, rank, s, c, sol[s]);
    StepStore(g, users, t2, sol, rank, s, sol[s]);
    StepThen(g, users, t, t1, t3, sol, rank, s, c, sol[s]);
  }

  lemma UsedTextAgrees(g: Graph, users: Users, t: Table, sol: Table, rank: Symbol -> nat, s: Symbol)
    requires At(g, users, t, sol, rank, s) && t[s].visible == sol[s].visible && HasText(s)
    ensures var (r, used) := UsedText(g, users, t, s);
            Step(t, r, sol, rank, s, t[s]) &&
            used == if sol[s].visible != NO && s in users.text then Some(users.text[s])
                    else DefaultText(EnvOf(g, sol), g.decls[s].props)
    decreases Pending(t), 2, |g.decls[s].props| + 1
  {
    LowDecl(g, rank, s);
    if t[s].visible == NO || s !in users.text { DefaultTextsAgree(g, users, t, sol, rank, g.decls[s].props, rank(s)); }
  }

  lemma ClampAgrees(g: Graph, users: Users, t: Table, sol: Table, rank: Symbol -> nat, s: Symbol, range: (Symbol, Symbol))
    requires At(g, users, t, sol, rank, s) && HasText(s)
    requires forall x :: x in g.decls && (x == range.0 || x == range.1) ==> rank(x) < rank(s)
    ensures Step(t, Clamp(g, users, t, s, range), sol, rank, s, t[s].(text := Clamped(EnvOf(g, sol), s.kind, range, t[s].text)))
    decreases Pending(t), 2, 0
  {
    EndStep(g, users, t, sol, rank, s, range.0);
    var (t1, low) := End(g, users, t, range.0, s.kind);
    if ValueOfText(s.kind, t[s].text) >= low {
      var c := t[s].(text := Clamped(EnvOf(g, sol), s.kind, range, t[s].text));
      HighStep(g, users, t1, sol, rank, s, range.1, c);
      StepThen(g, users, t, t1, Clamp(g, users, t, s, range), sol, rank, s, t[s], c);
    }
  }

  /** The part about the high end x. */
  lemma HighStep(g: Graph, users: Users, t: Table, sol: Table, rank: Symbol -> nat, s: Symbol, x: Symbol, c: Cell)
    requires At(g, users, t, sol, rank, s) && HasText(s)
    requires x in g.decls ==> rank(x) < rank(s)
    requires var high := EndOf(EnvOf(g, sol), x, s.kind);
             c == if ValueOfText(s.kind, t[s].text) > high then t[s].(text := TextOfValue(s.kind, high)) else t[s]
    ensures Step(t, ClampHigh(g, users, t, s, x), sol, rank, s, c)
    decreases Pending(t), 1, 4
  {
    EndStep(g, users, t, sol, rank, s, x);
  }

  /** One end x of the range is looked up, and taken if the text is outside. */
  lemma EndStep(g: Graph, users: Users, t: Table, sol: Table, rank: Symbol -> nat, s: Symbol, x: Symbol)
    requires At(g, users, t, sol, rank, s) && HasText(s)
    requires x in g.decls ==> rank(x) < rank(s)
    ensures var (t1, n) := End(g, users, t, x, s.kind);
            var c := t[s].(text := TextOfValue(s.kind, n));
            n == EndOf(EnvOf(g, sol), x, s.kind) && Step(t, t1, sol, rank, s, t[s]) && Step(t, Store(t1, s, c), sol, rank, s, c)
    decreases Pending(t), 1, 3
  {
    EndAgrees(g, users, t, sol, rank, x, s.kind, rank(s));
    var (t1, n) := End(g, users, t, x, s.kind);
    StoreAgrees(g, users, t, t1, sol, rank, s, t[s].(text := TextOfValue(s.kind, n)));
  }

  lemma ValidateAgrees(g: Graph, users: Users, t: Table, sol: Table, rank: Symbol -> nat, s: Symbol)
    requires At(g, users, t, sol, rank, s) && HasText(s)
    ensures Step(t, Validate(g, users, t, s), sol, rank, s,
                 t[s].(text := Validated(EnvOf(g, sol), s.kind, g.decls[s].props, t[s].text)))
    decreases Pending(t), 2, |g.decls[s].props| + 1
  {
    LowDecl(g, rank, s);
    if s.kind != String {
      RangesAgree(g, users, t, sol, rank, g.decls[s].props, rank(s));
      var (t1, range) := Ranges(g, users, t, g.decls[s].props);
      LeftAlone(g, users, t, t1, sol, rank, s);
      if range.Some? {
        ClampAgrees(g, users, t1, sol, rank, s, range.value);
        StepThen(g, users, t, t1, Clamp(g, users, t1, s, range.value), sol, rank, s, t[s],
                 t[s].(text := Clamped(EnvOf(g, sol), s.kind, range.value, t[s].text)));
      }
    }
  }

  lemma TextValueAgrees(g: Graph, users: Users, t: Table, sol: Table, rank: Symbol -> nat, s: Symbol)
    requires At(g, users, t, sol, rank, s) && HasText(s)
    requires t[s].visible == sol[s].visible && t[s].direct == sol[s].direct && t[s].bound == sol[s].bound
    ensures Step(t, TextValue(g, users, t, s), sol, rank, s, sol[s])
    decreases Pending(t), 3, 0
  {
    var c := t[s].(value := NO, text := "");
    var t1 := Store(t, s, c);
    StepStore(g, users, t, sol, rank, s, c);
    TextFound(g, users, t1, sol, rank, s);
    StepThen(g, users, t, t1, TextValue(g, users, t, s), sol, rank, s, c, sol[s]);
  }

  /** From the cleared value on. */
  lemma TextFound(g: Graph, users: Users, t: Table, sol: Table, rank: Symbol -> nat, s: Symbol)
    requires At(g, users, t, sol, rank, s) && HasText(s) && t[s].value == NO && t[s].text == ""
    requires t[s].visible == sol[s].visible && t[s].direct == sol[s].direct && t[s].bound == sol[s].bound
    ensures var (t1, used) := UsedText(g, users, t, s);
            Step(t, Validate(g, users, Store(t1, s, Written(t1[s], used)), s), sol, rank, s, sol[s])
    decreases Pending(t), 2, |g.decls[s].props| + 3
  {
    UsedTextAgrees(g, users, t, sol, rank, s);
    var (t1, used) := UsedText(g, users, t, s);
    StepThen(g, users, t, t1, Validate(g, users, Store(t1, s, Written(t1[s], used)), s), sol, rank, s, t[s], sol[s]);
    TextSolution(g, users, sol, s, t[s], used);
    WrittenAgrees(g, users, t1, sol, rank, s, used);
  }

  lemma TextSolution(g: Graph, users: Users, sol: Table, s: Symbol, c: Cell, used: Option<string>)
    requires Solves(g, users, sol) && s in g.decls && HasText(s) && c.valid && c.value == NO
    requires c.visible == sol[s].visible && c.direct == sol[s].direct && c.bound == sol[s].bound
    requires used == if sol[s].visible != NO && s in users.text then Some(users.text[s]) else DefaultText(EnvOf(g, sol), g.decls[s].props)
    ensures var written := Written(c, used);
            sol[s] == written.(text := Validated(EnvOf(g, sol), s.kind, g.decls[s].props, written.text))
  {
    SolutionBounded(g, users, sol, s);
    assert sol[s] == Equation(g, users, EnvOf(g, sol), s) == TextCell(g, users, EnvOf(g, sol), s);
  }

  lemma WrittenAgrees(g: Graph, users: Users, t: Table, sol: Table, rank: Symbol -> nat, s: Symbol, used: Option<string>)
    requires At(g, users, t, sol, rank, s) && HasText(s)
    ensures var written := Written(t[s], used);
            Step(t, Validate(g, users, Store(t, s, written), s), sol, rank, s,
                 written.(text := Validated(EnvOf(g, sol), s.kind, g.decls[s].props, written.text)))
    decreases Pending(t), 2, |g.decls[s].props| + 2
  {
    var c := Written(t[s], used);
    var t1 := Store(t, s, c);
    StepStore(g, users, t, sol, rank, s, c);
    ValidateAgrees(g, users, t1, sol, rank, s);
    StepThen(g, users, t, t1, Validate(g, users, t1, s), sol, rank, s, c,
             c.(text := Validated(EnvOf(g, sol), s.kind, g.decls[s].props, c.text)));
  }

  /** A cell that becomes valid. */
  lemma Started(g: Graph, users: Users, t: Table, sol: Table, rank: Symbol -> nat, s: Symbol, r: Table, c: Cell)
    requires s in t && Setting(g, users, t, sol, rank, rank(s)) && IsTyped(s)
    ensures var t1 := Store(t, s, t[s].(valid := true));
            At(g, users, t1, sol, rank, s) && (Step(t1, r, sol, rank, s, c) ==> Step(t, r, sol, rank, s, c))
  {
  }

  lemma CalcPendingAgrees(g: Graph, users: Users, t: Table, sol: Table, rank: Symbol -> nat, s: Symbol)
    requires s in t && !t[s].valid && Setting(g, users, t, sol, rank, rank(s))
    ensures Step(t, Calc(g, users, t, s), sol, rank, s, sol[s])
    decreases Pending(t), 0, 0
  {
    if IsTyped(s) {
      var t1 := Store(t, s, t[s].(valid := true));
      var t2, t3 := Visibility(g, users, t1, s), Calc(g, users, t, s);
      Started(g, users, t, sol, rank, s, t3, sol[s]);
      VisibilityAgrees(g, users, t1, sol, rank, s);
      StepThen(g, users, t1, t2, t3, sol, rank, s, t2[s], sol[s]);
      SolutionBounded(g, users, sol, s);
      if IsLogical(s) { OwnValueAgrees(g, users, t2, sol, rank, s); } else { TextValueAgrees(g, users, t2, sol, rank, s); }
    } else {
      assert sol[s] == Equation(g, users, EnvOf(g, sol), s);
    }
  }

  lemma StepBelow(t: Table, r: Table, sol: Table, rank: Symbol -> nat, s: Symbol, k: nat)
    requires s in t && s in sol && Step(t, r, sol, rank, s, sol[s]) && rank(s) < k && Agrees(t, sol, rank, k) && r.Keys == t.Keys
    requires Later(t, r)
    ensures Agrees(r, sol, rank, k) && Untouched(t, r, rank, k)
  {
    forall x | x in r && x in sol && r[x].valid && rank(x) < k ensures r[x] == sol[x] {
      if x != s && rank(x) >= rank(s) { assert r[x] == t[x]; }
    }
  }

  /** `sym_calc_value` keeps the cache in agreement with the solution and adds its symbol. */
  lemma CalcAgrees(g: Graph, users: Users, t: Table, sol: Table, rank: Symbol -> nat, s: Symbol, k: nat)
    requires Setting(g, users, t, sol, rank, k)
    requires s in g.decls ==> rank(s) < k
    ensures var r := Calc(g, users, t, s);
            Agrees(r, sol, rank, k) && Untouched(t, r, rank, k) && (s in r ==> r[s] == sol[s])
    decreases Pending(t), 0, 1
  {
    if s in t && !t[s].valid {
      CalcPendingAgrees(g, users, t, sol, rank, s);
      StepBelow(t, Calc(g, users, t, s), sol, rank, s, k);
    }
  }

  // ---------------------------------------------------------------- main results

  /** Evaluations in any order, each symbol any number of times. */
  function CalcEach(g: Graph, users: Users, t: Table, order: seq<Symbol>): (r: Table)
    requires t.Keys == g.decls.Keys
    ensures Later(t, r)
  {
    if order == [] then t else CalcEach(g, users, Calc(g, users, t, order[0]), order[1..])
  }

  /** What is valid is right. */
  ghost predicate Right(g: Graph, users: Users, t: Table) {
    Acyclic(g) && t.Keys == g.decls.Keys &&
    forall s :: s in t && t[s].valid ==> t[s] == SolutionTable(g, users)[s]
  }

  ghost function RankOf(g: Graph): Symbol -> nat { (s: Symbol) => RankIn(g, s) }

  lemma AcyclicRanks(g: Graph)
    requires Acyclic(g)
    ensures Ranks(g, RankOf(g))
  {
    forall s, t | Edge(EvaluatedReferences(g.decls), s, t) ensures RankIn(g, t) < RankIn(g, s) {
      RankDecreases(EvaluatedReferences(g.decls), s, t);
    }
  }

  /** Above every rank. */
  lemma {:induction false} Ceiling(rank: Symbol -> nat, ss: set<Symbol>) returns (k: nat)
    ensures forall s :: s in ss ==> rank(s) < k
  {
    k := 0;
    if ss != {} {
      var s :| s in ss;
      k := Ceiling(rank, ss - {s});
      if k <= rank(s) { k := rank(s) + 1; }
    }
  }

  /** One evaluation from a right cache. */
  lemma CalcRight(g: Graph, users: Users, t: Table, s: Symbol)
    requires Right(g, users, t)
    ensures var r := Calc(g, users, t, s);
            Right(g, users, r) && (s in r ==> r[s] == SolutionTable(g, users)[s])
  {
    AcyclicRanks(g);
    SolutionExists(g, users);
    var k := Ceiling(RankOf(g), g.decls.Keys);
    CalcAgrees(g, users, t, SolutionTable(g, users), RankOf(g), s, k);
  }

  lemma EvalRight(g: Graph, users: Users, t: Table, e: Expr)
    requires Right(g, users, t)
    ensures var (r, v) := Eval(g, users, t, e);
            Right(g, users, r) && v == Val(EnvOf(g, SolutionTable(g, users)), e)
  {
    AcyclicRanks(g);
    SolutionExists(g, users);
    var k := Ceiling(RankOf(g), g.decls.Keys);
    EvalAgrees(g, users, t, SolutionTable(g, users), RankOf(g), e, k);
  }

  /** Any order of evaluations from a state with all valid flags clear, whatever stale values it
      holds, stores the one solution of the equations. */
  lemma {:induction false} AnyOrder(g: Graph, users: Users, t: Table, order: seq<Symbol>)
    requires Right(g, users, t)
    ensures var r := CalcEach(g, users, t, order);
            && Right(g, users, r)
            && (forall s :: s in order && s in r ==> r[s].valid && r[s] == SolutionTable(g, users)[s])
            && ((forall s :: s in g.decls ==> s in order) ==> r == SolutionTable(g, users))
    decreases |order|
  {
    if order != [] {
      CalcRight(g, users, t, order[0]);
      AnyOrder(g, users, Calc(g, users, t, order[0]), order[1..]);
    }
  }

  /** The user values are the same but for that of x. */
  predicate SameUsersBut(users: Users, other: Users, x: Symbol) {
    users.tri - {x} == other.tri - {x} && users.text - {x} == other.text - {x}
  }

  lemma SameUserAt(users: Users, other: Users, x: Symbol, s: Symbol)
    requires SameUsersBut(users, other, x) && s != x
    ensures SameUser(users, other, s)
  {
    assert (s in users.tri <==> s in users.tri - {x}) && (s in other.tri <==> s in other.tri - {x});
    assert (s in users.text <==> s in users.text - {x}) && (s in other.text <==> s in other.text - {x});
    assert s in users.tri ==> users.tri[s] == (users.tri - {x})[s] == (other.tri - {x})[s];
    assert s in users.text ==> users.text[s] == (users.text - {x})[s] == (other.text - {x})[s];
  }

  lemma SetOne(users: Users, x: Symbol, v: Tristate, text: string)
    ensures SameUsersBut(users, WithValue(users, x, v), x) && SameUsersBut(users, WithText(users, x, text), x)
  {
    assert users.tri[x := v] - {x} == users.tri - {x} && users.text[x := text] - {x} == users.text - {x};
  }

  /** Only the symbols that depend on x notice its user value. */
  lemma {:induction false} OthersKeep(g: Graph, users: Users, other: Users, x: Symbol, s: Symbol)
    requires Acyclic(g) && s in g.decls && s != x && !DependsOn(EvaluatedReferences(g.decls), s, x)
    requires SameUsersBut(users, other, x)
    ensures SolutionTable(g, other)[s] == SolutionTable(g, users)[s]
    decreases RankIn(g, s)
  {
    var d := EvaluatedReferences(g.decls);
    var a, b := SolutionTable(g, other), SolutionTable(g, users);
    forall t | Edge(d, s, t) ensures a[t] == b[t] {
      RankDecreases(d, s, t);
      EdgeDepends(d, s, t);
      if DependsOn(d, t, x) { DependsThrough(d, s, t, x); }
      OthersKeep(g, users, other, x, t);
    }
    SolutionExists(g, users);
    SolutionExists(g, other);
    SameUserAt(users, other, x, s);
    SameBelow(g, other, users, a, b, s);
  }

  /** The cell of x itself is that of its equation in either solution. */
  lemma OwnEquation(g: Graph, users: Users, other: Users, x: Symbol)
    requires Acyclic(g) && x in g.decls && SameUsersBut(users, other, x)
    ensures var (a, b) := (SolutionTable(g, other), SolutionTable(g, users));
            a[x] == Equation(g, other, EnvOf(g, b), x) && b[x] == Equation(g, users, EnvOf(g, b), x)
  {
    var d := EvaluatedReferences(g.decls);
    var a, b := SolutionTable(g, other), SolutionTable(g, users);
    forall t | Edge(d, x, t) ensures a[t] == b[t] {
      EdgeDepends(d, x, t);
      if DependsOn(d, t, x) { DependsThrough(d, x, t, x); }
      OthersKeep(g, users, other, x, t);
    }
    SolutionExists(g, users);
    SolutionExists(g, other);
    SameBelow(g, other, other, a, b, x);
  }

  lemma EquationUser(g: Graph, users: Users, env: Env, x: Symbol, v: Tristate)
    requires x in g.decls && IsLogical(x)
    ensures var (a, b, boolean) := (Equation(g, WithValue(users, x, v), env, x), Equation(g, users, env, x), ActsBoolean(g, x));
            && a == (if b.visible == NO then b
                     else b.(value := RaiseMod(boolean, Apply(Or, Apply(And, v, b.visible), b.bound))))
            && b.bound <= b.value && (boolean ==> b.visible != MOD && b.bound != MOD && b.value != MOD)
  {
    assert Equation(g, WithValue(users, x, v), env, x) == LogicalCell(g, WithValue(users, x, v), env, x);
    assert Equation(g, users, env, x) == LogicalCell(g, users, env, x);
  }

  /** What a new user value makes of the cell of its symbol: visibility and select bound stay. */
  lemma UserCell(g: Graph, users: Users, x: Symbol, v: Tristate)
    requires Acyclic(g) && x in g.decls && IsLogical(x)
    ensures var (a, b, boolean) := (SolutionTable(g, WithValue(users, x, v))[x], SolutionTable(g, users)[x], ActsBoolean(g, x));
            && a == (if b.visible == NO then b
                     else b.(value := RaiseMod(boolean, Apply(Or, Apply(And, v, b.visible), b.bound))))
            && b.bound <= b.value && (boolean ==> b.visible != MOD && b.bound != MOD && b.value != MOD)
  {
    SetOne(users, x, v, "");
    OwnEquation(g, users, WithValue(users, x, v), x);
    EquationUser(g, users, EnvOf(g, SolutionTable(g, users)), x, v);
  }

  /** `sym_tristate_within_range` */
  predicate WithinRange(g: Graph, c: Cell, s: Symbol, v: Tristate) {
    && c.visible != NO && IsLogical(s) && !(ActsBoolean(g, s) && v == MOD)
    && c.visible > c.bound && c.bound <= v <= c.visible
  }

  /** A value different from the current one is accepted exactly if setting it would make it the
      symbol's value and the prompt visibility is not just the select bound. */
  lemma AcceptedTakesEffect(g: Graph, users: Users, x: Symbol, v: Tristate)
    requires Acyclic(g) && x in g.decls && IsLogical(x) && SolutionTable(g, users)[x].value != v
    ensures var c := SolutionTable(g, users)[x];
            WithinRange(g, c, x, v) <==> SolutionTable(g, WithValue(users, x, v))[x].value == v && c.visible != c.bound
  {
    UserCell(g, users, x, v);
    var c := SolutionTable(g, users)[x];
    if c.visible != NO { Effect(ActsBoolean(g, x), v, c.visible, c.bound, c.value); }
  }

  lemma Effect(boolean: bool, v: Tristate, visible: Tristate, bound: Tristate, before: Tristate)
    requires visible != NO && bound <= before && before != v && (boolean ==> visible != MOD && bound != MOD && before != MOD)
    ensures !(boolean && v == MOD) && visible > bound && bound <= v <= visible <==>
            RaiseMod(boolean, Apply(Or, Apply(And, v, visible), bound)) == v && visible != bound
  {
  }

  /** Setting a symbol to the value it has keeps the whole solution exactly if the symbol is invisible, or
      the value does not exceed the visibility or is the select bound. */
  lemma SameValueKeeps(g: Graph, users: Users, x: Symbol, v: Tristate)
    requires Acyclic(g) && x in g.decls && IsLogical(x) && SolutionTable(g, users)[x].value == v
    ensures var (a, b) := (SolutionTable(g, WithValue(users, x, v)), SolutionTable(g, users));
            && (a == b <==> b[x].visible == NO || v <= b[x].visible || v == b[x].bound)
            && (a == b <==> a[x] == b[x])
  {
    var a, b := SolutionTable(g, WithValue(users, x, v)), SolutionTable(g, users);
    UserCell(g, users, x, v);
    SetOne(users, x, v, "");
    if b[x].visible != NO { SameOwnValue(ActsBoolean(g, x), v, b[x].visible, b[x].bound); }
    if a[x] == b[x] { OneCellDecides(g, users, WithValue(users, x, v), x); }
  }

  lemma SameOwnValue(boolean: bool, v: Tristate, visible: Tristate, bound: Tristate)
    requires visible != NO && bound <= v && (boolean ==> v != MOD && visible != MOD && bound != MOD)
    ensures RaiseMod(boolean, Apply(Or, Apply(And, v, visible), bound)) == v <==> v <= visible || v == bound
  {
  }

  /** If the cell of x is the same with the new user value, everything is. */
  lemma OneCellDecides(g: Graph, users: Users, other: Users, x: Symbol)
    requires Acyclic(g) && x in g.decls && SameUsersBut(users, other, x)
    requires SolutionTable(g, other)[x] == SolutionTable(g, users)[x]
    ensures SolutionTable(g, other) == SolutionTable(g, users)
  {
    var a, b := SolutionTable(g, other), SolutionTable(g, users);
    forall s | s in g.decls ensures a[s] == b[s] { OneCellDecidesFor(g, users, other, x, s); }
  }

  lemma {:induction false} OneCellDecidesFor(g: Graph, users: Users, other: Users, x: Symbol, s: Symbol)
    requires Acyclic(g) && x in g.decls && SameUsersBut(users, other, x) && s in g.decls
    requires SolutionTable(g, other)[x] == SolutionTable(g, users)[x]
    ensures SolutionTable(g, other)[s] == SolutionTable(g, users)[s]
    decreases RankIn(g, s)
  {
    if s != x {
      var a, b := SolutionTable(g, other), SolutionTable(g, users);
      forall t | Edge(EvaluatedReferences(g.decls), s, t) ensures a[t] == b[t] {
        RankDecreases(EvaluatedReferences(g.decls), s, t);
        OneCellDecidesFor(g, users, other, x, t);
      }
      SolutionExists(g, users);
      SolutionExists(g, other);
      SameUserAt(users, other, x, s);
      SameBelow(g, other, users, a, b, s);
    }
  }

  // ---------------------------------------------------------------- texts

  /** The number of the text lies in the range. */
  predicate InRange(env: Env, kind: SymbolType, range: (Symbol, Symbol), text: string) {
    EndOf(env, range.0, kind) <= ValueOfText(kind, text) <= EndOf(env, range.1, kind)
  }

  lemma NumberOfText(kind: SymbolType, n: int)
    requires (kind == Int || kind == Hex) && -INT_HALF <= n < INT_HALF
    ensures ValueOfText(kind, TextOfValue(kind, n)) == n
  {
    if kind == Int { NumberDecimal(n); } else { NumberHexadecimal(n); }
  }

  /** A text is kept exactly if it is in the range, and what replaces it is exactly if there is anything in
      the range. */
  lemma ClampedExactly(env: Env, kind: SymbolType, range: (Symbol, Symbol), text: string)
    requires kind == Int || kind == Hex
    ensures Clamped(env, kind, range, text) == text <==> InRange(env, kind, range, text)
    ensures InRange(env, kind, range, Clamped(env, kind, range, text)) <==> EndOf(env, range.0, kind) <= EndOf(env, range.1, kind)
    ensures var (low, high, n) := (EndOf(env, range.0, kind), EndOf(env, range.1, kind), ValueOfText(kind, text));
            ValueOfText(kind, Clamped(env, kind, range, text)) == if n < low then low else if n > high then high else n
  {
    NumberOfText(kind, EndOf(env, range.0, kind));
    NumberOfText(kind, EndOf(env, range.1, kind));
  }

  /** The end of a range has the value of its number: in the base of its own type, or for a constant in that of
      the symbol with the range. */
  lemma EndsRead(env: Env, s: Symbol, kind: SymbolType, n: int)
    requires (kind == Int || kind == Hex) && -INT_HALF <= n < INT_HALF
    ensures s.Config? && s.kind == Int && env.str(s) == Decimal(n) ==> EndOf(env, s, kind) == n
    ensures s.Config? && s.kind == Hex && env.str(s) == Hexadecimal(n) ==> EndOf(env, s, kind) == n
    ensures s == Const(TextOfValue(kind, n)) ==> EndOf(env, s, kind) == n
  {
    NumberDecimal(n);
    NumberHexadecimal(n);
  }

  /** The range that the text of a symbol has to be in. */
  function RangeOf(env: Env, kind: SymbolType, props: seq<Property>): Option<(Symbol, Symbol)> {
    if kind == String then None else ActiveRange(env, props)
  }

  /** A visible user text, or else the text of the default, as far as the range allows, which is written if there
      is either or a prompt that is visible; in a solution a number
      lies in its range exactly if the range is not empty. */
  lemma SolutionTexts(g: Graph, users: Users, t: Table, s: Symbol)
    requires Solves(g, users, t) && s in g.decls && HasText(s)
    ensures t[s].write <==> t[s].visible != NO || DefaultText(EnvOf(g, t), g.decls[s].props).Some?
    ensures var env, props := EnvOf(g, t), g.decls[s].props;
            && (t[s].visible != NO && s in users.text ==> t[s].text == Validated(env, s.kind, props, users.text[s]))
            && (t[s].visible == NO || s !in users.text ==>
                  var default := DefaultText(env, props);
                  t[s].text == Validated(env, s.kind, props, if default.Some? then default.value else ""))
            && var range := RangeOf(env, s.kind, props);
               range.Some? ==> (InRange(env, s.kind, range.value, t[s].text) <==> EndOf(env, range.value.0, s.kind) <= EndOf(env, range.value.1, s.kind))
  {
    var env, props := EnvOf(g, t), g.decls[s].props;
    assert t[s] == Equation(g, users, env, s) == TextCell(g, users, env, s);
    var range := RangeOf(env, s.kind, props);
    if range.Some? {
      var default := DefaultText(env, props);
      ClampedExactly(env, s.kind, range.value,
                     if t[s].visible != NO && s in users.text then users.text[s] else if default.Some? then default.value else "");
    }
  }

  function WithText(users: Users, s: Symbol, text: string): Users { users.(text := users.text[s := text]) }

  lemma EquationText(g: Graph, users: Users, env: Env, x: Symbol, text: string)
    requires x in g.decls && HasText(x)
    ensures var (a, b) := (Equation(g, WithText(users, x, text), env, x), Equation(g, users, env, x));
            var range := RangeOf(env, x.kind, g.decls[x].props);
            && a.visible == b.visible && (b.visible == NO ==> a == b)
            && (b.visible != NO ==> (a.text == text <==> range == None || InRange(env, x.kind, range.value, text)))
  {
    assert Equation(g, WithText(users, x, text), env, x) == TextCell(g, WithText(users, x, text), env, x);
    assert Equation(g, users, env, x) == TextCell(g, users, env, x);
    var range := RangeOf(env, x.kind, g.decls[x].props);
    if range.Some? { ClampedExactly(env, x.kind, range.value, text); }
  }

  /** A new user text is the text of a visible symbol exactly if it is in the range; that of an invisible
      one changes nothing. */
  lemma TextTakesEffect(g: Graph, users: Users, x: Symbol, text: string)
    requires Acyclic(g) && x in g.decls && HasText(x)
    ensures var (a, b) := (SolutionTable(g, WithText(users, x, text)), SolutionTable(g, users));
            var range := RangeOf(EnvOf(g, b), x.kind, g.decls[x].props);
            && a[x].visible == b[x].visible
            && (b[x].visible == NO ==> a == b)
            && (b[x].visible != NO ==> (a[x].text == text <==> range == None || InRange(EnvOf(g, b), x.kind, range.value, text)))
  {
    var a, b := SolutionTable(g, WithText(users, x, text)), SolutionTable(g, users);
    SetOne(users, x, NO, text);
    OwnEquation(g, users, WithText(users, x, text), x);
    EquationText(g, users, EnvOf(g, b), x, text);
    if b[x].visible == NO { OneCellDecides(g, users, WithText(users, x, text), x); }
  }

  // ---------------------------------------------------------------- values that are not kept

  const NOTHING_SET := Users(map[], map[])

  /** A tristate whose prompt has the condition m, with the default y and the given select bound. */
  function LateDefault(x: Symbol, selected: Option<Expr>): Graph {
    Graph(map[x := Decl([Prompt(Some(Sym(SYMBOL_MOD))), Default(None, YES_EXPR)], selected, None)], true)
  }

  lemma LateDefaultAcyclic(x: Symbol, selected: Option<Expr>)
    requires x.Config? && (selected == None || selected == Some(Sym(SYMBOL_MOD)))
    ensures Acyclic(LateDefault(x, selected))
  {
    var d := LateDefault(x, selected).decls[x];
    assert forall p :: p in d.props ==> p == d.props[0] || p == d.props[1];
    assert !Evaluates(d, x);
    NoReferences(EvaluatedReferences(LateDefault(x, selected).decls));
  }

  lemma LateDefaultValues(env: Env)
    ensures var props := [Prompt(Some(Sym(SYMBOL_MOD))), Default(None, YES_EXPR)];
            PromptValue(env, props) == MOD && DefaultValue(env, props) == Some(YES)
  {
    var props := [Prompt(Some(Sym(SYMBOL_MOD))), Default(None, YES_EXPR)];
    assert props[1..] == [Default(None, YES_EXPR)];
    HighestPrompt(env, props);
    assert props[0] in props && ValOpt(env, props[0].condition) == MOD;
  }

  lemma LateDefaultCell(x: Symbol, selected: Option<Expr>, users: Users)
    requires IsTristate(x) && (selected == None || selected == Some(Sym(SYMBOL_MOD)))
    ensures var g, bound := LateDefault(x, selected), if selected.Some? then MOD else NO;
            && Acyclic(g)
            && SolutionTable(g, users)[x] ==
                 Cell(true, true, if x in users.tri then Apply(Or, Apply(And, users.tri[x], MOD), bound) else YES, MOD, bound, YES, "")
  {
    var g := LateDefault(x, selected);
    LateDefaultAcyclic(x, selected);
    SolutionExists(g, users);
    var env := EnvOf(g, SolutionTable(g, users));
    LateDefaultValues(env);
    assert SolutionTable(g, users)[x] == Equation(g, users, env, x);
  }

  /** Where the visibility is just the select bound, a value that would take effect is refused. */
  lemma EffectiveButRefused(x: Symbol)
    requires IsTristate(x)
    ensures var g := LateDefault(x, Some(Sym(SYMBOL_MOD)));
            Acyclic(g) && SolutionTable(g, NOTHING_SET)[x].value == YES && SolutionTable(g, WithValue(NOTHING_SET, x, MOD))[x].value == MOD &&
            !WithinRange(g, SolutionTable(g, NOTHING_SET)[x], x, MOD)
  {
    LateDefaultCell(x, Some(Sym(SYMBOL_MOD)), NOTHING_SET);
    LateDefaultCell(x, Some(Sym(SYMBOL_MOD)), WithValue(NOTHING_SET, x, MOD));
  }

  /** A default above the visibility: setting the symbol to the value it has changes the value. */
  lemma SameValueChanges(x: Symbol)
    requires IsTristate(x)
    ensures var g := LateDefault(x, None);
            Acyclic(g) && SolutionTable(g, NOTHING_SET)[x].value == YES && SolutionTable(g, WithValue(NOTHING_SET, x, YES))[x].value == MOD
  {
    LateDefaultCell(x, None, NOTHING_SET);
    LateDefaultCell(x, None, WithValue(NOTHING_SET, x, YES));
  }

  /** On an acyclic graph there is one value per symbol, whatever the order of the evaluations and
      whatever stale values they start from. */
  lemma OrderIrrelevant(g: Graph, users: Users, t: Table, order: seq<Symbol>)
    requires Acyclic(g) && t.Keys == g.decls.Keys && (forall s :: s in t ==> !t[s].valid)
    requires forall s :: s in g.decls ==> s in order
    ensures Solves(g, users, CalcEach(g, users, t, order))
    ensures forall u :: Solves(g, users, u) ==> u == CalcEach(g, users, t, order)
  {
    AnyOrder(g, users, t, order);
    forall u ensures Solves(g, users, u) <==> u == SolutionTable(g, users) { UniqueSolution(g, users, u); }
  }
}
