/** The menu code rewrites the conditions of entries that are not tristate with `expr_trans_bool`.
    Prompts and defaults do not notice; a tristate that a boolean selects does. */
module VisibilityRewrite {
  import opened Expressions
  import opened Elimination
  import opened Joining
  import opened DuplicateMeaning
  import opened Transformation
  import opened Comparing
  import opened MenuForest
  import opened MenuDependencies
  import opened MenuTree
  import opened MenuCollect
  import opened MenuFinalize
  import opened MenuOwners
  import opened MenuRelays
  import opened MenuGraph
  import opened SymbolGraph
  import opened Evaluation
  import opened EvaluationMeaning

  // ---------------------------------------------------------------- rewritten conditions

  predicate IsRewritten(info: Info, k: Id) { k in info.sym && !IsTristate(info.sym[k]) }

  function RewrittenSeq(conditions: seq<Option<Expr>>): (r: seq<Option<Expr>>)
    ensures |r| == |conditions|
  {
    seq(|conditions|, (i: nat) requires i < |conditions| => TransBoolOpt(conditions[i]))
  }

  /** The conditions c of the properties after the last step of the loop that hands them down. */
  function Rewritten(info: Info, c: Conditions): Conditions {
    c.(visible := map k | k in c.visible :: if IsRewritten(info, k) then RewrittenSeq(c.visible[k]) else c.visible[k])
  }

  /** What `expr_transform` has left of the conditions. */
  ghost predicate NormalConditions(c: Conditions) { forall k: Id, i: nat :: Normal(ConditionAt(c, k, i)) }

  lemma RewrittenAt(info: Info, c: Conditions, k: Id, i: nat)
    ensures PropertyCount(Rewritten(info, c), k) == PropertyCount(c, k)
    ensures ConditionAt(Rewritten(info, c), k, i) ==
            if IsRewritten(info, k) then TransBoolOpt(ConditionAt(c, k, i)) else ConditionAt(c, k, i)
  {
  }

  /** The same once `mod` is taken for `yes`. */
  predicate SameRaised(a: Tristate, b: Tristate) { RaiseMod(true, a) == RaiseMod(true, b) }

  /** Without modules no tristate is `m`, and the rewriting is exact. */
  lemma {:induction false} TransBoolExact(env: Env, e: Expr)
    requires Sane(env) && !env.modules
    ensures Val(env, TransBool(e)) == Val(env, e)
  {
    if e.Bin? {
      TransBoolExact(env, e.left);
      TransBoolExact(env, e.right);
    } else if e.Not? {
      TransBoolExact(env, e.arg);
    }
  }

  lemma RewrittenCondition(env: Env, c: Option<Expr>)
    requires Sane(env) && Normal(c)
    ensures SameRaised(ValOpt(env, TransBoolOpt(c)), ValOpt(env, c))
    ensures !env.modules ==> ValOpt(env, TransBoolOpt(c)) == ValOpt(env, c)
  {
    if c.Some? {
      TransBoolValue(env, c.value);
      if !env.modules { TransBoolExact(env, c.value); }
    }
  }

  // ---------------------------------------------------------------- prompts and defaults

  function WithCondition(p: Property, c: Option<Expr>): Property {
    match p
    case Prompt(_) => Prompt(c)
    case Default(_, v) => Default(c, v)
    case Select(_) => Select(c)
    case Range(_, low, high) => Property.Range(c, low, high)
    case Other(_) => Other(c)
  }

  /** Some of the properties, whose conditions are in normal form, have been rewritten. */
  ghost predicate PropsRewritten(ps: seq<Property>, qs: seq<Property>) {
    |ps| == |qs| && forall i :: 0 <= i < |ps| ==>
      qs[i] == ps[i] || (Normal(ps[i].condition) && qs[i] == WithCondition(ps[i], TransBoolOpt(ps[i].condition)))
  }

  /** What a symbol takes from its prompts and defaults is the same once `mod` is taken for `yes`, and so are
      its texts and ranges. */
  lemma {:induction false} PromptsAndDefaults(env: Env, ps: seq<Property>, qs: seq<Property>)
    requires Sane(env) && PropsRewritten(ps, qs)
    ensures SameRaised(PromptValue(env, qs), PromptValue(env, ps))
    ensures var (d, e) := (DefaultValue(env, qs), DefaultValue(env, ps));
            (d.Some? <==> e.Some?) && (d.Some? ==> SameRaised(d.value, e.value))
    ensures DefaultText(env, qs) == DefaultText(env, ps) && ActiveRange(env, qs) == ActiveRange(env, ps)
  {
    if ps != [] {
      if Normal(ps[0].condition) { RewrittenCondition(env, ps[0].condition); }
      PromptsAndDefaults(env, ps[1..], qs[1..]);
    }
  }

  lemma EntryRewritten(info: Info, c: Conditions, k: Id)
    requires NormalConditions(c)
    ensures PropsRewritten(EntryProperties(info, c, k), EntryProperties(info, Rewritten(info, c), k))
    ensures !IsRewritten(info, k) ==> EntryProperties(info, Rewritten(info, c), k) == EntryProperties(info, c, k)
  {
    forall i: nat
      ensures PropertyCount(Rewritten(info, c), k) == PropertyCount(c, k)
      ensures ConditionAt(Rewritten(info, c), k, i) ==
              if IsRewritten(info, k) then TransBoolOpt(ConditionAt(c, k, i)) else ConditionAt(c, k, i)
    {
      RewrittenAt(info, c, k, i);
    }
  }

  lemma {:induction false} SymbolRewritten(info: Info, c: Conditions, entries: seq<Id>, s: Symbol)
    requires NormalConditions(c)
    ensures PropsRewritten(SymbolProperties(info, c, entries, s), SymbolProperties(info, Rewritten(info, c), entries, s))
    ensures IsTristate(s) ==> SymbolProperties(info, Rewritten(info, c), entries, s) == SymbolProperties(info, c, entries, s)
  {
    if entries != [] {
      EntryRewritten(info, c, entries[0]);
      SymbolRewritten(info, c, entries[1..], s);
    }
  }

  // ---------------------------------------------------------------- select bounds

  /** Property i of entry k selects the target. */
  predicate SelectsAt(info: Info, k: Id, i: nat, target: Symbol) {
    k in info.sym && KindAt(info, k, i) == Selects(target)
  }

  /** What a select property demands of its target: the symbol of the entry and the condition. */
  function Demand(env: Env, info: Info, c: Conditions, k: Id, i: nat): Tristate
    requires k in info.sym
  {
    Apply(And, SymValue(env, info.sym[k]), ValOpt(env, ConditionAt(c, k, i)))
  }

  function BoundValue(env: Env, e: Option<Expr>): Tristate { if e.None? then NO else Val(env, e.value) }

  lemma {:induction false} HighestOfEntry(env: Env, info: Info, c: Conditions, k: Id, n: nat, target: Symbol, e: Option<Expr>)
    ensures var v := BoundValue(env, EntrySelects(info, c, k, n, target, e));
            && BoundValue(env, e) <= v
            && (forall i: nat :: i < n && SelectsAt(info, k, i, target) ==> Demand(env, info, c, k, i) <= v)
            && (v == BoundValue(env, e) || exists i: nat :: i < n && SelectsAt(info, k, i, target) && Demand(env, info, c, k, i) == v)
  {
    if n > 0 {
      HighestOfEntry(env, info, c, k, n - 1, target, e);
      if SelectsAt(info, k, n - 1, target) {
        assert Demand(env, info, c, k, n - 1) ==
               BoundValue(env, AllocAnd(Some(Sym(info.sym[k])), ConditionAt(c, k, n - 1)));
      }
    }
  }

  /** One of the entries demands v of the target. */
  ghost predicate Demanded(env: Env, info: Info, c: Conditions, order: seq<Id>, target: Symbol, v: Tristate) {
    exists k, i: nat :: k in order && i < PropertyCount(c, k) && SelectsAt(info, k, i, target) && Demand(env, info, c, k, i) == v
  }

  /** The select bound is the highest demand. */
  lemma {:induction false} HighestSelect(env: Env, info: Info, c: Conditions, order: seq<Id>, target: Symbol)
    ensures var v := BoundValue(env, SelectsFrom(info, c, order, target));
            && (forall k, i: nat :: k in order && i < PropertyCount(c, k) && SelectsAt(info, k, i, target) ==>
                  Demand(env, info, c, k, i) <= v)
            && (v == NO || Demanded(env, info, c, order, target, v))
  {
    if order != [] {
      var n := |order| - 1;
      HighestSelect(env, info, c, order[..n], target);
      HighestOfEntry(env, info, c, order[n], PropertyCount(c, order[n]), target, SelectsFrom(info, c, order[..n], target));
      assert forall k :: k in order <==> k in order[..n] || k == order[n];
    }
  }

  /** Demands that are nowhere lower make a bound that is not lower, as they are or with `mod` raised. */
  lemma BoundsOrdered(env: Env, info: Info, c: Conditions, d: Conditions, order: seq<Id>, target: Symbol, raised: bool)
    requires forall k: Id :: PropertyCount(c, k) == PropertyCount(d, k)
    requires forall k, i: nat :: k in order && SelectsAt(info, k, i, target) ==>
               RaiseMod(raised, Demand(env, info, c, k, i)) <= RaiseMod(raised, Demand(env, info, d, k, i))
    ensures RaiseMod(raised, BoundValue(env, SelectsFrom(info, c, order, target))) <=
            RaiseMod(raised, BoundValue(env, SelectsFrom(info, d, order, target)))
  {
    HighestSelect(env, info, c, order, target);
    HighestSelect(env, info, d, order, target);
    var v := BoundValue(env, SelectsFrom(info, c, order, target));
    if v != NO {
      var k, i: nat :| k in order && i < PropertyCount(c, k) && SelectsAt(info, k, i, target) && Demand(env, info, c, k, i) == v;
      assert Demand(env, info, d, k, i) <= BoundValue(env, SelectsFrom(info, d, order, target));
    }
  }

  /** A boolean selects the target. */
  ghost predicate SelectedByBoolean(info: Info, order: seq<Id>, target: Symbol) {
    exists k, i: nat :: k in order && SelectsAt(info, k, i, target) && IsBoolean(info.sym[k])
  }

  /** Entries are about symbols that can be configured. */
  ghost predicate Configures(info: Info) { forall k :: k in info.sym ==> info.sym[k].Config? }

  lemma RewrittenDemand(env: Env, info: Info, c: Conditions, k: Id, i: nat)
    requires Sane(env) && NormalConditions(c) && k in info.sym && info.sym[k].Config?
    ensures var (a, b) := (Demand(env, info, Rewritten(info, c), k, i), Demand(env, info, c, k, i));
            SameRaised(a, b) && (!IsBoolean(info.sym[k]) || !env.modules ==> a == b)
  {
    RewrittenAt(info, c, k, i);
    RewrittenCondition(env, ConditionAt(c, k, i));
  }

  lemma RewrittenBound(env: Env, info: Info, c: Conditions, order: seq<Id>, target: Symbol)
    requires Sane(env) && NormalConditions(c) && Configures(info)
    ensures var (a, b) := (BoundValue(env, SelectsFrom(info, Rewritten(info, c), order, target)),
                           BoundValue(env, SelectsFrom(info, c, order, target)));
            SameRaised(a, b) && (!SelectedByBoolean(info, order, target) || !env.modules ==> a == b)
  {
    var d := Rewritten(info, c);
    forall k: Id ensures PropertyCount(d, k) == PropertyCount(c, k) { RewrittenAt(info, c, k, 0); }
    forall k, i: nat | k in order && SelectsAt(info, k, i, target)
      ensures SameRaised(Demand(env, info, d, k, i), Demand(env, info, c, k, i))
      ensures !SelectedByBoolean(info, order, target) || !env.modules ==> Demand(env, info, d, k, i) == Demand(env, info, c, k, i)
    {
      RewrittenDemand(env, info, c, k, i);
    }
    BoundsOrdered(env, info, c, d, order, target, true);
    BoundsOrdered(env, info, d, c, order, target, true);
    if !SelectedByBoolean(info, order, target) || !env.modules {
      BoundsOrdered(env, info, c, d, order, target, false);
      BoundsOrdered(env, info, d, c, order, target, false);
    }
  }

  // ---------------------------------------------------------------- the graph that the conditions make

  lemma {:induction false} SameDirect(info: Info, c: Conditions, d: Conditions, order: seq<Id>, s: Symbol)
    requires c.dep == d.dep
    ensures DirectFrom(info, c, order, s) == DirectFrom(info, d, order, s)
  {
    if order != [] { SameDirect(info, c, d, order[..|order| - 1], s); }
  }

  /** A symbol whose select bound can be `m`. */
  predicate TakesMod(s: Symbol) { IsTristate(s) || HasText(s) }

  lemma BoundedUnchanged(info: Info, c: Conditions, l: Listing, env: Env, s: Symbol)
    requires NormalConditions(c) && Configures(info) && Sane(env) && env.modules == l.modules && s in l.table && IsTyped(s)
    requires !(l.modules && TakesMod(s) && SelectedByBoolean(info, l.handed, s))
    ensures Bounded(GraphFrom(info, Rewritten(info, c), l), env, s) == Bounded(GraphFrom(info, c, l), env, s)
  {
    var d := Rewritten(info, c);
    SymbolRewritten(info, c, l.entries, s);
    RewrittenBound(env, info, c, l.handed, s);
    SameDirect(info, c, d, l.entered, s);
    PromptsAndDefaults(env, DeclFrom(info, c, l, s).props, DeclFrom(info, d, l, s).props);
  }

  /** The equation of a symbol is the same with and without the rewriting, unless a boolean selects a
      tristate, or a text, while there are modules. */
  lemma EquationUnchanged(info: Info, c: Conditions, l: Listing, users: Users, env: Env, s: Symbol)
    requires NormalConditions(c) && Configures(info) && Sane(env) && env.modules == l.modules && s in l.table
    requires !(l.modules && TakesMod(s) && SelectedByBoolean(info, l.handed, s))
    ensures Equation(GraphFrom(info, Rewritten(info, c), l), users, env, s) == Equation(GraphFrom(info, c, l), users, env, s)
  {
    if IsTyped(s) {
      BoundedUnchanged(info, c, l, env, s);
      SymbolRewritten(info, c, l.entries, s);
      var g, h := GraphFrom(info, c, l), GraphFrom(info, Rewritten(info, c), l);
      if IsLogical(s) { LogicalUnchanged(g, h, users, env, s); } else { TextUnchanged(g, h, users, env, s); }
    }
  }

  lemma LogicalUnchanged(g: Graph, h: Graph, users: Users, env: Env, s: Symbol)
    requires Sane(env) && s in g.decls && s in h.decls && g.modules == h.modules && IsLogical(s)
    requires PropsRewritten(g.decls[s].props, h.decls[s].props) && (IsTristate(s) ==> g.decls[s].props == h.decls[s].props)
    requires Bounded(g, env, s) == Bounded(h, env, s)
    ensures LogicalCell(h, users, env, s) == LogicalCell(g, users, env, s)
  {
    PromptsAndDefaults(env, g.decls[s].props, h.decls[s].props);
  }

  lemma TextUnchanged(g: Graph, h: Graph, users: Users, env: Env, s: Symbol)
    requires Sane(env) && s in g.decls && s in h.decls && g.modules == h.modules && HasText(s)
    requires PropsRewritten(g.decls[s].props, h.decls[s].props) && Bounded(g, env, s) == Bounded(h, env, s)
    ensures TextCell(h, users, env, s) == TextCell(g, users, env, s)
  {
    PromptsAndDefaults(env, g.decls[s].props, h.decls[s].props);
  }

  /** A boolean selects a tristate, or a text, of the table while there are modules. */
  ghost predicate BooleanSelects(info: Info, l: Listing) {
    l.modules && exists s :: s in l.table && TakesMod(s) && SelectedByBoolean(info, l.handed, s)
  }

  /** Then the rewriting leaves exactly the same solutions. */
  lemma SolutionsUnchanged(info: Info, c: Conditions, l: Listing, users: Users, t: Table)
    requires NormalConditions(c) && Configures(info) && !BooleanSelects(info, l)
    ensures Solves(GraphFrom(info, Rewritten(info, c), l), users, t) <==> Solves(GraphFrom(info, c, l), users, t)
  {
    var g, h := GraphFrom(info, c, l), GraphFrom(info, Rewritten(info, c), l);
    assert EnvOf(h, t) == EnvOf(g, t);
    if Solves(h, users, t) { SolutionSane(h, users, t); }
    if Solves(g, users, t) { SolutionSane(g, users, t); }
    if Sane(EnvOf(g, t)) {
      forall s | s in l.table ensures Equation(h, users, EnvOf(g, t), s) == Equation(g, users, EnvOf(g, t), s) {
        EquationUnchanged(info, c, l, users, EnvOf(g, t), s);
      }
    }
  }

  /** With the values that the evaluation stores, every entry of the finished menus that is not ruled
      out has an owner that is enabled, if no list has the pattern of a relay. */
  lemma OwnersInSolution(g: Graph, users: Users, t: Table, info: Info, c: Conditions, d: Conditions,
                         root: Id, kids: Forest)
    requires Solves(g, users, t) && kids.Node? && !Relay(info, kids)
    requires Shaped(info, c) && HandedDown(info, c, d, root, kids) && Normal(Guard(info, d, root))
    requires Logical(info) && forall x: Id ::
               TypedOpt(Guard(info, d, x)) && (Guard(info, d, x).Some? ==> NotsDefinite(EnvOf(g, t), Guard(info, d, x).value))
    ensures Owned(info, d, EnvOf(g, t), On(info, d, EnvOf(g, t), root), Finalized(info, d, root, kids, Nil).0)
  {
    SolutionSane(g, users, t);
    FinishedOwners(info, c, d, EnvOf(g, t), root, kids);
  }
}
