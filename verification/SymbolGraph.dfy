/** The declared symbols, what each of them refers to, and paths of references. */
module SymbolGraph {
  import opened Expressions
  import opened Comparing

  // ---------------------------------------------------------------- declarations

  /** The properties of a symbol in list order, each with its visibility condition.  `Select` is a
      property about another symbol, `Other` the definition and the like. */
  datatype Property =
    | Prompt(condition: Option<Expr>)
    | Default(condition: Option<Expr>, value: Expr)
    | Select(condition: Option<Expr>)
    | Range(condition: Option<Expr>, low: Symbol, high: Symbol)
    | Other(condition: Option<Expr>)

  /** The properties, the select bound `rev_dep` and the direct dependency `dir_dep`. */
  datatype Decl = Decl(props: seq<Property>, selected: Option<Expr>, depends: Option<Expr>)

  /** The declared symbols, and whether modules are enabled. */
  datatype Graph = Graph(decls: map<Symbol, Decl>, modules: bool)

  predicate Mentions(e: Option<Expr>, s: Symbol) { e.Some? && ContainsSymbol(e.value, s) }

  /** An expression mentions what its parts mention. */
  lemma MentionsParts(e: Expr)
    ensures e.Bin? ==> forall t :: Mentions(Some(e), t) <==> Mentions(Some(e.left), t) || Mentions(Some(e.right), t)
    ensures e.Not? ==> forall t :: Mentions(Some(e), t) <==> Mentions(Some(e.arg), t)
    ensures e.Cmp? ==> forall t :: Mentions(Some(e), t) <==> t == e.lhs || t == e.rhs
    ensures e.Sym? ==> forall t :: Mentions(Some(e), t) <==> t == e.sym
  {
  }

  predicate PropertyMentions(p: Property, s: Symbol) {
    match p
    case Prompt(c) => Mentions(c, s)
    case Default(c, v) => Mentions(c, s) || ContainsSymbol(v, s)
    case Range(c, _, _) => Mentions(c, s)
    case Other(c) => Mentions(c, s)
    case Select(_) => false
  }

  /** The range property ends at s. */
  predicate Bounds(p: Property, s: Symbol) { p.Range? && (p.low == s || p.high == s) }

  /** What the recursive dependency check follows. */
  predicate Follows(d: Decl, s: Symbol) {
    Mentions(d.selected, s) || exists p :: p in d.props && PropertyMentions(p, s)
  }

  predicate PropertyEvaluates(p: Property, s: Symbol) { !p.Other? && (PropertyMentions(p, s) || Bounds(p, s)) }

  /** What the evaluation of a symbol may evaluate. */
  predicate Evaluates(d: Decl, s: Symbol) {
    Mentions(d.selected, s) || Mentions(d.depends, s) || exists p :: p in d.props && PropertyEvaluates(p, s)
  }

  /** The search follows the select bound, the conditions of all properties but selects, and the values of
      defaults, and nothing else. */
  lemma FollowsExactly(d: Decl, t: Symbol)
    ensures Follows(d, t) <==>
            || (d.selected.Some? && ContainsSymbol(d.selected.value, t))
            || (exists p :: p in d.props && !p.Select? && p.condition.Some? && ContainsSymbol(p.condition.value, t))
            || (exists p :: p in d.props && p.Default? && ContainsSymbol(p.value, t))
  {
    if p :| p in d.props && !p.Select? && p.condition.Some? && ContainsSymbol(p.condition.value, t) {
      assert PropertyMentions(p, t);
    }
    if p :| p in d.props && p.Default? && ContainsSymbol(p.value, t) { assert PropertyMentions(p, t); }
  }

  // ---------------------------------------------------------------- references

  type Digraph = map<Symbol, set<Symbol>>

  function CheckedReferences(decls: map<Symbol, Decl>): Digraph {
    map s | s in decls :: set t | t in decls && Follows(decls[s], t)
  }

  function EvaluatedReferences(decls: map<Symbol, Decl>): Digraph {
    map s | s in decls :: set t | t in decls && IsTyped(s) && Evaluates(decls[s], t)
  }

  predicate Edge(d: Digraph, s: Symbol, t: Symbol) { s in d && t in d && t in d[s] }

  predicate Path(d: Digraph, p: seq<Symbol>) {
    |p| >= 2 && forall i :: 0 <= i < |p| - 1 ==> Edge(d, p[i], p[i + 1])
  }

  ghost predicate DependsOn(d: Digraph, s: Symbol, t: Symbol) {
    exists p :: Path(d, p) && p[0] == s && p[|p| - 1] == t
  }

  ghost predicate Cyclic(d: Digraph) { exists s :: DependsOn(d, s, s) }

  lemma EdgeDepends(d: Digraph, s: Symbol, t: Symbol)
    requires Edge(d, s, t)
    ensures DependsOn(d, s, t)
  {
    assert Path(d, [s, t]);
  }

  lemma DependsThrough(d: Digraph, s: Symbol, t: Symbol, u: Symbol)
    requires DependsOn(d, s, t) && DependsOn(d, t, u)
    ensures DependsOn(d, s, u)
  {
    var p :| Path(d, p) && p[0] == s && p[|p| - 1] == t;
    var q :| Path(d, q) && q[0] == t && q[|q| - 1] == u;
    var r := p + q[1..];
    forall i | 0 <= i < |r| - 1 ensures Edge(d, r[i], r[i + 1]) {
      if i >= |p| - 1 { assert Edge(d, q[i - |p| + 1], q[i - |p| + 2]); }
    }
    assert Path(d, r);
  }

  /** A graph with fewer references has fewer loops; those to symbols without references do not matter. */
  lemma FewerLoops(d: Digraph, e: Digraph)
    requires forall s, t, u :: Edge(d, s, t) && Edge(d, t, u) ==> Edge(e, s, t)
    ensures Cyclic(d) ==> Cyclic(e)
  {
    if s :| DependsOn(d, s, s) {
      var p :| Path(d, p) && p[0] == s && p[|p| - 1] == s;
      forall i | 0 <= i < |p| - 1 ensures Edge(e, p[i], p[i + 1]) {
        assert Edge(d, p[i], p[i + 1]);
        assert if i + 1 < |p| - 1 then Edge(d, p[i + 1], p[i + 2]) else p[i + 1] == p[0] && Edge(d, p[0], p[1]);
      }
      assert Path(e, p) && DependsOn(e, s, s);
    }
  }

  lemma NoReferences(d: Digraph)
    requires forall s, t :: !Edge(d, s, t)
    ensures !Cyclic(d)
  {
    forall p | |p| >= 2 ensures !Path(d, p) { assert !Edge(d, p[0], p[1]); }
  }

  ghost function Dependencies(d: Digraph, s: Symbol): set<Symbol> {
    set t | t in d && DependsOn(d, s, t)
  }

  ghost function Rank(d: Digraph, s: Symbol): nat { |Dependencies(d, s)| }

  lemma SmallerSet(a: set<Symbol>, b: set<Symbol>)
    requires a < b
    ensures |a| < |b|
  {
    var x :| x in b && x !in a;
    SubsetSize(a, b - {x});
  }

  lemma {:induction false} SubsetSize(a: set<Symbol>, b: set<Symbol>)
    requires a <= b
    ensures |a| <= |b|
  {
    if a != {} {
      var x :| x in a;
      SubsetSize(a - {x}, b - {x});
    }
  }

  /** Without a cycle every reference leads to a symbol of lower rank. */
  lemma RankDecreases(d: Digraph, s: Symbol, t: Symbol)
    requires !Cyclic(d) && Edge(d, s, t)
    ensures Rank(d, t) < Rank(d, s)
  {
    EdgeDepends(d, s, t);
    forall u | u in Dependencies(d, t) ensures u in Dependencies(d, s) { DependsThrough(d, s, t, u); }
    assert t in Dependencies(d, s) && t !in Dependencies(d, t);
    SmallerSet(Dependencies(d, t), Dependencies(d, s));
  }
}
