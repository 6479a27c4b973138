/** `expr_trans_compare`, `expr_trans_bool` and the symbol queries that guide the menu code. */
module Comparing {
  import opened Expressions
  import opened Joining
  import opened Transformation

  // ---------------------------------------------------------------- expr_trans_compare

  /** The expression "e = c" (or "e != c") for one of the targets y and n. */
  function TransCompare(e: Expr, equal: bool, c: Symbol): Expr
    requires c == SYMBOL_YES || c == SYMBOL_NO
  {
    match e
    case Bin(op, l, r) =>
      var l', r' := TransCompare(l, true, c), TransCompare(r, true, c);
      var both := Bin(if c == SYMBOL_YES then op else Dual(op), l', r');
      if equal then both else Not(both)
    case Not(a) => TransCompare(a, !equal, c)
    case Cmp(_, _, _) => if equal == (c == SYMBOL_YES) then e else Not(e)
    case Sym(s) => Cmp(equal, s, c)
  }

  /** The null expression stands for y. */
  function TransCompareOpt(e: Option<Expr>, equal: bool, c: Symbol): Expr
    requires c == SYMBOL_YES || c == SYMBOL_NO
  {
    if e.Some? then TransCompare(e.value, equal, c)
    else if equal then Sym(c) else Not(Sym(c))
  }

  /** Every symbol used as an operand is boolean, tristate or one of the literals y, m, n. */
  predicate Typed(e: Expr) {
    match e
    case Sym(s) => IsLogical(s) || IsLiteral(s)
    case Not(a) => Typed(a)
    case Bin(_, l, r) => Typed(l) && Typed(r)
    case Cmp(_, _, _) => true
  }

  /** No NOT of e is applied to the value `mod`. */
  predicate NotsDefinite(env: Env, e: Expr) {
    match e
    case Sym(_) => true
    case Not(a) => Val(env, a) != MOD && NotsDefinite(env, a)
    case Bin(_, l, r) => NotsDefinite(env, l) && NotsDefinite(env, r)
    case Cmp(_, _, _) => true
  }

  /** "e compares so", as a value. */
  function Compared(env: Env, v: Tristate, equal: bool, c: Symbol): Tristate {
    OfBool((v == SymValue(env, c)) == equal)
  }

  lemma SymbolCompared(env: Env, s: Symbol, equal: bool, c: Symbol)
    requires Sane(env) && (IsLogical(s) || IsLiteral(s)) && (c == SYMBOL_YES || c == SYMBOL_NO)
    ensures Val(env, Cmp(equal, s, c)) == Compared(env, SymValue(env, s), equal, c)
  {
    assert "y"[0] != "n"[0] && "y"[0] != "m"[0] && "m"[0] != "n"[0];
  }

  /** The result is never `mod`, and it is the comparison of e with the target whenever e itself
      is not `mod`, or no NOT in e is applied to `mod`. */
  lemma {:induction false} TransCompareValue(env: Env, e: Expr, equal: bool, c: Symbol)
    requires Sane(env) && Typed(e) && (c == SYMBOL_YES || c == SYMBOL_NO)
    ensures Val(env, TransCompare(e, equal, c)) != MOD
    ensures Val(env, e) != MOD || NotsDefinite(env, e) ==>
              Val(env, TransCompare(e, equal, c)) == Compared(env, Val(env, e), equal, c)
  {
    LiteralValues(env);
    match e
    case Bin(op, l, r) =>
      TransCompareValue(env, l, true, c);
      TransCompareValue(env, r, true, c);
    case Not(a) => TransCompareValue(env, a, !equal, c);
    case Cmp(_, _, _) =>
    case Sym(s) => SymbolCompared(env, s, equal, c);
  }

  lemma {:induction false} ModFreeNots(env: Env, e: Expr)
    requires ModFree(env) && NoModLiteral(e)
    ensures NotsDefinite(env, e)
  {
    match e
    case Sym(_) =>
    case Not(a) => TwoValued(env, a); ModFreeNots(env, a);
    case Bin(_, l, r) => ModFreeNots(env, l); ModFreeNots(env, r);
    case Cmp(_, _, _) =>
  }

  /** NOT stands over comparisons and the literals y and n only. */
  predicate NotsOverComparisons(e: Expr) {
    match e
    case Sym(_) => true
    case Not(a) => ComparisonsOnly(a)
    case Bin(_, l, r) => NotsOverComparisons(l) && NotsOverComparisons(r)
    case Cmp(_, _, _) => true
  }

  predicate ComparisonsOnly(e: Expr) {
    match e
    case Sym(s) => s == SYMBOL_YES || s == SYMBOL_NO
    case Not(a) => ComparisonsOnly(a)
    case Bin(_, l, r) => ComparisonsOnly(l) && ComparisonsOnly(r)
    case Cmp(_, _, _) => true
  }

  lemma {:induction false} ComparisonsDefinite(env: Env, e: Expr)
    ensures ComparisonsOnly(e) ==> Val(env, e) != MOD && NotsDefinite(env, e)
    ensures NotsOverComparisons(e) ==> NotsDefinite(env, e)
  {
    match e
    case Sym(_) => LiteralValues(env);
    case Not(a) => ComparisonsDefinite(env, a);
    case Bin(_, l, r) => ComparisonsDefinite(env, l); ComparisonsDefinite(env, r);
    case Cmp(_, _, _) =>
  }

  /** Exact without `mod`; and exact in all three values when NOT is only used over comparisons. */
  lemma TransCompareExact(env: Env, e: Expr, equal: bool, c: Symbol)
    requires Sane(env) && Typed(e) && (c == SYMBOL_YES || c == SYMBOL_NO)
    requires (ModFree(env) && NoModLiteral(e)) || NotsOverComparisons(e)
    ensures Val(env, TransCompare(e, equal, c)) == Compared(env, Val(env, e), equal, c)
  {
    if NotsOverComparisons(e) { ComparisonsDefinite(env, e); } else { ModFreeNots(env, e); }
    TransCompareValue(env, e, equal, c);
  }

  /** Exactness for every expression is the absence of `mod` among the symbols. */
  lemma TransCompareNeedsModFree(env: Env)
    requires Sane(env)
    ensures ModFree(env) <==>
            forall e: Expr, equal: bool, c: Symbol ::
              Typed(e) && NoModLiteral(e) && (c == SYMBOL_YES || c == SYMBOL_NO) ==>
                Val(env, TransCompare(e, equal, c)) == Compared(env, Val(env, e), equal, c)
  {
    if ModFree(env) {
      forall e: Expr, equal: bool, c: Symbol |
        Typed(e) && NoModLiteral(e) && (c == SYMBOL_YES || c == SYMBOL_NO)
        ensures Val(env, TransCompare(e, equal, c)) == Compared(env, Val(env, e), equal, c)
      {
        TransCompareExact(env, e, equal, c);
      }
    } else {
      var s: Symbol :| IsLogical(s) && env.tri(s) == MOD;
      NotOfMod(env, s);
    }
  }

  /** !s compares as not `n` when s is `mod`, but not after the NOT has changed the comparison. */
  lemma NotOfMod(env: Env, s: Symbol)
    requires Sane(env) && IsLogical(s) && env.tri(s) == MOD
    ensures var e := Not(Sym(s));
            && Typed(e) && NoModLiteral(e)
            && Val(env, TransCompare(e, false, SYMBOL_NO)) != Compared(env, Val(env, e), false, SYMBOL_NO)
  {
    var e := Not(Sym(s));
    ComparisonValues(env, s);
    LiteralValues(env);
    assert Typed(Sym(s)) && NoModLiteral(Sym(s)) && Val(env, Sym(s)) == MOD;
    assert Val(env, e) == MOD;
    assert TransCompare(e, false, SYMBOL_NO) == Eq(s, SYMBOL_NO);
  }

  /** Typing is needed as well: for a bare symbol the comparison is exact in every environment
      exactly when the symbol is boolean, tristate or a literal.  An undefined symbol has the
      value n but its text is its name, so "symbol != n" holds for it. */
  lemma TransCompareNeedsTypes(s: Symbol)
    requires s.Config? ==> s.name != "y" && s.name != "m" && s.name != "n"
    ensures Typed(Sym(s)) <==>
            forall env: Env :: Sane(env) ==>
              Val(env, TransCompare(Sym(s), false, SYMBOL_NO)) == Compared(env, Val(env, Sym(s)), false, SYMBOL_NO)
  {
    if Typed(Sym(s)) {
      forall env: Env | Sane(env)
        ensures Val(env, TransCompare(Sym(s), false, SYMBOL_NO)) == Compared(env, Val(env, Sym(s)), false, SYMBOL_NO)
      {
        SymbolCompared(env, s, false, SYMBOL_NO);
      }
    } else {
      var env := Env((x: Symbol) => NO, (x: Symbol) => "x", false);
      assert Sane(env);
      assert "x"[0] != "n"[0];
      LiteralValues(env);
      assert Val(env, TransCompare(Sym(s), false, SYMBOL_NO)) != Compared(env, Val(env, Sym(s)), false, SYMBOL_NO);
    }
  }

  // ---------------------------------------------------------------- expr_trans_bool

  /** Replaces FOO != n by FOO for tristate symbols. */
  function TransBool(e: Expr): Expr {
    match e
    case Bin(op, l, r) => Bin(op, TransBool(l), TransBool(r))
    case Not(a) => Not(TransBool(a))
    case Cmp(equal, s1, s2) => if !equal && IsTristate(s1) && s2 == SYMBOL_NO then Sym(s1) else e
    case Sym(_) => e
  }

  /** Some tristate is tested for not being n. */
  predicate TestsNotNo(e: Expr) {
    match e
    case Bin(_, l, r) => TestsNotNo(l) || TestsNotNo(r)
    case Not(a) => TestsNotNo(a)
    case Cmp(equal, s1, s2) => !equal && IsTristate(s1) && s2 == SYMBOL_NO
    case Sym(_) => false
  }

  /** No such test is left anywhere, and an expression without one is left alone. */
  lemma {:induction false} TransBoolComplete(e: Expr)
    ensures !TestsNotNo(TransBool(e))
    ensures !TestsNotNo(e) <==> TransBool(e) == e
  {
    if e.Bin? {
      TransBoolComplete(e.left);
      TransBoolComplete(e.right);
    } else if e.Not? {
      TransBoolComplete(e.arg);
    }
  }

  /** `mod` counts as `yes` for everything that is not a tristate. */
  function Promote(v: Tristate): Tristate { if v == NO then NO else YES }

  /** After `expr_transform` the rewrite never changes whether the value is `no`, so the
      visibility of a symbol that is not a tristate is the same with and without it. */
  lemma {:induction false} TransBoolValue(env: Env, e: Expr)
    requires Sane(env) && NormalForm(e)
    ensures Promote(Val(env, TransBool(e))) == Promote(Val(env, e))
  {
    match e
    case Bin(_, l, r) => TransBoolValue(env, l); TransBoolValue(env, r);
    case Not(_) =>
    case Cmp(_, s, _) => if IsTristate(s) { ComparisonValues(env, s); }
    case Sym(_) =>
  }

  /** Without the normal form it can: !(s != n) is `no` for s = m, but !s is `mod`. */
  lemma TransBoolNeedsNormalForm(env: Env, s: Symbol)
    requires Sane(env) && IsTristate(s) && env.tri(s) == MOD
    ensures Promote(Val(env, TransBool(Not(Ne(s, SYMBOL_NO))))) != Promote(Val(env, Not(Ne(s, SYMBOL_NO))))
  {
    ComparisonValues(env, s);
    LiteralValues(env);
  }

  // ---------------------------------------------------------------- symbol queries

  predicate ContainsSymbol(dep: Expr, s: Symbol) {
    match dep
    case Bin(_, l, r) => ContainsSymbol(l, s) || ContainsSymbol(r, s)
    case Sym(t) => t == s
    case Cmp(_, t, u) => t == s || u == s
    case Not(a) => ContainsSymbol(a, s)
  }

  /** Some conjunct of dep is s, s = y, s = m or s != n. */
  predicate DependsSymbol(dep: Expr, s: Symbol) {
    match dep
    case Bin(op, l, r) => op == And && (DependsSymbol(l, s) || DependsSymbol(r, s))
    case Sym(t) => t == s
    case Cmp(equal, t, u) => t == s && (if equal then u == SYMBOL_YES || u == SYMBOL_MOD else u == SYMBOL_NO)
    case Not(_) => false
  }

  lemma {:induction false} DependsContains(dep: Expr, s: Symbol)
    requires DependsSymbol(dep, s)
    ensures ContainsSymbol(dep, s)
  {
    if dep.Bin? {
      if DependsSymbol(dep.left, s) { DependsContains(dep.left, s); } else { DependsContains(dep.right, s); }
    }
  }

  /** A value depends only on the symbols the expression contains. */
  lemma {:induction false} OnlyContained(env1: Env, env2: Env, e: Expr)
    requires env1.modules == env2.modules
    requires forall s: Symbol :: ContainsSymbol(e, s) ==> env1.tri(s) == env2.tri(s) && env1.str(s) == env2.str(s)
    ensures Val(env1, e) == Val(env2, e)
  {
    match e
    case Bin(_, l, r) => OnlyContained(env1, env2, l); OnlyContained(env1, env2, r);
    case Not(a) => OnlyContained(env1, env2, a);
    case Cmp(_, s1, s2) => assert ContainsSymbol(e, s1) && ContainsSymbol(e, s2);
    case Sym(s) => assert ContainsSymbol(e, s);
  }

  lemma {:induction false} DependsMeans(env: Env, dep: Expr, s: Symbol)
    requires Sane(env) && IsLogical(s) && DependsSymbol(dep, s) && Val(env, dep) != NO
    ensures SymValue(env, s) != NO
  {
    ComparisonValues(env, s);
    match dep
    case Bin(_, l, r) => if DependsSymbol(l, s) { DependsMeans(env, l, s); } else { DependsMeans(env, r, s); }
    case _ =>
  }

  /** "A dependency on s that is not `no` makes s not `no`" holds for boolean and tristate symbols
      and for no others: the text of a string symbol can be compared while its value is n. */
  lemma DependsNeedsLogical(s: Symbol)
    requires s.Config? && s.name != "y" && s.name != "m" && s.name != "n"
    ensures IsLogical(s) <==>
            forall env: Env, dep: Expr ::
              Sane(env) && DependsSymbol(dep, s) && Val(env, dep) != NO ==> SymValue(env, s) != NO
  {
    if IsLogical(s) {
      forall env: Env, dep: Expr | Sane(env) && DependsSymbol(dep, s) && Val(env, dep) != NO
        ensures SymValue(env, s) != NO
      {
        DependsMeans(env, dep, s);
      }
    } else {
      var env := Env((x: Symbol) => NO, (x: Symbol) => "x", false);
      var dep := Ne(s, SYMBOL_NO);
      assert "x"[0] != "n"[0];
      assert Sane(env) && DependsSymbol(dep, s) && Val(env, dep) != NO && SymValue(env, s) == NO;
    }
  }
}
