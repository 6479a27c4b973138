/** `expr_join_or` and `expr_join_and`: one expression for a pair of operands of a chain. */
module Joining {
  import opened Expressions
  import opened Elimination

  predicate IsAtom(e: Expr) { e.Sym? || e.Cmp? }

  function LeftSymbol(e: Expr): Symbol
    requires IsAtom(e)
  {
    if e.Sym? then e.sym else e.lhs
  }

  /** Both operands speak about one boolean or tristate symbol. */
  predicate SameSymbol(e1: Expr, e2: Expr, s: Symbol) {
    && IsLogical(s)
    && (if e1.Not? then IsAtom(e1.arg) && LeftSymbol(e1.arg) == s else IsAtom(e1) && LeftSymbol(e1) == s)
    && (if e2.Not? then e2.arg.Sym? && e2.arg.sym == s else IsAtom(e2) && LeftSymbol(e2) == s)
  }

  /** The symbol the second operand is about, if it has the shape the joins accept. */
  function JoinSymbol(e2: Expr): Option<Symbol> {
    if e2.Bin? then None
    else if !e2.Not? then Some(LeftSymbol(e2))
    else if e2.arg.Sym? then Some(e2.arg.sym)
    else None
  }

  predicate Are(e1: Expr, e2: Expr, a: Expr, b: Expr) {
    (e1 == a && e2 == b) || (e1 == b && e2 == a)
  }

  function Eq(s: Symbol, c: Symbol): Expr { Cmp(true, s, c) }

  function Ne(s: Symbol, c: Symbol): Expr { Cmp(false, s, c) }

  function JoinOr(e1: Expr, e2: Expr): Option<Expr> {
    if ExprEq(e1, e2) then Some(e1) else JoinOrPair(e1, e2)
  }

  function JoinOrPair(e1: Expr, e2: Expr): Option<Expr> {
    if JoinSymbol(e2).None? || !SameSymbol(e1, e2, JoinSymbol(e2).value) then None
    else
      var s := JoinSymbol(e2).value;
      if IsTristate(s) && Are(e1, e2, Eq(s, SYMBOL_YES), Eq(s, SYMBOL_MOD)) then Some(Ne(s, SYMBOL_NO))
      else if IsTristate(s) && Are(e1, e2, Eq(s, SYMBOL_YES), Eq(s, SYMBOL_NO)) then Some(Ne(s, SYMBOL_MOD))
      else if IsTristate(s) && Are(e1, e2, Eq(s, SYMBOL_MOD), Eq(s, SYMBOL_NO)) then Some(Ne(s, SYMBOL_YES))
      else if IsBoolean(s) && Are(e1, e2, Sym(s), Not(Sym(s))) then Some(YES_EXPR)
      else None
  }

  function JoinAnd(e1: Expr, e2: Expr): Option<Expr> {
    if ExprEq(e1, e2) then Some(e1) else JoinAndPair(e1, e2)
  }

  function JoinAndPair(e1: Expr, e2: Expr): Option<Expr> {
    if JoinSymbol(e2).None? || !SameSymbol(e1, e2, JoinSymbol(e2).value) then None
    else
      var s := JoinSymbol(e2).value;
      if Are(e1, e2, Sym(s), Eq(s, SYMBOL_YES)) then Some(Eq(s, SYMBOL_YES))
      else if Are(e1, e2, Sym(s), Ne(s, SYMBOL_NO)) then Some(Sym(s))
      else if Are(e1, e2, Sym(s), Ne(s, SYMBOL_MOD)) then Some(Eq(s, SYMBOL_YES))
      else if !IsTristate(s) then None
      else if e1.Cmp? && e2.Cmp? && e1.equal && !e2.equal && e1.rhs.Const? && e2.rhs.Const? then
        Some(if e1.rhs != e2.rhs then e1 else NO_EXPR)
      else if e1.Cmp? && e2.Cmp? && !e1.equal && e2.equal && e1.rhs.Const? && e2.rhs.Const? then
        Some(if e1.rhs != e2.rhs then e2 else NO_EXPR)
      else if Are(e1, e2, Ne(s, SYMBOL_YES), Ne(s, SYMBOL_NO)) then Some(Eq(s, SYMBOL_MOD))
      else if Are(e1, e2, Ne(s, SYMBOL_YES), Ne(s, SYMBOL_MOD)) then Some(Eq(s, SYMBOL_NO))
      else if Are(e1, e2, Ne(s, SYMBOL_MOD), Ne(s, SYMBOL_NO)) then Some(Eq(s, SYMBOL_YES))
      else None
  }

  function Join(op: Op, e1: Expr, e2: Expr): Option<Expr> {
    if op == And then JoinAnd(e1, e2) else JoinOr(e1, e2)
  }

  /** A boolean or tristate symbol compared with a literal, by the symbol's value. */
  lemma ComparisonValues(env: Env, s: Symbol)
    requires Sane(env) && IsLogical(s)
    ensures Val(env, Eq(s, SYMBOL_YES)) == OfBool(env.tri(s) == YES)
    ensures Val(env, Eq(s, SYMBOL_MOD)) == OfBool(env.tri(s) == MOD)
    ensures Val(env, Eq(s, SYMBOL_NO)) == OfBool(env.tri(s) == NO)
    ensures Val(env, Ne(s, SYMBOL_YES)) == OfBool(env.tri(s) != YES)
    ensures Val(env, Ne(s, SYMBOL_MOD)) == OfBool(env.tri(s) != MOD)
    ensures Val(env, Ne(s, SYMBOL_NO)) == OfBool(env.tri(s) != NO)
  {
    assert "y"[0] != "n"[0] && "y"[0] != "m"[0] && "m"[0] != "n"[0];
  }

  /** (s = b) && (s != c) for constants b and c: distinct constants have distinct names. */
  lemma ComparedConstants(env: Env, s: Symbol, b: Symbol, c: Symbol)
    requires b.Const? && c.Const?
    ensures Apply(And, Val(env, Eq(s, b)), Val(env, Ne(s, c))) == (if b != c then Val(env, Eq(s, b)) else NO)
  {
  }

  /** A join has the value of the pair it replaces, `mod` included. */
  lemma JoinValue(env: Env, op: Op, e1: Expr, e2: Expr)
    requires Sane(env) && Join(op, e1, e2).Some?
    ensures Val(env, Join(op, e1, e2).value) == Apply(op, Val(env, e1), Val(env, e2))
  {
    if ExprEq(e1, e2) {
      ExprEqSound(env, e1, e2);
    } else {
      var s := JoinSymbol(e2).value;
      if op == And {
        JoinAndValue(env, e1, e2, s);
      } else {
        JoinOrValue(env, e1, e2, s);
      }
    }
  }

  lemma LiteralValues(env: Env)
    ensures Val(env, YES_EXPR) == YES && Val(env, NO_EXPR) == NO
  {
    assert "y"[0] != "n"[0] && "m"[0] != "n"[0];
  }

  lemma JoinOrValue(env: Env, e1: Expr, e2: Expr, s: Symbol)
    requires Sane(env) && JoinOrPair(e1, e2).Some? && JoinSymbol(e2) == Some(s)
    ensures Val(env, JoinOrPair(e1, e2).value) == Apply(Or, Val(env, e1), Val(env, e2))
  {
    JoinOrRules(e1, e2, s);
    if Are(e1, e2, Sym(s), Not(Sym(s))) {
      LiteralValues(env);
      assert Val(env, Sym(s)) == env.tri(s) && Val(env, Not(Sym(s))) == Negate(env.tri(s));
    } else {
      ComparisonValues(env, s);
    }
  }

  /** Which rule of the OR join has applied. */
  lemma JoinOrRules(e1: Expr, e2: Expr, s: Symbol)
    requires JoinOrPair(e1, e2).Some? && JoinSymbol(e2) == Some(s)
    ensures IsLogical(s)
    ensures var r := JoinOrPair(e1, e2).value;
            || (Are(e1, e2, Eq(s, SYMBOL_YES), Eq(s, SYMBOL_MOD)) && r == Ne(s, SYMBOL_NO))
            || (Are(e1, e2, Eq(s, SYMBOL_YES), Eq(s, SYMBOL_NO)) && r == Ne(s, SYMBOL_MOD))
            || (Are(e1, e2, Eq(s, SYMBOL_MOD), Eq(s, SYMBOL_NO)) && r == Ne(s, SYMBOL_YES))
            || (IsBoolean(s) && Are(e1, e2, Sym(s), Not(Sym(s))) && r == YES_EXPR)
  {
  }

  predicate Mixed(e1: Expr, e2: Expr) {
    e1.Cmp? && e2.Cmp? && e1.equal != e2.equal && e1.rhs.Const? && e2.rhs.Const?
  }

  lemma JoinAndValue(env: Env, e1: Expr, e2: Expr, s: Symbol)
    requires Sane(env) && JoinAndPair(e1, e2).Some? && JoinSymbol(e2) == Some(s)
    ensures Val(env, JoinAndPair(e1, e2).value) == Apply(And, Val(env, e1), Val(env, e2))
  {
    if Mixed(e1, e2) { JoinAndMixed(env, e1, e2, s); } else { JoinAndLiterals(env, e1, e2, s); }
  }

  lemma JoinAndMixed(env: Env, e1: Expr, e2: Expr, s: Symbol)
    requires Mixed(e1, e2) && JoinAndPair(e1, e2).Some? && JoinSymbol(e2) == Some(s)
    ensures Val(env, JoinAndPair(e1, e2).value) == Apply(And, Val(env, e1), Val(env, e2))
  {
    LiteralValues(env);
    if e1.equal { ComparedConstants(env, s, e1.rhs, e2.rhs); } else { ComparedConstants(env, s, e2.rhs, e1.rhs); }
  }

  lemma JoinAndLiterals(env: Env, e1: Expr, e2: Expr, s: Symbol)
    requires Sane(env) && !Mixed(e1, e2) && JoinAndPair(e1, e2).Some? && JoinSymbol(e2) == Some(s)
    ensures Val(env, JoinAndPair(e1, e2).value) == Apply(And, Val(env, e1), Val(env, e2))
  {
    ComparisonValues(env, s);
    if e1.Cmp? && e2.Cmp? {
      JoinUnequal(e1, e2, s);
    } else {
      JoinWithSymbol(e1, e2, s);
      assert Val(env, Sym(s)) == env.tri(s);
    }
  }

  lemma JoinWithSymbol(e1: Expr, e2: Expr, s: Symbol)
    requires !(e1.Cmp? && e2.Cmp?) && JoinAndPair(e1, e2).Some? && JoinSymbol(e2) == Some(s)
    ensures var r := JoinAndPair(e1, e2).value;
            || (Are(e1, e2, Sym(s), Eq(s, SYMBOL_YES)) && r == Eq(s, SYMBOL_YES))
            || (Are(e1, e2, Sym(s), Ne(s, SYMBOL_NO)) && r == Sym(s))
            || (Are(e1, e2, Sym(s), Ne(s, SYMBOL_MOD)) && r == Eq(s, SYMBOL_YES))
  {
  }

  lemma JoinUnequal(e1: Expr, e2: Expr, s: Symbol)
    requires e1.Cmp? && e2.Cmp? && !Mixed(e1, e2) && JoinAndPair(e1, e2).Some? && JoinSymbol(e2) == Some(s)
    ensures IsTristate(s)
    ensures var r := JoinAndPair(e1, e2).value;
            || (Are(e1, e2, Ne(s, SYMBOL_YES), Ne(s, SYMBOL_NO)) && r == Eq(s, SYMBOL_MOD))
            || (Are(e1, e2, Ne(s, SYMBOL_YES), Ne(s, SYMBOL_MOD)) && r == Eq(s, SYMBOL_NO))
            || (Are(e1, e2, Ne(s, SYMBOL_MOD), Ne(s, SYMBOL_NO)) && r == Eq(s, SYMBOL_YES))
  {
  }

  /** A join is a copy of the first operand or a single node. */
  lemma JoinSmall(op: Op, e1: Expr, e2: Expr)
    requires Join(op, e1, e2).Some?
    ensures Join(op, e1, e2).value == e1 || Size(Join(op, e1, e2).value) == 1
  {
  }

  // ---------------------------------------------------------------- the joins that are found

  predicate IsComparison(e: Expr, equal: bool, s: Symbol) {
    e.Cmp? && e.equal == equal && e.lhs == s && IsLiteral(e.rhs)
  }

  /** Operands about s that one operand can replace: s || !s for a boolean; two equalities in an OR,
      two inequalities or one of each in an AND, for a tristate; s && (s = y), (s != n) or (s != m). */
  predicate Joinable(op: Op, s: Symbol, x: Expr, y: Expr) {
    || (op == Or && IsBoolean(s) && x == Sym(s) && y == Not(Sym(s)))
    || (op == Or && IsTristate(s) && IsComparison(x, true, s) && IsComparison(y, true, s))
    || (op == And && IsTristate(s) && IsComparison(x, false, s) && IsComparison(y, false, s))
    || (op == And && IsTristate(s) && IsComparison(x, true, s) && IsComparison(y, false, s))
    || (op == And && x == Sym(s) && (y == Eq(s, SYMBOL_YES) || y == Ne(s, SYMBOL_NO) || y == Ne(s, SYMBOL_MOD)))
  }

  lemma JoinFound(op: Op, s: Symbol, x: Expr, y: Expr)
    requires IsLogical(s) && Joinable(op, s, x, y)
    ensures Join(op, x, y).Some?
  {
    ExprEqReflexive(x);
    if x != y { if op == Or { JoinOrFound(s, x, y); } else { JoinAndFound(s, x, y); } }
  }

  lemma JoinOrFound(s: Symbol, x: Expr, y: Expr)
    requires IsLogical(s) && Joinable(Or, s, x, y) && x != y
    ensures JoinOrPair(x, y).Some?
  {
    assert JoinSymbol(y) == Some(s);
  }

  lemma JoinAndFound(s: Symbol, x: Expr, y: Expr)
    requires IsLogical(s) && Joinable(And, s, x, y) && x != y
    ensures JoinAndPair(x, y).Some?
  {
    assert JoinSymbol(y) == Some(s);
  }

  // ---------------------------------------------------------------- exactly the joins that there are

  /** One of each kind, about s, with constants. */
  predicate OneOfEach(s: Symbol, x: Expr, y: Expr) {
    x.Cmp? && y.Cmp? && x.equal && !y.equal && x.lhs == s && y.lhs == s && x.rhs.Const? && y.rhs.Const?
  }

  /** The rules for two different operands about s, in either order. */
  predicate Rule(op: Op, s: Symbol, x: Expr, y: Expr, r: Expr) {
    IsLogical(s) &&
    if op == Or then
      || (IsTristate(s) && Are(x, y, Eq(s, SYMBOL_YES), Eq(s, SYMBOL_MOD)) && r == Ne(s, SYMBOL_NO))
      || (IsTristate(s) && Are(x, y, Eq(s, SYMBOL_YES), Eq(s, SYMBOL_NO)) && r == Ne(s, SYMBOL_MOD))
      || (IsTristate(s) && Are(x, y, Eq(s, SYMBOL_MOD), Eq(s, SYMBOL_NO)) && r == Ne(s, SYMBOL_YES))
      || (IsBoolean(s) && Are(x, y, Sym(s), Not(Sym(s))) && r == YES_EXPR)
    else
      || (Are(x, y, Sym(s), Eq(s, SYMBOL_YES)) && r == Eq(s, SYMBOL_YES))
      || (Are(x, y, Sym(s), Ne(s, SYMBOL_NO)) && r == Sym(s))
      || (Are(x, y, Sym(s), Ne(s, SYMBOL_MOD)) && r == Eq(s, SYMBOL_YES))
      || (IsTristate(s) && OneOfEach(s, x, y) && r == if x.rhs != y.rhs then x else NO_EXPR)
      || (IsTristate(s) && OneOfEach(s, y, x) && r == if x.rhs != y.rhs then y else NO_EXPR)
      || (IsTristate(s) && Are(x, y, Ne(s, SYMBOL_YES), Ne(s, SYMBOL_NO)) && r == Eq(s, SYMBOL_MOD))
      || (IsTristate(s) && Are(x, y, Ne(s, SYMBOL_YES), Ne(s, SYMBOL_MOD)) && r == Eq(s, SYMBOL_NO))
      || (IsTristate(s) && Are(x, y, Ne(s, SYMBOL_MOD), Ne(s, SYMBOL_NO)) && r == Eq(s, SYMBOL_YES))
  }

  /** Two operands are joined exactly if they are equal or a rule applies, and to what the rule says. */
  lemma JoinExactly(op: Op, x: Expr, y: Expr, r: Expr)
    ensures Join(op, x, y) == Some(r) <==> if ExprEq(x, y) then r == x else exists s :: Rule(op, s, x, y, r)
  {
    if !ExprEq(x, y) {
      if Join(op, x, y) == Some(r) { RuleApplied(op, x, y); }
      if s :| Rule(op, s, x, y, r) { RuleApplies(op, s, x, y, r); }
    }
  }

  lemma RuleApplied(op: Op, x: Expr, y: Expr)
    requires !ExprEq(x, y) && Join(op, x, y).Some?
    ensures JoinSymbol(y).Some? && Rule(op, JoinSymbol(y).value, x, y, Join(op, x, y).value)
  {
  }

  lemma RuleApplies(op: Op, s: Symbol, x: Expr, y: Expr, r: Expr)
    requires !ExprEq(x, y) && Rule(op, s, x, y, r)
    ensures Join(op, x, y) == Some(r)
  {
    assert JoinSymbol(y) == Some(s) && SameSymbol(x, y, s);
  }
}
