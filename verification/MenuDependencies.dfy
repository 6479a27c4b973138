/** The expressions behind the menu tree: dependencies handed down to the entries of a menu, and
    the test that turns a following sibling into an implied submenu. */
module MenuDependencies {
  import opened Expressions
  import opened Elimination
  import opened Transformation
  import opened Joining
  import opened Duplicates
  import opened DuplicateMeaning
  import opened Comparing

  // ---------------------------------------------------------------- normal forms survive

  predicate Normal(e: Option<Expr>) { e.Some? ==> NormalForm(e.value) }

  ghost predicate AllNormal(xs: seq<Expr>) {
    forall i :: 0 <= i < |xs| ==> NormalForm(xs[i])
  }

  lemma JoinNormal(op: Op, e1: Expr, e2: Expr)
    requires NormalForm(e1) && NormalForm(e2) && Join(op, e1, e2).Some?
    ensures NormalForm(Join(op, e1, e2).value)
  {
  }

  lemma {:induction false} OperandsNormal(op: Op, e: Expr, xs: seq<Expr>)
    requires |xs| == |Operands(op, e)|
    ensures NormalForm(e) ==> AllNormal(Operands(op, e))
    ensures AllNormal(xs) ==> NormalForm(WithOperands(op, e, xs))
  {
    if IsOp(op, e) {
      var k := |Operands(op, e.left)|;
      OperandsNormal(op, e.left, xs[..k]);
      OperandsNormal(op, e.right, xs[k..]);
    }
  }

  lemma {:induction false} Dups1StepNormal(op: Op, xs: seq<Expr>, i: nat, j: nat)
    requires i < |xs| && j < |xs| && NoOp(op, xs) && AllNormal(xs)
    ensures AllNormal(Dups1Step(op, xs, i, j).0)
    decreases TotalSize(xs), 1
  {
    if i != j {
      TotalSizeUpdate(xs, i, xs[i]);
      Dups1Normal(xs[i]);
      var x := Dups1(xs[i]).0;
      if Join(op, x, xs[j]).Some? { JoinNormal(op, x, xs[j]); }
    }
  }

  lemma {:induction false} Dups1RowNormal(op: Op, xs: seq<Expr>, i: nat, j: nat, hi: nat)
    requires i < |xs| && j <= hi <= |xs| && NoOp(op, xs) && AllNormal(xs)
    ensures AllNormal(Dups1Row(op, xs, i, j, hi).0)
    decreases TotalSize(xs), 2, hi - j
  {
    if j < hi {
      Dups1StepNormal(op, xs, i, j);
      Dups1RowNormal(op, Dups1Step(op, xs, i, j).0, i, j + 1, hi);
    }
  }

  lemma {:induction false} Dups1RowsNormal(op: Op, xs: seq<Expr>, i: nat, hi: nat)
    requires i <= hi <= |xs| && NoOp(op, xs) && AllNormal(xs)
    ensures AllNormal(Dups1Rows(op, xs, i, hi).0)
    decreases TotalSize(xs), 3, hi - i
  {
    if i < hi {
      Dups1RowNormal(op, xs, i, 0, |xs|);
      Dups1RowsNormal(op, Dups1Row(op, xs, i, 0, |xs|).0, i + 1, hi);
    }
  }

  lemma {:induction false} Dups1Normal(e: Expr)
    requires NormalForm(e)
    ensures NormalForm(Dups1(e).0)
    decreases Size(e), 0
  {
    if e.Bin? {
      OperandsFacts(e.op, e);
      var xs := Operands(e.op, e);
      OperandsNormal(e.op, e, xs);
      Dups1RowsNormal(e.op, xs, 0, |xs|);
      OperandsNormal(e.op, e, Dups1Rows(e.op, xs, 0, |xs|).0);
    }
  }

  lemma {:induction false} Dups2StepNormal(op: Op, xs: seq<Expr>, i: nat, node: Expr, lo: nat)
    requires i < |xs| && NoOp(op, xs) && lo + |Operands(op, node)| <= |xs| && AllNormal(xs)
    ensures AllNormal(Dups2Step(op, xs, i, node, lo).0)
    decreases TotalSize(xs), 1
  {
    if !(!IsOp(op, node) && lo == i) && xs[i].Bin? {
      TotalSizeUpdate(xs, i, xs[i]);
      Dups2Normal(xs[i]);
    }
  }

  lemma {:induction false} Dups2RowNormal(op: Op, xs: seq<Expr>, i: nat, node: Expr, lo: nat)
    requires i < |xs| && NoOp(op, xs) && lo + |Operands(op, node)| <= |xs| && AllNormal(xs)
    ensures AllNormal(Dups2Row(op, xs, i, node, lo).0)
    decreases TotalSize(xs), 2, node
  {
    if IsOp(op, node) {
      var (ys, n) := Dups2Row(op, xs, i, node.left, lo);
      var mid := lo + |Operands(op, node.left)|;
      Dups2RowNormal(op, xs, i, node.left, lo);
      Dups2RowNormal(op, ys, i, node.right, mid);
      Dups2StepNormal(op, Dups2Row(op, ys, i, node.right, mid).0, i, node, lo);
    } else {
      Dups2StepNormal(op, xs, i, node, lo);
    }
  }

  lemma {:induction false} Dups2RowsNormal(op: Op, xs: seq<Expr>, i: nat, hi: nat, e: Expr)
    requires i <= hi <= |xs| && NoOp(op, xs) && |Operands(op, e)| == |xs| && AllNormal(xs)
    ensures AllNormal(Dups2Rows(op, xs, i, hi, e).0)
    decreases TotalSize(xs), 3, hi - i
  {
    if i < hi {
      Dups2RowNormal(op, xs, i, e, 0);
      Dups2RowsNormal(op, Dups2Row(op, xs, i, e, 0).0, i + 1, hi, e);
    }
  }

  lemma {:induction false} Dups2Normal(e: Expr)
    requires NormalForm(e)
    ensures NormalForm(Dups2(e).0)
    decreases Size(e), 0
  {
    if e.Bin? {
      OperandsFacts(e.op, e);
      var xs := Operands(e.op, e);
      OperandsNormal(e.op, e, xs);
      Dups2RowsNormal(e.op, xs, 0, |xs|, e);
      OperandsNormal(e.op, e, Dups2Rows(e.op, xs, 0, |xs|, e).0);
    }
  }

  lemma {:induction false} EliminateYNKeepsNormal(e: Expr)
    requires NormalForm(e)
    ensures NormalForm(EliminateYN(e))
  {
    if e.Bin? {
      EliminateYNKeepsNormal(e.left);
      EliminateYNKeepsNormal(e.right);
    }
  }

  /** Duplicate elimination stays inside the normal forms of `expr_transform`. */
  lemma {:induction false} EliminateDupsNormal(e: Expr)
    requires NormalForm(e)
    ensures NormalForm(EliminateDups(e))
    decreases Size(e)
  {
    var (a, n) := Dups1(e);
    var (b, m) := Dups2(a);
    Dups1Normal(e);
    Dups2Normal(a);
    if n + m != 0 {
      Dups1Progress(e);
      Dups2Progress(a);
      EliminateYNNormal(b);
      EliminateYNKeepsNormal(b);
      EliminateDupsNormal(EliminateYN(b));
    }
  }

  // ---------------------------------------------------------------- dependencies handed down

  function DupsOpt(e: Option<Expr>): Option<Expr> {
    if e.None? then None else Some(EliminateDups(e.value))
  }

  function TransformOpt(e: Option<Expr>): Option<Expr> {
    if e.None? then None else Some(Transform(e.value))
  }

  function TransBoolOpt(e: Option<Expr>): Option<Expr> {
    if e.None? then None else Some(TransBool(e.value))
  }

  /** The dependency of an entry together with what its menu demands. */
  function HandDown(above: Option<Expr>, own: Option<Expr>): Option<Expr> {
    DupsOpt(AllocAnd(above, TransformOpt(own)))
  }

  /** The same for a prompt; `symbol` is the symbol of the entry, if any. */
  function HandDownPrompt(above: Option<Expr>, own: Option<Expr>, symbol: Option<Symbol>): Option<Expr> {
    if symbol.Some? && !IsTristate(symbol.value) then TransBoolOpt(HandDown(above, own)) else HandDown(above, own)
  }

  lemma HandDownNormal(above: Option<Expr>, own: Option<Expr>)
    requires Normal(above)
    ensures Normal(HandDown(above, own))
  {
    if own.Some? { TransformNormal(own.value); }
    var e := AllocAnd(above, TransformOpt(own));
    if e.Some? { EliminateDupsNormal(e.value); }
  }

  lemma {:induction false} TransBoolNormal(e: Expr)
    requires NormalForm(e)
    ensures NormalForm(TransBool(e))
  {
    if e.Bin? { TransBoolNormal(e.left); TransBoolNormal(e.right); }
  }

  lemma HandDownPromptNormal(above: Option<Expr>, own: Option<Expr>, symbol: Option<Symbol>)
    requires Normal(above)
    ensures Normal(HandDownPrompt(above, own, symbol))
  {
    HandDownNormal(above, own);
    if HandDown(above, own).Some? { TransBoolNormal(HandDown(above, own).value); }
  }

  /** What is handed down is as definite as "above and own": a definite conjunction is kept, so the
      result is never enabled where either part is `no`. */
  lemma HandDownValue(env: Env, above: Option<Expr>, own: Option<Expr>)
    requires Sane(env)
    ensures Refines(Apply(And, ValOpt(env, above), ValOpt(env, own)), ValOpt(env, HandDown(above, own)))
    ensures ValOpt(env, HandDown(above, own)) != NO ==> ValOpt(env, above) != NO && ValOpt(env, own) != NO
  {
    if own.Some? { TransformValue(env, own.value); }
    var e := AllocAnd(above, TransformOpt(own));
    if e.Some? { EliminateDupsRefines(env, e.value); }
  }

  /** A prompt is never visible where its entry's dependency is `no`; and the symbol's visibility,
      which takes `mod` for `yes` unless it is a tristate, is the conjunction's. */
  lemma HandDownPromptValue(env: Env, above: Option<Expr>, own: Option<Expr>, symbol: Option<Symbol>)
    requires Sane(env) && Normal(above)
    ensures ValOpt(env, HandDownPrompt(above, own, symbol)) != NO ==> ValOpt(env, above) != NO && ValOpt(env, own) != NO
    ensures Promote(ValOpt(env, HandDownPrompt(above, own, symbol))) == Promote(ValOpt(env, HandDown(above, own)))
    ensures symbol.None? || IsTristate(symbol.value) ==>
              ValOpt(env, HandDownPrompt(above, own, symbol)) == ValOpt(env, HandDown(above, own))
  {
    HandDownNormal(above, own);
    HandDownValue(env, above, own);
    var e := HandDown(above, own);
    if e.Some? { TransBoolValue(env, e.value); }
  }

  // ---------------------------------------------------------------- implied submenus

  /** "e != n", rewritten as the menu code does before it compares two of them. */
  function NotNo(e: Option<Expr>): Expr {
    EliminateDups(Transform(TransCompareOpt(e, false, SYMBOL_NO)))
  }

  /** The test for a following sibling with the dependency `dep`, for an entry whose prompt has the
      condition `visible` and whose symbol is s. */
  predicate Adopts(dep: Option<Expr>, visible: Option<Expr>, s: Symbol) {
    dep.Some? && ContainsSymbol(dep.value, s) &&
    (DependsSymbol(dep.value, s) || EliminateEq(NotNo(dep), NotNo(visible)).1 == YES_EXPR)
  }

  predicate TypedOpt(e: Option<Expr>) { e.Some? ==> Typed(e.value) }

  /** The rewritten test is `yes` only where e is not `no`, and exactly there when no NOT in e is
      applied to `mod`. */
  lemma NotNoValue(env: Env, e: Option<Expr>)
    requires Sane(env) && TypedOpt(e)
    ensures Val(env, NotNo(e)) != MOD
    ensures Val(env, NotNo(e)) == YES ==> ValOpt(env, e) != NO
    ensures (e.Some? ==> NotsDefinite(env, e.value)) ==> (Val(env, NotNo(e)) == YES <==> ValOpt(env, e) != NO)
  {
    LiteralValues(env);
    var t := TransCompareOpt(e, false, SYMBOL_NO);
    if e.Some? { TransCompareValue(env, e.value, false, SYMBOL_NO); }
    TransformValue(env, t);
    EliminateDupsRefines(env, Transform(t));
  }

  /** Adoption is sound: where the sibling's dependency is not `no`, the prompt of the entry that
      adopts it is visible, or (for a direct dependency) its symbol is not `no`. */
  lemma AdoptionSound(env: Env, dep: Option<Expr>, visible: Option<Expr>, s: Symbol)
    requires Sane(env) && Adopts(dep, visible, s) && IsLogical(s)
    requires TypedOpt(dep) && TypedOpt(visible) && NotsDefinite(env, dep.value)
    ensures ValOpt(env, dep) != NO ==> ValOpt(env, visible) != NO || SymValue(env, s) != NO
    ensures ValOpt(env, dep) != NO && !DependsSymbol(dep.value, s) ==> ValOpt(env, visible) != NO
  {
    if DependsSymbol(dep.value, s) {
      if Val(env, dep.value) != NO { DependsMeans(env, dep.value, s); }
    } else {
      NotNoValue(env, dep);
      NotNoValue(env, visible);
      EliminateEqImplies(env, NotNo(dep), NotNo(visible));
    }
  }

  /** The condition on NOT is about `mod` only. */
  lemma AdoptionSoundWithoutMod(env: Env, dep: Option<Expr>, visible: Option<Expr>, s: Symbol)
    requires Sane(env) && ModFree(env) && Adopts(dep, visible, s) && IsLogical(s)
    requires TypedOpt(dep) && TypedOpt(visible) && NoModLiteral(dep.value)
    ensures ValOpt(env, dep) != NO ==> ValOpt(env, visible) != NO || SymValue(env, s) != NO
  {
    ModFreeNots(env, dep.value);
    AdoptionSound(env, dep, visible, s);
  }

  /** !s && (a comparison that holds): a dependency that is `mod` where s is. */
  function WitnessDep(s: Symbol): Expr { Bin(And, Not(Sym(s)), Eq(Const("a"), Const("a"))) }

  lemma WitnessTest(s: Symbol)
    requires IsTristate(s)
    ensures var a, b := Eq(s, SYMBOL_NO), Eq(Const("a"), Const("a"));
            NotNo(Some(WitnessDep(s))) == Bin(And, a, b) && NotNo(Some(a)) == a
  {
    var a, b := Eq(s, SYMBOL_NO), Eq(Const("a"), Const("a"));
    var na, nb := Ne(s, SYMBOL_NO), Ne(Const("a"), Const("a"));
    assert TransCompare(Not(Sym(s)), true, SYMBOL_NO) == na;
    assert TransCompare(b, true, SYMBOL_NO) == Not(b);
    assert TransCompare(WitnessDep(s), false, SYMBOL_NO) == Not(Bin(Or, na, Not(b)));
    assert Transform(Not(b)) == nb && Transform(na) == na;
    assert Transform(Bin(Or, na, Not(b))) == Bin(Or, na, nb);
    assert Transform(Not(na)) == a && Transform(Not(nb)) == b;
    assert Transform(Bin(And, Not(na), Not(nb))) == Bin(And, a, b);
    assert Transform(Not(Bin(Or, na, Not(b)))) == Bin(And, a, b);
    PlainChainSettled(a, b);
    EliminateDupsSettles(Bin(And, a, b));
    assert TransCompare(a, false, SYMBOL_NO) == a && Transform(a) == a;
    assert EliminateDups(a) == a;
  }

  /** Against the prompt condition s = n the test succeeds for it, although that one is `no`. */
  lemma AdoptionWitness(env: Env, s: Symbol)
    requires Sane(env) && IsTristate(s) && env.tri(s) == MOD
    ensures var dep, visible := Some(WitnessDep(s)), Some(Eq(s, SYMBOL_NO));
            && Adopts(dep, visible, s) && !DependsSymbol(dep.value, s)
            && TypedOpt(dep) && TypedOpt(visible) && NoModLiteral(dep.value)
            && ValOpt(env, dep) != NO && ValOpt(env, visible) == NO
  {
    var a, b := Eq(s, SYMBOL_NO), Eq(Const("a"), Const("a"));
    var n := Not(Sym(s));
    WitnessTest(s);
    assert ExprEq(a, a) && !ExprEq(b, YES_EXPR);
    assert EliminateEqIn(And, a, a) == (YES_EXPR, YES_EXPR) && EliminateEqIn(And, b, YES_EXPR) == (b, YES_EXPR);
    assert EliminateEqIn(And, Bin(And, a, b), a) == (Bin(And, YES_EXPR, b), YES_EXPR);
    assert EliminateEq(Bin(And, a, b), a).1 == YES_EXPR;
    assert ContainsSymbol(Sym(s), s) && ContainsSymbol(n, s) && !DependsSymbol(n, s);
    assert Typed(Sym(s)) && NoModLiteral(Sym(s)) && Val(env, Sym(s)) == MOD;
    assert Typed(n) && NoModLiteral(n) && Val(env, n) == MOD && Val(env, b) == YES;
    ComparisonValues(env, s);
  }

  /** A chain of two comparisons of different symbols is left alone. */
  lemma PlainChainSettled(a: Expr, b: Expr)
    requires a.Cmp? && b.Cmp? && a.lhs != b.lhs
    ensures Settled(Bin(And, a, b))
  {
    assert Operands(And, a) == [a] && Operands(And, b) == [b];
    assert Operands(And, Bin(And, a, b)) == [a, b];
    assert Deduplicated(a) && Deduplicated(b) && DeduplicatedBelow(And, a) && DeduplicatedBelow(And, b);
    assert ConflictFree(a) && ConflictFree(b) && ConflictFreeBelow(And, a) && ConflictFreeBelow(And, b);
  }

  /** Without a direct dependency the test implies a visible prompt for all expressions exactly in
      the environments without `mod`. */
  lemma AdoptionNeedsModFree(env: Env)
    requires Sane(env)
    ensures ModFree(env) <==>
            forall dep: Option<Expr>, visible: Option<Expr>, s: Symbol ::
              IsLogical(s) && Adopts(dep, visible, s) && !DependsSymbol(dep.value, s) &&
              TypedOpt(dep) && TypedOpt(visible) && NoModLiteral(dep.value) && ValOpt(env, dep) != NO ==>
                ValOpt(env, visible) != NO
  {
    if ModFree(env) {
      forall dep: Option<Expr>, visible: Option<Expr>, s: Symbol |
        IsLogical(s) && Adopts(dep, visible, s) && !DependsSymbol(dep.value, s) &&
        TypedOpt(dep) && TypedOpt(visible) && NoModLiteral(dep.value) && ValOpt(env, dep) != NO
        ensures ValOpt(env, visible) != NO
      {
        ModFreeNots(env, dep.value);
        AdoptionSound(env, dep, visible, s);
      }
    } else {
      var s: Symbol :| IsLogical(s) && env.tri(s) == MOD;
      AdoptionWitness(env, s);
    }
  }

  // ---------------------------------------------------------------- what is handed down is settled

  /** Conditions that are handed down have been rewritten and freed of duplicates, and so have the two sides of the
      test for a submenu. */
  lemma HandedSettled(above: Option<Expr>, own: Option<Expr>, visible: Option<Expr>)
    ensures HandDown(above, own).Some? ==> Settled(HandDown(above, own).value)
    ensures Normal(above) ==> Normal(HandDown(above, own))
    ensures Settled(NotNo(visible)) && NormalForm(NotNo(visible))
  {
    var e := AllocAnd(above, TransformOpt(own));
    if e.Some? { EliminateDupsSettles(e.value); }
    if Normal(above) { HandDownNormal(above, own); }
    var t := Transform(TransCompareOpt(visible, false, SYMBOL_NO));
    TransformNormal(TransCompareOpt(visible, false, SYMBOL_NO));
    EliminateDupsSettles(t);
    EliminateDupsNormal(t);
  }
}
