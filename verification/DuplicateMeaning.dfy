/** What `expr_eliminate_dups` does to the value of an expression, and where it stops. */
module DuplicateMeaning {
  import opened Expressions
  import opened Elimination
  import opened Transformation
  import opened Joining
  import opened Duplicates

  // ---------------------------------------------------------------- values of operand lists

  lemma {:induction false} FoldAppend(env: Env, op: Op, xs: seq<Expr>, ys: seq<Expr>)
    ensures Fold(env, op, xs + ys) == Apply(op, Fold(env, op, xs), Fold(env, op, ys))
  {
    if xs == [] {
      assert xs + ys == ys;
    } else {
      assert (xs + ys)[1..] == xs[1..] + ys;
      FoldAppend(env, op, xs[1..], ys);
      ApplyAssociative(op, Val(env, xs[0]), Fold(env, op, xs[1..]), Fold(env, op, ys));
    }
  }

  lemma {:induction false} WithOperandsValue(env: Env, op: Op, e: Expr, xs: seq<Expr>)
    requires |xs| == |Operands(op, e)|
    ensures Val(env, WithOperands(op, e, xs)) == Fold(env, op, xs)
  {
    if IsOp(op, e) {
      var k := |Operands(op, e.left)|;
      WithOperandsValue(env, op, e.left, xs[..k]);
      WithOperandsValue(env, op, e.right, xs[k..]);
      assert xs[..k] + xs[k..] == xs;
      FoldAppend(env, op, xs[..k], xs[k..]);
    } else {
      assert xs[1..] == [];
    }
  }

  lemma OperandsValue(env: Env, op: Op, e: Expr)
    ensures Fold(env, op, Operands(op, e)) == Val(env, e)
  {
    WithOperandsValue(env, op, e, Operands(op, e));
    WithOwnOperands(op, e);
  }

  /** One operand and the rest of the chain. */
  lemma {:induction false} FoldAt(env: Env, op: Op, xs: seq<Expr>, i: nat, x: Expr)
    requires i < |xs|
    ensures Fold(env, op, xs[i := x]) == Apply(op, Val(env, x), Fold(env, op, xs[i := Neutral(op)]))
  {
    var n := Neutral(op);
    if i == 0 {
      assert xs[i := x][1..] == xs[1..] == xs[i := n][1..];
    } else {
      assert xs[i := x][1..] == xs[1..][i - 1 := x];
      assert xs[i := n][1..] == xs[1..][i - 1 := n];
      FoldAt(env, op, xs[1..], i - 1, x);
    }
  }

  lemma FoldSameAt(env: Env, op: Op, xs: seq<Expr>, i: nat, x: Expr)
    requires i < |xs| && Val(env, x) == Val(env, xs[i])
    ensures Fold(env, op, xs[i := x]) == Fold(env, op, xs)
  {
    FoldAt(env, op, xs, i, x);
    FoldAt(env, op, xs, i, xs[i]);
    assert xs[i := xs[i]] == xs;
  }

  /** Moving the join of two operands to the second and the neutral literal to the first. */
  lemma FoldJoin(env: Env, op: Op, xs: seq<Expr>, i: nat, j: nat, t: Expr)
    requires i < |xs| && j < |xs| && i != j
    requires Val(env, t) == Apply(op, Val(env, xs[i]), Val(env, xs[j]))
    ensures Fold(env, op, xs[i := Neutral(op)][j := t]) == Fold(env, op, xs)
  {
    var ys := xs[i := Neutral(op)];
    FoldAt(env, op, xs, i, xs[i]);
    assert xs[i := xs[i]] == xs;
    FoldAt(env, op, ys, j, ys[j]);
    assert ys[j := ys[j]] == ys;
    FoldAt(env, op, ys, j, t);
    ApplyAssociative(op, Val(env, xs[i]), Val(env, xs[j]), Fold(env, op, ys[j := Neutral(op)]));
  }

  // ---------------------------------------------------------------- the first pass is exact

  lemma {:induction false} Dups1StepValue(env: Env, op: Op, xs: seq<Expr>, i: nat, j: nat)
    requires Sane(env) && i < |xs| && j < |xs| && NoOp(op, xs)
    ensures Fold(env, op, Dups1Step(op, xs, i, j).0) == Fold(env, op, xs)
    decreases TotalSize(xs), 1
  {
    if i != j {
      TotalSizeUpdate(xs, i, xs[i]);
      Dups1Value(env, xs[i]);
      var (x, n) := Dups1(xs[i]);
      FoldSameAt(env, op, xs, i, x);
      var ys := xs[i := x];
      if Join(op, x, xs[j]).Some? {
        var t := Join(op, x, xs[j]).value;
        JoinValue(env, op, x, xs[j]);
        FoldJoin(env, op, ys, i, j, t);
        assert ys[i := Neutral(op)] == xs[i := Neutral(op)];
      }
    }
  }

  lemma {:induction false} Dups1RowValue(env: Env, op: Op, xs: seq<Expr>, i: nat, j: nat, hi: nat)
    requires Sane(env) && i < |xs| && j <= hi <= |xs| && NoOp(op, xs)
    ensures Fold(env, op, Dups1Row(op, xs, i, j, hi).0) == Fold(env, op, xs)
    decreases TotalSize(xs), 2, hi - j
  {
    if j < hi {
      Dups1StepValue(env, op, xs, i, j);
      Dups1RowValue(env, op, Dups1Step(op, xs, i, j).0, i, j + 1, hi);
    }
  }

  lemma {:induction false} Dups1RowsValue(env: Env, op: Op, xs: seq<Expr>, i: nat, hi: nat)
    requires Sane(env) && i <= hi <= |xs| && NoOp(op, xs)
    ensures Fold(env, op, Dups1Rows(op, xs, i, hi).0) == Fold(env, op, xs)
    decreases TotalSize(xs), 3, hi - i
  {
    if i < hi {
      Dups1RowValue(env, op, xs, i, 0, |xs|);
      Dups1RowsValue(env, op, Dups1Row(op, xs, i, 0, |xs|).0, i + 1, hi);
    }
  }

  /** The join pass keeps the value in every environment, `mod` included. */
  lemma {:induction false} Dups1Value(env: Env, e: Expr)
    requires Sane(env)
    ensures Val(env, Dups1(e).0) == Val(env, e)
    decreases Size(e), 0
  {
    if e.Bin? {
      OperandsFacts(e.op, e);
      var xs := Operands(e.op, e);
      Dups1RowsValue(env, e.op, xs, 0, |xs|);
      WithOperandsValue(env, e.op, e, Dups1Rows(e.op, xs, 0, |xs|).0);
      OperandsValue(env, e.op, e);
    }
  }

  // ---------------------------------------------------------------- the second pass refines

  /** A chain is bounded by each stretch of its operands. */
  lemma FoldSlice(env: Env, op: Op, xs: seq<Expr>, lo: nat, hi: nat)
    requires lo <= hi <= |xs|
    ensures Apply(op, Fold(env, op, xs), Fold(env, op, xs[lo..hi])) == Fold(env, op, xs)
  {
    assert xs == xs[..lo] + xs[lo..hi] + xs[hi..];
    FoldAppend(env, op, xs[..lo] + xs[lo..hi], xs[hi..]);
    FoldAppend(env, op, xs[..lo], xs[lo..hi]);
  }

  lemma ConstantValues(env: Env, op: Op)
    ensures Val(env, Neutral(op)) == Unit(op) && Val(env, Absorbing(op)) == Negate(Unit(op))
  {
    assert "y"[0] != "n"[0] && "n"[0] != "m"[0];
  }

  lemma FactorAbsorbed(op: Op, f: Tristate, n: Tristate, e2: Tristate, a: Tristate, b: Tristate)
    requires CommonFactor(op, f, n, a, e2, b) && a == Unit(op)
    ensures Apply(op, e2, n) == e2
  {
  }

  /** When extraction leaves nothing of n, e2 is at least as strong as n. */
  lemma ExtractsAll(env: Env, op: Op, n: Expr, e2: Expr)
    requires ExtractCommon(op, n, e2).1 == Neutral(op)
    ensures Apply(op, Val(env, e2), Val(env, n)) == Val(env, e2)
  {
    var (t, a, b) := ExtractCommon(op, n, e2);
    ExtractCommonFactor(env, op, n, e2);
    ConstantValues(env, op);
    FactorAbsorbed(op, FactorValue(env, op, t), Val(env, n), Val(env, e2), Val(env, a), Val(env, b));
  }

  lemma ContradictsMeans(env: Env, op: Op, x: Expr, e2: Expr)
    requires Sane(env) && Contradicts(op, x, e2)
    ensures Apply(op, Val(env, e2), Negate(Val(env, x))) == Val(env, e2)
  {
    TransformValue(env, Not(x));
    ExtractsAll(env, op, Transform(Not(x)), e2);
    assert Val(env, Not(x)) == Negate(Val(env, x));
  }

  /** x and something at least as strong as !x under AND: at most `mod`, so `n` refines it. */
  lemma ContradictionRefines(op: Op, chain: Tristate, x: Tristate, e2: Tristate, rest: Tristate)
    requires chain == Apply(op, x, rest)
    requires Apply(op, chain, e2) == chain
    requires Apply(op, e2, Negate(x)) == e2
    ensures Refines(chain, Negate(Unit(op)))
  {
  }

  lemma ApplyRefines(op: Op, a: Tristate, b: Tristate, rest: Tristate)
    requires Refines(a, b)
    ensures Refines(Apply(op, a, rest), Apply(op, b, rest))
  {
  }

  lemma FoldAbsorbing(env: Env, op: Op, xs: seq<Expr>, i: nat)
    requires i < |xs|
    ensures Fold(env, op, xs[i := Absorbing(op)]) == Negate(Unit(op))
  {
    FoldAt(env, op, xs, i, Absorbing(op));
    ConstantValues(env, op);
  }

  /** A node of a chain is at least as strong as the chain. */
  lemma NodeBounds(env: Env, op: Op, xs: seq<Expr>, node: Expr, lo: nat)
    requires lo + |Operands(op, node)| <= |xs|
    ensures var e2 := WithOperands(op, node, xs[lo..lo + |Operands(op, node)|]);
            Apply(op, Fold(env, op, xs), Val(env, e2)) == Fold(env, op, xs)
  {
    var hi := lo + |Operands(op, node)|;
    WithOperandsValue(env, op, node, xs[lo..hi]);
    FoldSlice(env, op, xs, lo, hi);
  }

  /** Firing the contradiction rule on operand i, opposed by a part of the chain worth e2. */
  lemma ContradictionStep(env: Env, op: Op, xs: seq<Expr>, i: nat, e2: Tristate)
    requires i < |xs|
    requires Apply(op, Fold(env, op, xs), e2) == Fold(env, op, xs)
    requires Apply(op, e2, Negate(Val(env, xs[i]))) == e2
    ensures Refines(Fold(env, op, xs), Fold(env, op, xs[i := Absorbing(op)]))
  {
    FoldAt(env, op, xs, i, xs[i]);
    assert xs[i := xs[i]] == xs;
    FoldAbsorbing(env, op, xs, i);
    ContradictionRefines(op, Fold(env, op, xs), Val(env, xs[i]), e2, Fold(env, op, xs[i := Neutral(op)]));
  }

  lemma Dups2FireRefines(env: Env, op: Op, xs: seq<Expr>, i: nat, e2: Expr)
    requires Sane(env) && i < |xs|
    requires Apply(op, Fold(env, op, xs), Val(env, e2)) == Fold(env, op, xs)
    requires Contradicts(op, xs[i], e2)
    ensures Refines(Fold(env, op, xs), Fold(env, op, xs[i := Absorbing(op)]))
  {
    ContradictsMeans(env, op, xs[i], e2);
    ContradictionStep(env, op, xs, i, Val(env, e2));
  }

  lemma FoldRefines(env: Env, op: Op, xs: seq<Expr>, i: nat, x: Expr)
    requires i < |xs| && Refines(Val(env, xs[i]), Val(env, x))
    ensures Refines(Fold(env, op, xs), Fold(env, op, xs[i := x]))
  {
    FoldAt(env, op, xs, i, x);
    FoldAt(env, op, xs, i, xs[i]);
    assert xs[i := xs[i]] == xs;
    ApplyRefines(op, Val(env, xs[i]), Val(env, x), Fold(env, op, xs[i := Neutral(op)]));
  }

  lemma {:induction false} Dups2StepRefines(env: Env, op: Op, xs: seq<Expr>, i: nat, node: Expr, lo: nat)
    requires Sane(env) && i < |xs| && NoOp(op, xs) && lo + |Operands(op, node)| <= |xs|
    ensures Refines(Fold(env, op, xs), Fold(env, op, Dups2Step(op, xs, i, node, lo).0))
    decreases TotalSize(xs), 1
  {
    if !(!IsOp(op, node) && lo == i) && xs[i].Bin? {
      TotalSizeUpdate(xs, i, xs[i]);
      Dups2Refines(env, xs[i]);
      var x := Dups2(xs[i]).0;
      var ys := xs[i := x];
      FoldRefines(env, op, xs, i, x);
      var e2 := WithOperands(op, node, ys[lo..lo + |Operands(op, node)|]);
      if Contradicts(op, x, e2) {
        NodeBounds(env, op, ys, node, lo);
        Dups2FireRefines(env, op, ys, i, e2);
      }
    }
  }

  lemma {:induction false} Dups2RowRefines(env: Env, op: Op, xs: seq<Expr>, i: nat, node: Expr, lo: nat)
    requires Sane(env) && i < |xs| && NoOp(op, xs) && lo + |Operands(op, node)| <= |xs|
    ensures Refines(Fold(env, op, xs), Fold(env, op, Dups2Row(op, xs, i, node, lo).0))
    decreases TotalSize(xs), 2, node
  {
    if IsOp(op, node) {
      var (ys, n) := Dups2Row(op, xs, i, node.left, lo);
      var mid := lo + |Operands(op, node.left)|;
      var (zs, m) := Dups2Row(op, ys, i, node.right, mid);
      Dups2RowRefines(env, op, xs, i, node.left, lo);
      Dups2RowRefines(env, op, ys, i, node.right, mid);
      Dups2StepRefines(env, op, zs, i, node, lo);
    } else {
      Dups2StepRefines(env, op, xs, i, node, lo);
    }
  }

  lemma {:induction false} Dups2RowsRefines(env: Env, op: Op, xs: seq<Expr>, i: nat, hi: nat, e: Expr)
    requires Sane(env) && i <= hi <= |xs| && NoOp(op, xs) && |Operands(op, e)| == |xs|
    ensures Refines(Fold(env, op, xs), Fold(env, op, Dups2Rows(op, xs, i, hi, e).0))
    decreases TotalSize(xs), 3, hi - i
  {
    if i < hi {
      Dups2RowRefines(env, op, xs, i, e, 0);
      Dups2RowsRefines(env, op, Dups2Row(op, xs, i, e, 0).0, i + 1, hi, e);
    }
  }

  /** The contradiction pass never changes a definite value; `mod` may become definite. */
  lemma {:induction false} Dups2Refines(env: Env, e: Expr)
    requires Sane(env)
    ensures Refines(Val(env, e), Val(env, Dups2(e).0))
    decreases Size(e), 0
  {
    if e.Bin? {
      OperandsFacts(e.op, e);
      var xs := Operands(e.op, e);
      Dups2RowsRefines(env, e.op, xs, 0, |xs|, e);
      WithOperandsValue(env, e.op, e, Dups2Rows(e.op, xs, 0, |xs|, e).0);
      OperandsValue(env, e.op, e);
    }
  }

  // ---------------------------------------------------------------- expr_eliminate_dups

  /** Rounds of both passes and constant elimination until a round finds nothing.  A round
      that finds something leaves a constant operand, so constant elimination shrinks the tree. */
  function EliminateDups(e: Expr): (r: Expr)
    ensures Size(r) <= Size(e)
    decreases Size(e)
  {
    var (a, n) := Dups1(e);
    var (b, m) := Dups2(a);
    if n + m == 0 then b
    else
      Dups1Progress(e);
      Dups2Progress(a);
      EliminateYNNormal(b);
      EliminateDups(EliminateYN(b))
  }

  lemma {:induction false} EliminateDupsRefines(env: Env, e: Expr)
    requires Sane(env)
    ensures Refines(Val(env, e), Val(env, EliminateDups(e)))
    decreases Size(e)
  {
    var (a, n) := Dups1(e);
    var (b, m) := Dups2(a);
    Dups1Value(env, e);
    Dups2Refines(env, a);
    if n + m != 0 {
      Dups1Progress(e);
      Dups2Progress(a);
      EliminateYNNormal(b);
      EliminateYNValue(env, b);
      EliminateDupsRefines(env, EliminateYN(b));
    }
  }

  /** Without `mod` the result has exactly the old value. */
  lemma EliminateDupsExact(env: Env, e: Expr)
    requires Sane(env) && ModFree(env) && NoModLiteral(e)
    ensures Val(env, EliminateDups(e)) == Val(env, e)
  {
    EliminateDupsRefines(env, e);
    TwoValued(env, e);
  }

  /** No further rewriting applies: neither pass has anything to do. */
  ghost predicate Settled(e: Expr) { Deduplicated(e) && ConflictFree(e) }

  /** The loop stops in a settled expression, and leaves exactly those alone. */
  lemma {:induction false} EliminateDupsSettles(e: Expr)
    ensures Settled(EliminateDups(e))
    ensures Settled(e) <==> EliminateDups(e) == e
    decreases Size(e)
  {
    var (a, n) := Dups1(e);
    var (b, m) := Dups2(a);
    Dups1Progress(e);
    Dups2Progress(a);
    Dups1Quiet(e);
    Dups2Quiet(a);
    if n + m != 0 {
      EliminateYNNormal(b);
      EliminateDupsSettles(EliminateYN(b));
    }
  }

  /** In the result no two operands of one AND/OR chain, at any depth, are equal under `expr_eq`. */
  lemma NoEqualOperands(e: Expr, r: Expr, i: nat, j: nat)
    requires Part(r, EliminateDups(e)) && r.Bin? && i < |Operands(r.op, r)| && j < |Operands(r.op, r)|
    ensures ExprEq(Operands(r.op, r)[i], Operands(r.op, r)[j]) <==> i == j
  {
    EliminateDupsSettles(e);
    DeduplicatedPart(r, EliminateDups(e));
    ExprEqReflexive(Operands(r.op, r)[i]);
  }

  /** Nor are two operands of one chain left, at any depth, that say something about one symbol which a
      single operand can say. */
  lemma NothingToJoin(e: Expr, r: Expr, s: Symbol, i: nat, j: nat)
    requires Part(r, EliminateDups(e)) && r.Bin? && i < |Operands(r.op, r)| && j < |Operands(r.op, r)|
    requires IsLogical(s) && i != j
    ensures !Joinable(r.op, s, Operands(r.op, r)[i], Operands(r.op, r)[j])
  {
    EliminateDupsSettles(e);
    DeduplicatedPart(r, EliminateDups(e));
    var (x, y) := (Operands(r.op, r)[i], Operands(r.op, r)[j]);
    assert Join(r.op, x, y).None?;
    if Joinable(r.op, s, x, y) { JoinFound(r.op, s, x, y); }
  }

  // ---------------------------------------------------------------- exactness needs the absence of mod

  /** (s || !s) && (!s && s) */
  function Witness(s: Symbol): Expr {
    Bin(And, Bin(Or, Sym(s), Not(Sym(s))), Bin(And, Not(Sym(s)), Sym(s)))
  }

  lemma WitnessFirstPass(s: Symbol)
    requires IsTristate(s)
    ensures Dups1(Witness(s)) == (Witness(s), 0)
  {
    var e := Witness(s);
    var o := e.left;
    assert Operands(Or, o.left) == [Sym(s)] && Operands(Or, o.right) == [Not(Sym(s))];
    assert Operands(Or, o) == [Sym(s), Not(Sym(s))];
    assert Deduplicated(Sym(s)) && Deduplicated(Not(Sym(s)));
    assert DeduplicatedBelow(Or, o.left) && DeduplicatedBelow(Or, o.right);
    assert Deduplicated(o);
    assert DeduplicatedBelow(And, e.right.left) && DeduplicatedBelow(And, e.right.right);
    assert Operands(And, e.right.left) == [Not(Sym(s))] && Operands(And, e.right.right) == [Sym(s)];
    assert Operands(And, e.left) == [o];
    assert Operands(And, e.right) == [Not(Sym(s)), Sym(s)];
    assert Operands(And, e) == [o, Not(Sym(s)), Sym(s)];
    assert DeduplicatedBelow(And, e.right);
    assert Deduplicated(e);
    Dups1Quiet(e);
    Dups1Progress(e);
  }

  lemma WitnessContradicts(s: Symbol)
    requires IsTristate(s)
    ensures var o := Witness(s).left;
            && !Contradicts(And, o, Sym(s)) && !Contradicts(And, o, Not(Sym(s)))
            && Contradicts(And, o, Witness(s).right)
  {
    var a, b := Not(Sym(s)), Sym(s);
    assert Transform(a) == a && Transform(b) == b;
    assert Transform(Bin(Or, b, a)) == Bin(Or, b, a);
    assert Transform(Not(a)) == b;
    assert Transform(Bin(And, a, Not(a))) == Bin(And, a, b);
    assert Transform(Not(Bin(Or, b, a))) == Bin(And, a, b);
    var n := Bin(And, a, b);
    var y := YES_EXPR;
    assert ExtractEq(And, None, a, b) == (None, a, b) && ExtractEq(And, None, b, b) == (Some(b), y, y);
    assert ExtractEq(And, None, n, b) == (Some(b), Bin(And, a, y), y);
    assert EliminateYN(Bin(And, a, y)) == a;
    assert ExtractEq(And, None, a, a) == (Some(a), y, y) && ExtractEq(And, Some(a), b, y) == (Some(a), b, y);
    assert ExtractEq(And, None, n, a) == (Some(a), Bin(And, y, b), y);
    assert EliminateYN(Bin(And, y, b)) == b;
    assert ExtractEq(And, Some(a), y, b) == (Some(a), y, b);
    assert ExtractEq(And, None, a, n) == (Some(a), y, Bin(And, y, b));
    assert ExtractEq(And, Some(a), b, b) == (Some(Bin(And, a, b)), y, y);
    assert ExtractEq(And, Some(a), b, Bin(And, y, b)) == (Some(Bin(And, a, b)), y, Bin(And, y, y));
    assert ExtractEq(And, None, n, n).1 == Bin(And, y, y);
    assert EliminateYN(Bin(And, y, y)) == y;
  }

  lemma {:induction false} PlainRow(op: Op, xs: seq<Expr>, i: nat, node: Expr, lo: nat)
    requires i < |xs| && NoOp(op, xs) && lo + |Operands(op, node)| <= |xs| && !xs[i].Bin?
    ensures Dups2Row(op, xs, i, node, lo) == (xs, 0)
    decreases node
  {
    if IsOp(op, node) {
      PlainRow(op, xs, i, node.left, lo);
      PlainRow(op, xs, i, node.right, lo + |Operands(op, node.left)|);
    }
  }

  lemma WitnessOperandQuiet(s: Symbol)
    requires IsTristate(s)
    ensures Dups2(Witness(s).left) == (Witness(s).left, 0)
  {
    var o, a, b := Witness(s).left, Not(Sym(s)), Sym(s);
    assert Operands(Or, b) == [b] && Operands(Or, a) == [a] && Operands(Or, o) == [b, a];
    assert ConflictFree(a) && ConflictFree(b);
    assert ConflictFreeBelow(Or, b) && ConflictFreeBelow(Or, a);
    assert ConflictFree(o);
    Dups2Quiet(o);
    Dups2Progress(o);
  }

  /** The first operand against the nodes of the chain: only the last one contradicts it. */
  lemma WitnessFirstRow(s: Symbol)
    requires IsTristate(s)
    ensures var xs := [Witness(s).left, Not(Sym(s)), Sym(s)];
            && Operands(And, Witness(s)) == xs && NoOp(And, xs)
            && Dups2Row(And, xs, 0, Witness(s), 0) == (xs[0 := NO_EXPR], 1)
  {
    var e := Witness(s);
    var o, a, b := e.left, Not(Sym(s)), Sym(s);
    var xs := [o, a, b];
    assert Operands(And, o) == [o] && Operands(And, a) == [a] && Operands(And, b) == [b];
    assert Operands(And, e.right) == [a, b];
    assert Operands(And, e) == xs;
    WitnessOperandQuiet(s);
    WitnessContradicts(s);
    ThreeSlices(o, a, b);
    WitnessStep(s, xs, a, 1);
    WitnessStep(s, xs, b, 2);
    WitnessStep(s, xs, e.right, 1);
    assert Dups2Row(And, xs, 0, o, 0) == (xs, 0);
    assert Dups2Row(And, xs, 0, e.right, 1) == (xs[0 := NO_EXPR], 1);
    assert Dups2Step(And, xs[0 := NO_EXPR], 0, e, 0) == (xs[0 := NO_EXPR], 0);
  }

  lemma ThreeSlices(o: Expr, a: Expr, b: Expr)
    ensures [o, a, b][1..2] == [a] && [o, a, b][2..3] == [b] && [o, a, b][1..3] == [a, b]
  {
  }

  lemma WitnessStep(s: Symbol, xs: seq<Expr>, node: Expr, lo: nat)
    requires IsTristate(s) && |xs| == 3 && xs[0] == Witness(s).left && NoOp(And, xs) && lo >= 1
    requires lo + |Operands(And, node)| <= |xs| && xs[lo..lo + |Operands(And, node)|] == Operands(And, node)
    ensures Dups2Step(And, xs, 0, node, lo) ==
            if Contradicts(And, xs[0], node) then (xs[0 := NO_EXPR], 1) else (xs, 0)
  {
    WitnessOperandQuiet(s);
    assert xs[0 := xs[0]] == xs;
    WithOwnOperands(And, node);
  }

  lemma WitnessResult(s: Symbol)
    requires IsTristate(s)
    ensures EliminateDups(Witness(s)) == NO_EXPR
  {
    var e := Witness(s);
    var xs := Operands(And, e);
    WitnessFirstPass(s);
    WitnessFirstRow(s);
    var ys := xs[0 := NO_EXPR];
    PlainRow(And, ys, 1, e, 0);
    PlainRow(And, ys, 2, e, 0);
    assert Dups2Rows(And, ys, 2, 3, e) == (ys, 0) by { assert Dups2Rows(And, ys, 3, 3, e) == (ys, 0); }
    assert Dups2Rows(And, ys, 1, 3, e) == (ys, 0);
    assert Dups2Rows(And, xs, 0, 3, e) == (ys, 1);
    var r := WithOperands(And, e, ys);
    assert |Operands(And, e.left)| == 1;
    assert ys[..1] == [NO_EXPR] && !IsOp(And, e.left);
    assert WithOperands(And, e.left, ys[..1]) == NO_EXPR;
    assert r == Bin(And, NO_EXPR, r.right);
    assert Dups2(e) == (r, 1);
    assert EliminateYN(r) == NO_EXPR;
    assert EliminateDups(NO_EXPR) == NO_EXPR;
  }

  /** The value is kept for every expression exactly when no symbol is `mod`. */
  lemma EliminateDupsNeedsModFree(env: Env)
    requires Sane(env)
    ensures ModFree(env) <==>
            forall e: Expr :: NoModLiteral(e) ==> Val(env, EliminateDups(e)) == Val(env, e)
  {
    if ModFree(env) {
      forall e: Expr | NoModLiteral(e) ensures Val(env, EliminateDups(e)) == Val(env, e) {
        EliminateDupsExact(env, e);
      }
    } else {
      var s: Symbol :| IsLogical(s) && env.tri(s) == MOD;
      WitnessResult(s);
      LiteralValues(env);
      var o, a := Witness(s).left, Witness(s).right;
      assert Val(env, Sym(s)) == MOD && Val(env, Not(Sym(s))) == MOD;
      assert NoModLiteral(Sym(s)) && NoModLiteral(Not(Sym(s)));
      assert NoModLiteral(o) && NoModLiteral(a) && Val(env, o) == MOD && Val(env, a) == MOD;
      assert NoModLiteral(Witness(s)) && Val(env, Witness(s)) == MOD;
    }
  }
}
