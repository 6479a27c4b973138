/** When the second pass replaces an operand, and what no chain has left when the elimination is done:
    stated on the forms of the operands, without the test itself. */
module Contradictions {
  import opened Expressions
  import opened Elimination
  import opened Transformation
  import opened Joining
  import opened Duplicates
  import opened DuplicateMeaning
  import opened Matching
  import opened MenuDependencies

  // ---------------------------------------------------------------- extraction

  function FactorForms(op: Op, acc: Option<Expr>): multiset<Form> { if acc.None? then multiset{} else Left(op, acc.value) }

  /** The factor gains the operands that both slots lose. */
  ghost predicate Extracts(op: Op, acc: Option<Expr>, e1: Expr, e2: Expr, t: Option<Expr>, a: Expr, b: Expr) {
    Cancels(op, e1, e2, a, b) && FactorForms(op, t) == FactorForms(op, acc) + Left(op, e1) * Left(op, e2)
  }

  lemma CommonBoth(l: multiset<Form>, r: multiset<Form>, b: multiset<Form>)
    ensures l * b + r * (b - l) == (l + r) * b && b * l + (b - l) * r == b * (l + r)
  {
  }

  lemma ExtractsFirst(op: Op, acc: Option<Expr>, p: Expr, q: Expr, e2: Expr, t: Option<Expr>, l: Expr, f: Expr,
                      u: Option<Expr>, r: Expr, g: Expr)
    requires Extracts(op, acc, p, e2, t, l, f) && Extracts(op, t, q, f, u, r, g)
    ensures Extracts(op, acc, Bin(op, p, q), e2, u, Bin(op, l, r), g)
  {
    CancelsFirst(op, p, q, e2, l, f, r, g);
    BothLeft(op, p, q);
    CommonBoth(Left(op, p), Left(op, q), Left(op, e2));
  }

  lemma ExtractsSecond(op: Op, acc: Option<Expr>, p: Expr, q: Expr, e1: Expr, t: Option<Expr>, l: Expr, f: Expr,
                       u: Option<Expr>, r: Expr, g: Expr)
    requires Extracts(op, acc, e1, p, t, f, l) && Extracts(op, t, f, q, u, g, r)
    ensures Extracts(op, acc, e1, Bin(op, p, q), u, g, Bin(op, l, r))
  {
    CancelsSecond(op, p, q, e1, l, f, r, g);
    BothLeft(op, p, q);
    CommonBoth(Left(op, p), Left(op, q), Left(op, e1));
  }

  /** Exactly the common operands are extracted, as often as they occur in both. */
  lemma {:induction false} ExtractEqExtracts(op: Op, acc: Option<Expr>, e1: Expr, e2: Expr)
    requires Cancelling(op, e1) && Cancelling(op, e2)
    ensures var (t, a, b) := ExtractEq(op, acc, e1, e2); Extracts(op, acc, e1, e2, t, a, b)
    decreases Size(e1) + Size(e2)
  {
    if IsOp(op, e1) {
      var (t, l, f) := ExtractEq(op, acc, e1.left, e2);
      var (u, r, g) := ExtractEq(op, t, e1.right, f);
      ExtractEqExtracts(op, acc, e1.left, e2);
      ExtractEqExtracts(op, t, e1.right, f);
      ExtractsFirst(op, acc, e1.left, e1.right, e2, t, l, f, u, r, g);
    } else if IsOp(op, e2) {
      var (t, f, l) := ExtractEq(op, acc, e1, e2.left);
      var (u, g, r) := ExtractEq(op, t, f, e2.right);
      ExtractEqExtracts(op, acc, e1, e2.left);
      ExtractEqExtracts(op, t, f, e2.right);
      ExtractsSecond(op, acc, e2.left, e2.right, e1, t, l, f, u, r, g);
    } else {
      OperandsExtracted(op, acc, e1, e2);
    }
  }

  lemma OperandsExtracted(op: Op, acc: Option<Expr>, e1: Expr, e2: Expr)
    requires Cancelling(op, e1) && Cancelling(op, e2) && !IsOp(op, e1) && !IsOp(op, e2)
    ensures var (t, a, b) := ExtractEq(op, acc, e1, e2); Extracts(op, acc, e1, e2, t, a, b)
  {
    if e1 == Neutral(op) || e2 == Neutral(op) {
      NeutralExtracted(op, acc, e1, e2);
    } else {
      ExprEqExactly(e1, e2);
      if ExprEq(e1, e2) { EqualExtracted(op, acc, e1, e2); } else { DifferentKept(op, acc, e1, e2); }
    }
  }

  lemma NeutralExtracted(op: Op, acc: Option<Expr>, e1: Expr, e2: Expr)
    requires Cancelling(op, e1) && Cancelling(op, e2) && !IsOp(op, e1) && !IsOp(op, e2)
    requires e1 == Neutral(op) || e2 == Neutral(op)
    ensures var (t, a, b) := ExtractEq(op, acc, e1, e2); Extracts(op, acc, e1, e2, t, a, b)
  {
    if e1 == e2 {
      assert ExprEq(e1, e2) && Left(op, e1) == multiset{};
      if acc.Some? { BothLeft(op, acc.value, e1); }
    } else {
      assert !ExprEq(e1, e2);
      NothingTaken(Left(op, e1), Left(op, e2));
    }
  }

  lemma NothingTaken(l: multiset<Form>, r: multiset<Form>)
    requires l == multiset{} || r == multiset{}
    ensures l - r == l && r - l == r && l * r == multiset{}
  {
  }

  lemma EqualExtracted(op: Op, acc: Option<Expr>, e1: Expr, e2: Expr)
    requires !IsOp(op, e1) && !IsOp(op, e2) && ExprEq(e1, e2) && FormOf(e1) == FormOf(e2) && e1 != Neutral(op) && e2 != Neutral(op)
    ensures var (t, a, b) := ExtractEq(op, acc, e1, e2); Extracts(op, acc, e1, e2, t, a, b)
  {
    var f := FormOf(e1);
    assert Left(op, e1) == multiset{f} && Left(op, e2) == multiset{f};
    assert multiset{f} - multiset{f} == multiset{} && multiset{f} * multiset{f} == multiset{f};
    if acc.Some? { BothLeft(op, acc.value, e1); }
  }

  lemma DifferentKept(op: Op, acc: Option<Expr>, e1: Expr, e2: Expr)
    requires !IsOp(op, e1) && !IsOp(op, e2) && !ExprEq(e1, e2) && FormOf(e1) != FormOf(e2) && e1 != Neutral(op) && e2 != Neutral(op)
    requires Cancelling(op, e1) && Cancelling(op, e2)
    ensures var (t, a, b) := ExtractEq(op, acc, e1, e2); Extracts(op, acc, e1, e2, t, a, b)
  {
    var (f, g) := (FormOf(e1), FormOf(e2));
    assert Left(op, e1) == multiset{f} && Left(op, e2) == multiset{g};
    OneOperand(f, g);
    assert multiset{f} * multiset{g} == multiset{};
  }

  /** Expressions without constants. */
  predicate Plain(e: Expr) { ConstantFree(e) && !IsYesNo(e) }

  lemma {:induction false} SomeForm(op: Op, e: Expr)
    ensures FormsOf(op, e) != multiset{}
  {
    if IsOp(op, e) { SomeForm(op, e.left); } else { assert FormOf(e) in FormsOf(op, e); }
  }

  /** Nothing is left of the first expression exactly if its operands all occur in the second one. */
  lemma ExtractCommonExactly(op: Op, e1: Expr, e2: Expr)
    requires Plain(e1) && Plain(e2)
    ensures ExtractCommon(op, e1, e2).1 == Neutral(op) <==> FormsOf(op, e1) <= FormsOf(op, e2)
  {
    var (t, a, b) := ExtractEq(op, None, e1, e2);
    var (l1, l2) := (FormsOf(op, e1), FormsOf(op, e2));
    NothingCancelled(op, e1);
    NothingCancelled(op, e2);
    ExtractEqExtracts(op, None, e1, e2);
    EliminateYNLeft(op, a);
    SomeForm(op, e1);
    assert l1 - l2 == multiset{} <==> l1 <= l2;
    assert l1 <= l2 ==> l1 * l2 == l1;
  }

  // ---------------------------------------------------------------- the operands of a negation

  /** The form of !x: negations go to the operands of a chain, and its operator turns into the other one. */
  function NegatedForm(x: Expr): Form
    decreases x, 1
  {
    match x
    case Sym(s) => if s == SYMBOL_MOD then Atom(x) else Negated(Atom(x))
    case Cmp(equal, s1, s2) => Atom(Cmp(!equal, s1, s2))
    case Not(a) => FormOf(a)
    case Bin(o, _, _) => Chain(Dual(o), NegatedForms(Dual(o), x))
  }

  /** The operands of !x, as a chain of `op` nodes. */
  function NegatedForms(op: Op, x: Expr): multiset<Form>
    decreases x, if IsOp(Dual(op), x) then 0 else 2
  {
    if IsOp(Dual(op), x) then NegatedForms(op, x.left) + NegatedForms(op, x.right) else multiset{NegatedForm(x)}
  }

  /** NOT goes through a chain to its operands, in their order. */
  lemma NegatedChain(op: Op, l: Expr, r: Expr)
    requires NormalForm(l) && NormalForm(r)
    ensures Transform(Not(Bin(op, l, r))) == Bin(Dual(op), Transform(Not(l)), Transform(Not(r)))
  {
    TransformFixed(Bin(op, l, r));
    TransformFixed(l);
    TransformFixed(r);
  }

  /** The normal form of a negation has these operands, and no constants. */
  lemma {:induction false} NegationForms(op: Op, x: Expr)
    requires NormalForm(x) && Plain(x)
    ensures Plain(Transform(Not(x))) && FormsOf(op, Transform(Not(x))) == NegatedForms(op, x)
    ensures FormOf(Transform(Not(x))) == NegatedForm(x)
    decreases x
  {
    match x
    case Bin(o, l, r) =>
      NegatedChain(o, l, r);
      NegationForms(Dual(o), l);
      NegationForms(Dual(o), r);
      var n := Transform(Not(x));
      assert FormsOf(Dual(o), n) == NegatedForms(Dual(o), x);
      assert FormOf(n) == NegatedForm(x);
      if op == Dual(o) { assert IsOp(Dual(op), x); } else { assert !IsOp(op, n) && !IsOp(Dual(op), x); }
    case Not(a) => TransformFixed(a);
    case Sym(s) =>
      assert Transform(Not(x)) == if s == SYMBOL_MOD then x else Not(x);
    case Cmp(equal, s1, s2) =>
      TransformFixed(x);
      assert Transform(Not(x)) == Cmp(!equal, s1, s2);
  }

  /** The test succeeds exactly if the operands of the negation all occur among those of the other side. */
  lemma ContradictsExactly(op: Op, x: Expr, e2: Expr)
    requires NormalForm(x) && Plain(x) && Plain(e2)
    ensures Contradicts(op, x, e2) <==> NegatedForms(op, x) <= FormsOf(op, e2)
  {
    NegationForms(op, x);
    ExtractCommonExactly(op, Transform(Not(x)), e2);
  }

  // ---------------------------------------------------------------- what the second pass replaces

  /** Operand i is replaced, once it has been simplified itself, exactly if the operands of its negation all
      occur in the node that it is compared with. */
  lemma ReplacedExactly(op: Op, xs: seq<Expr>, i: nat, node: Expr, lo: nat)
    requires i < |xs| && NoOp(op, xs) && lo + |Operands(op, node)| <= |xs| && (IsOp(op, node) || lo != i) && xs[i].Bin?
    requires var x := Dups2(xs[i]).0;
             var other := WithOperands(op, node, xs[i := x][lo..lo + |Operands(op, node)|]);
             NormalForm(x) && Plain(x) && Plain(other)
    ensures var x := Dups2(xs[i]).0;
            var other := WithOperands(op, node, xs[i := x][lo..lo + |Operands(op, node)|]);
            Dups2Step(op, xs, i, node, lo).0 ==
              xs[i := if NegatedForms(op, x) <= FormsOf(op, other) then Absorbing(op) else x]
  {
    var x := Dups2(xs[i]).0;
    TotalSizeUpdate(xs, i, x);
    ContradictsExactly(op, x, WithOperands(op, node, xs[i := x][lo..lo + |Operands(op, node)|]));
  }

  // ---------------------------------------------------------------- what no chain of the result has

  lemma {:induction false} UnopposedShift(op: Op, x: Expr, i: nat, node: Expr, lo: nat, d: nat)
    ensures Unopposed(op, x, i + d, node, lo + d) <==> Unopposed(op, x, i, node, lo)
  {
    if IsOp(op, node) {
      UnopposedShift(op, x, i, node.left, lo, d);
      UnopposedShift(op, x, i, node.right, lo + |Operands(op, node.left)|, d);
    }
  }

  lemma ConflictFreeHalf(e: Expr, half: Expr)
    requires ConflictFree(e) && e.Bin? && (half == e.left || half == e.right)
    ensures ConflictFree(half)
  {
    if IsOp(e.op, half) {
      ConflictFreeUnfold(e);
      ConflictFreeUnfold(half);
      var d := if half == e.left then 0 else |Operands(e.op, e.left)|;
      var xs, ys := Operands(e.op, e), Operands(e.op, half);
      assert forall x :: x in ys ==> x in xs;
      forall i | 0 <= i < |ys| && ys[i].Bin? ensures Unopposed(e.op, ys[i], i, half, 0) {
        assert xs[i + d] == ys[i] && Unopposed(e.op, xs[i + d], i + d, e, 0);
        if half == e.right { UnopposedShift(e.op, ys[i], i, half, 0, d); }
      }
    }
  }

  lemma {:induction false} ConflictFreePart(x: Expr, e: Expr)
    requires ConflictFree(e) && Part(x, e)
    ensures ConflictFree(x)
  {
    if x != e {
      var half := if Part(x, e.left) then e.left else e.right;
      ConflictFreeHalf(e, half);
      ConflictFreePart(x, half);
    }
  }

  lemma {:induction false} NormalConstantFree(e: Expr)
    requires NormalForm(e)
    ensures ConstantFree(e) <==> !HasConstant(e)
  {
    if e.Bin? { NormalConstantFree(e.left); NormalConstantFree(e.right); }
  }

  lemma {:induction false} PartPlain(x: Expr, e: Expr)
    requires NormalForm(e) && ConstantFree(e) && Part(x, e)
    ensures NormalForm(x) && ConstantFree(x)
  {
    if x != e { PartPlain(x, if Part(x, e.left) then e.left else e.right); }
  }

  lemma {:induction false} OperandPlain(op: Op, e: Expr, x: Expr)
    requires NormalForm(e) && Plain(e) && x in Operands(op, e)
    ensures NormalForm(x) && Plain(x)
  {
    if IsOp(op, e) { OperandPlain(op, if x in Operands(op, e.left) then e.left else e.right, x); }
  }

  /** The elimination leaves no constants where there were none, unless nothing else is left. */
  lemma {:induction false} EliminateDupsConstantFree(e: Expr)
    requires NormalForm(e) && ConstantFree(e)
    ensures NormalForm(EliminateDups(e)) && ConstantFree(EliminateDups(e))
    decreases Size(e)
  {
    var (a, n) := Dups1(e);
    var (b, m) := Dups2(a);
    EliminateDupsNormal(e);
    Dups1Progress(e);
    Dups2Progress(a);
    if n + m != 0 {
      Dups1Normal(e);
      Dups2Normal(a);
      EliminateYNNormal(b);
      EliminateYNKeepsNormal(b);
      NormalConstantFree(EliminateYN(b));
      EliminateDupsConstantFree(EliminateYN(b));
    }
  }

  /** In the result no chain, AND or OR, at any depth, has an AND/OR operand whose negation's operands all occur
      in the chain. */
  lemma NoContradiction(e: Expr, r: Expr, x: Expr)
    requires NormalForm(e) && ConstantFree(e) && Part(r, EliminateDups(e)) && r.Bin? && x in Operands(r.op, r) && x.Bin?
    ensures !(NegatedForms(r.op, x) <= FormsOf(r.op, r))
  {
    EliminateDupsConstantFree(e);
    EliminateDupsSettles(e);
    OpposedNowhere(EliminateDups(e), r, x);
  }

  // ---------------------------------------------------------------- two chains from end to end

  /** Two symbols that are no literals. */
  predicate TwoSymbols(a: Symbol, b: Symbol) { a != b && !IsLiteral(a) && !IsLiteral(b) }

  /** (a && b) || (!a || !b), or its dual */
  function Opposed(op: Op, a: Symbol, b: Symbol): Expr {
    Bin(op, Bin(Dual(op), Sym(a), Sym(b)), Bin(op, Not(Sym(a)), Not(Sym(b))))
  }

  lemma OpposedOperands(op: Op, a: Symbol, b: Symbol)
    ensures var x := Bin(Dual(op), Sym(a), Sym(b));
            && Operands(Dual(op), x) == [Sym(a), Sym(b)]
            && Operands(op, Bin(op, Not(Sym(a)), Not(Sym(b)))) == [Not(Sym(a)), Not(Sym(b))]
            && Operands(op, Opposed(op, a, b)) == [x, Not(Sym(a)), Not(Sym(b))]
  {
    var x := Bin(Dual(op), Sym(a), Sym(b));
    assert Operands(op, x) == [x] && Operands(op, Not(Sym(a))) == [Not(Sym(a))] && Operands(op, Not(Sym(b))) == [Not(Sym(b))];
    assert Operands(Dual(op), Sym(a)) == [Sym(a)] && Operands(Dual(op), Sym(b)) == [Sym(b)];
  }

  /** The first pass leaves it alone, and so do both passes the first operand. */
  lemma OpposedQuiet(op: Op, a: Symbol, b: Symbol)
    requires TwoSymbols(a, b)
    ensures Dups1(Opposed(op, a, b)) == (Opposed(op, a, b), 0)
    ensures Dups2(Bin(Dual(op), Sym(a), Sym(b))) == (Bin(Dual(op), Sym(a), Sym(b)), 0)
  {
    var e, x := Opposed(op, a, b), Bin(Dual(op), Sym(a), Sym(b));
    OpposedOperands(op, a, b);
    assert !ExprEq(Sym(a), Sym(b)) && !ExprEq(Sym(b), Sym(a)) && !ExprEq(Not(Sym(a)), Not(Sym(b))) && !ExprEq(Not(Sym(b)), Not(Sym(a)));
    DeduplicatedUnfold(x);
    DeduplicatedUnfold(e);
    Dups1Quiet(e);
    Dups1Progress(e);
    ConflictFreeUnfold(x);
    Dups2Quiet(x);
    Dups2Progress(x);
  }

  /** The second pass replaces the first operand, and nothing else is left. */
  lemma OpposedVanishes(op: Op, a: Symbol, b: Symbol)
    requires TwoSymbols(a, b)
    ensures EliminateDups(Opposed(op, a, b)) == Absorbing(op)
  {
    var e, x, rest := Opposed(op, a, b), Bin(Dual(op), Sym(a), Sym(b)), Bin(op, Not(Sym(a)), Not(Sym(b)));
    OpposedQuiet(op, a, b);
    OpposedSecond(op, a, b);
    var after := Bin(op, Absorbing(op), rest);
    assert EliminateYN(after) == Absorbing(op);
    assert Dups2(e) == (after, 1);
    assert EliminateDups(Absorbing(op)) == Absorbing(op);
  }

  /** An operand that is no chain is left alone by the second pass. */
  lemma {:induction false} AtomRow(op: Op, xs: seq<Expr>, i: nat, node: Expr, lo: nat)
    requires i < |xs| && NoOp(op, xs) && lo + |Operands(op, node)| <= |xs| && !xs[i].Bin?
    ensures Dups2Row(op, xs, i, node, lo) == (xs, 0)
  {
    if IsOp(op, node) {
      AtomRow(op, xs, i, node.left, lo);
      AtomRow(op, xs, i, node.right, lo + |Operands(op, node.left)|);
    }
  }

  lemma OpposedSecond(op: Op, a: Symbol, b: Symbol)
    requires TwoSymbols(a, b)
    ensures Dups2(Opposed(op, a, b)) == (Bin(op, Absorbing(op), Bin(op, Not(Sym(a)), Not(Sym(b)))), 1)
  {
    var e, x, rest := Opposed(op, a, b), Bin(Dual(op), Sym(a), Sym(b)), Bin(op, Not(Sym(a)), Not(Sym(b)));
    OpposedOperands(op, a, b);
    var xs := [x, Not(Sym(a)), Not(Sym(b))];
    var ys := xs[0 := Absorbing(op)];
    OpposedRow(op, a, b);
    AtomRow(op, ys, 1, e, 0);
    AtomRow(op, ys, 2, e, 0);
    assert Dups2Rows(op, ys, 2, 3, e) == (ys, 0);
    assert Dups2Rows(op, ys, 1, 3, e) == (ys, 0);
    assert ys[..1] == [Absorbing(op)] && ys[1..] == [Not(Sym(a)), Not(Sym(b))];
    assert Dups2Rows(op, xs, 0, 3, e) == (ys, 1);
    assert Operands(op, x) == [x] && WithOperands(op, x, [Absorbing(op)]) == Absorbing(op);
    WithOwnOperands(op, rest);
    assert WithOperands(op, e, ys) == Bin(op, Absorbing(op), rest);
  }

  lemma SymbolForms(op: Op, s: Symbol)
    requires !IsLiteral(s)
    ensures FormsOf(op, Not(Sym(s))) == multiset{Negated(Atom(Sym(s)))} == NegatedForms(op, Sym(s))
  {
    assert FormOf(Not(Sym(s))) == Negated(FormOf(Sym(s)));
  }

  lemma OpposedForms(op: Op, a: Symbol, b: Symbol)
    requires TwoSymbols(a, b)
    ensures var (f, g) := (Negated(Atom(Sym(a))), Negated(Atom(Sym(b))));
            f != g && NegatedForms(op, Bin(Dual(op), Sym(a), Sym(b))) == FormsOf(op, Bin(op, Not(Sym(a)), Not(Sym(b)))) == multiset{f, g}
  {
    SymbolForms(op, a);
    SymbolForms(op, b);
    assert FormsOf(op, Bin(op, Not(Sym(a)), Not(Sym(b)))) == FormsOf(op, Not(Sym(a))) + FormsOf(op, Not(Sym(b)));
    assert NegatedForms(op, Bin(Dual(op), Sym(a), Sym(b))) == NegatedForms(op, Sym(a)) + NegatedForms(op, Sym(b));
  }

  /** A settled operand against a node of the chain as it stands. */
  lemma SettledStep(op: Op, xs: seq<Expr>, i: nat, node: Expr, lo: nat)
    requires i < |xs| && NoOp(op, xs) && lo + |Operands(op, node)| <= |xs| && (IsOp(op, node) || lo != i) && xs[i].Bin?
    requires Dups2(xs[i]) == (xs[i], 0) && xs[lo..lo + |Operands(op, node)|] == Operands(op, node)
    ensures Dups2Step(op, xs, i, node, lo) == if Contradicts(op, xs[i], node) then (xs[i := Absorbing(op)], 1) else (xs, 0)
  {
    assert xs[i := xs[i]] == xs;
    WithOwnOperands(op, node);
  }

  /** An operand that only both of the other two together contradict. */
  lemma ThreeSteps(op: Op, x: Expr, p: Expr, q: Expr)
    requires x.Bin? && NoOp(op, [x, p, q]) && Dups2(x) == (x, 0)
    requires !Contradicts(op, x, p) && !Contradicts(op, x, q) && Contradicts(op, x, Bin(op, p, q))
    ensures Operands(op, p) == [p] && Operands(op, q) == [q] && Operands(op, Bin(op, p, q)) == [p, q]
    ensures var xs := [x, p, q];
            && Dups2Step(op, xs, 0, p, 1) == (xs, 0) && Dups2Step(op, xs, 0, q, 2) == (xs, 0)
            && Dups2Step(op, xs, 0, Bin(op, p, q), 1) == (xs[0 := Absorbing(op)], 1)
  {
    var xs := [x, p, q];
    assert xs[1] == p && xs[2] == q && xs[1..2] == [p] && xs[2..3] == [q] && xs[1..3] == [p, q];
    SettledStep(op, xs, 0, p, 1);
    SettledStep(op, xs, 0, q, 2);
    SettledStep(op, xs, 0, Bin(op, p, q), 1);
  }

  lemma ThreeRow(op: Op, x: Expr, p: Expr, q: Expr)
    requires x.Bin? && NoOp(op, [x, p, q]) && Dups2(x) == (x, 0)
    requires !Contradicts(op, x, p) && !Contradicts(op, x, q) && Contradicts(op, x, Bin(op, p, q))
    ensures var xs, e := [x, p, q], Bin(op, x, Bin(op, p, q));
            |Operands(op, e)| == 3 && Dups2Row(op, xs, 0, e, 0) == (xs[0 := Absorbing(op)], 1)
  {
    var xs, rest := [x, p, q], Bin(op, p, q);
    var ys := xs[0 := Absorbing(op)];
    assert xs[0] == x && Operands(op, x) == [x];
    ThreeSteps(op, x, p, q);
    assert Dups2Row(op, xs, 0, x, 0) == (xs, 0);
    assert Dups2Row(op, xs, 0, rest, 1) == (ys, 1);
    assert Dups2Step(op, ys, 0, Bin(op, x, rest), 0) == (ys, 0);
  }

  lemma OpposedRow(op: Op, a: Symbol, b: Symbol)
    requires TwoSymbols(a, b)
    ensures var xs := [Bin(Dual(op), Sym(a), Sym(b)), Not(Sym(a)), Not(Sym(b))];
            NoOp(op, xs) && |Operands(op, Opposed(op, a, b))| == 3 &&
            Dups2Row(op, xs, 0, Opposed(op, a, b), 0) == (xs[0 := Absorbing(op)], 1)
  {
    OpposedQuiet(op, a, b);
    OpposedTests(op, a, b);
    assert NoOp(op, [Bin(Dual(op), Sym(a), Sym(b)), Not(Sym(a)), Not(Sym(b))]);
    ThreeRow(op, Bin(Dual(op), Sym(a), Sym(b)), Not(Sym(a)), Not(Sym(b)));
  }

  /** Only both negations together contradict the operand. */
  lemma OpposedTests(op: Op, a: Symbol, b: Symbol)
    requires TwoSymbols(a, b)
    ensures var x := Bin(Dual(op), Sym(a), Sym(b));
            && !Contradicts(op, x, Not(Sym(a))) && !Contradicts(op, x, Not(Sym(b)))
            && Contradicts(op, x, Bin(op, Not(Sym(a)), Not(Sym(b))))
  {
    var x := Bin(Dual(op), Sym(a), Sym(b));
    var (f, g) := (Negated(Atom(Sym(a))), Negated(Atom(Sym(b))));
    OpposedForms(op, a, b);
    SymbolForms(op, a);
    SymbolForms(op, b);
    assert f in multiset{f, g} && g in multiset{f, g} && f !in multiset{g} && g !in multiset{f};
    ContradictsExactly(op, x, Not(Sym(a)));
    ContradictsExactly(op, x, Not(Sym(b)));
    ContradictsExactly(op, x, Bin(op, Not(Sym(a)), Not(Sym(b))));
  }

  // ---------------------------------------------------------------- which of two equal operands stays

  lemma AtomsUnjoined(op: Op, x: Symbol, y: Symbol)
    requires x != y
    ensures Join(op, Sym(x), Sym(y)).None? && !ExprEq(Sym(x), Sym(y))
  {
  }

  lemma SameJoined(op: Op, x: Symbol)
    ensures Join(op, Sym(x), Sym(x)) == Some(Sym(x))
  {
    ExprEqReflexive(Sym(x));
  }

  /** A row for an atom that joins with none of the others. */
  lemma {:induction false} UnjoinedRow(op: Op, xs: seq<Expr>, i: nat, j: nat)
    requires i < |xs| && j <= |xs| && NoOp(op, xs) && xs[i].Sym?
    requires forall k :: j <= k < |xs| && k != i ==> Join(op, xs[i], xs[k]).None?
    ensures Dups1Row(op, xs, i, j, |xs|) == (xs, 0)
    decreases |xs| - j
  {
    if j < |xs| {
      assert xs[i := xs[i]] == xs;
      UnjoinedRow(op, xs, i, j + 1);
    }
  }

  /** The first of two equal operands turns into the neutral literal, and the other one stays where it is. */
  lemma RepeatedPass(op: Op, a: Symbol, b: Symbol)
    requires TwoSymbols(a, b)
    ensures var xs, ys := [Sym(a), Sym(b), Sym(a)], [Neutral(op), Sym(b), Sym(a)];
            NoOp(op, xs) && Dups1Rows(op, xs, 0, 3) == (ys, 1)
  {
    var xs, ys := [Sym(a), Sym(b), Sym(a)], [Neutral(op), Sym(b), Sym(a)];
    var c := Neutral(op).sym;
    AtomsUnjoined(op, a, b);
    AtomsUnjoined(op, b, a);
    AtomsUnjoined(op, b, c);
    AtomsUnjoined(op, a, c);
    SameJoined(op, a);
    assert xs[0 := Sym(a)] == xs && xs[0 := Neutral(op)][2 := Sym(a)] == ys;
    assert Dups1Step(op, xs, 0, 1) == (xs, 0) && Dups1Step(op, xs, 0, 2) == (ys, 1);
    assert Dups1Row(op, xs, 0, 2, 3) == (ys, 1);
    assert Dups1Row(op, xs, 0, 1, 3) == (ys, 1);
    assert Dups1Row(op, xs, 0, 0, 3) == (ys, 1);
    UnjoinedRow(op, ys, 1, 0);
    UnjoinedRow(op, ys, 2, 0);
    assert Dups1Rows(op, ys, 2, 3) == (ys, 0);
    assert Dups1Rows(op, ys, 1, 3) == (ys, 0);
  }

  /** Of a && b && a, b && a stays, and the same for OR. */
  lemma RepeatedVanishes(op: Op, a: Symbol, b: Symbol)
    requires TwoSymbols(a, b)
    ensures EliminateDups(Bin(op, Bin(op, Sym(a), Sym(b)), Sym(a))) == Bin(op, Sym(b), Sym(a))
  {
    var e, after, r := Bin(op, Bin(op, Sym(a), Sym(b)), Sym(a)), Bin(op, Bin(op, Neutral(op), Sym(b)), Sym(a)), Bin(op, Sym(b), Sym(a));
    var xs, ys := [Sym(a), Sym(b), Sym(a)], [Neutral(op), Sym(b), Sym(a)];
    ChainOfThree(op, Sym(a), Sym(b), Sym(a), ys);
    RepeatedPass(op, a, b);
    assert Dups1(e) == (after, 1);
    AtomsSecond(op, Neutral(op), Sym(b), Sym(a));
    assert EliminateYN(Bin(op, Neutral(op), Sym(b))) == Sym(b) && EliminateYN(after) == r;
    AtomsSettled(op, b, a);
    EliminateDupsSettles(r);
  }

  lemma ChainOfThree(op: Op, x: Expr, y: Expr, z: Expr, ys: seq<Expr>)
    requires x.Sym? && y.Sym? && z.Sym? && |ys| == 3
    ensures var e := Bin(op, Bin(op, x, y), z);
            Operands(op, e) == [x, y, z] && WithOperands(op, e, ys) == Bin(op, Bin(op, ys[0], ys[1]), ys[2])
  {
    assert Operands(op, Bin(op, x, y)) == [x, y];
    assert ys[..2][..1] == [ys[0]] && ys[..2][1..] == [ys[1]] && ys[2..] == [ys[2]];
    assert WithOperands(op, Bin(op, x, y), ys[..2]) == Bin(op, ys[0], ys[1]);
  }

  lemma AtomsSecond(op: Op, x: Expr, y: Expr, z: Expr)
    requires x.Sym? && y.Sym? && z.Sym?
    ensures Dups2(Bin(op, Bin(op, x, y), z)) == (Bin(op, Bin(op, x, y), z), 0)
  {
    var e, xs := Bin(op, Bin(op, x, y), z), [x, y, z];
    ChainOfThree(op, x, y, z, xs);
    AtomRow(op, xs, 0, e, 0);
    AtomRow(op, xs, 1, e, 0);
    AtomRow(op, xs, 2, e, 0);
    assert Dups2Rows(op, xs, 2, 3, e) == (xs, 0);
    assert Dups2Rows(op, xs, 1, 3, e) == (xs, 0);
    assert Dups2Rows(op, xs, 0, 3, e) == (xs, 0);
  }

  lemma AtomsSettled(op: Op, a: Symbol, b: Symbol)
    requires TwoSymbols(a, b)
    ensures Settled(Bin(op, Sym(a), Sym(b)))
  {
    var e := Bin(op, Sym(a), Sym(b));
    assert Operands(op, Sym(a)) == [Sym(a)] && Operands(op, Sym(b)) == [Sym(b)] && Operands(op, e) == [Sym(a), Sym(b)];
    AtomsUnjoined(op, a, b);
    AtomsUnjoined(op, b, a);
    DeduplicatedUnfold(e);
    ConflictFreeUnfold(e);
  }

  // ---------------------------------------------------------------- exactly what is left alone

  /** The chain r has no AND/OR operand whose negation's operands all occur in it. */
  ghost predicate Uncontradicted(r: Expr) {
    r.Bin? ==> forall x :: x in Operands(r.op, r) && x.Bin? ==> !(NegatedForms(r.op, x) <= FormsOf(r.op, r))
  }

  /** The chain r has no two operands that are equal or that a rule replaces by one. */
  ghost predicate Unjoinable(r: Expr) {
    r.Bin? ==> forall i, j :: 0 <= i < |Operands(r.op, r)| && 0 <= j < |Operands(r.op, r)| && i != j ==>
      CannotJoin(r.op, Operands(r.op, r)[i], Operands(r.op, r)[j])
  }

  ghost predicate CannotJoin(op: Op, x: Expr, y: Expr) { !ExprEq(x, y) && forall s, t :: !Rule(op, s, x, y, t) }

  lemma CannotJoinExactly(op: Op, x: Expr, y: Expr)
    ensures CannotJoin(op, x, y) <==> Join(op, x, y).None?
  {
    if Join(op, x, y).Some? { JoinExactly(op, x, y, Join(op, x, y).value); }
    if ExprEq(x, y) { JoinExactly(op, x, y, x); }
    if s, t :| Rule(op, s, x, y, t) { JoinExactly(op, x, y, t); }
  }

  /** What does not occur in a chain does not occur in a part of it. */
  lemma {:induction false} UnopposedWithin(op: Op, x: Expr, i: nat, node: Expr, lo: nat, whole: multiset<Form>)
    requires NormalForm(x) && Plain(x) && NormalForm(node) && Plain(node)
    requires FormsOf(op, node) <= whole && !(NegatedForms(op, x) <= whole)
    ensures Unopposed(op, x, i, node, lo)
    decreases node
  {
    ContradictsExactly(op, x, node);
    if IsOp(op, node) {
      UnopposedWithin(op, x, i, node.left, lo, whole);
      UnopposedWithin(op, x, i, node.right, lo + |Operands(op, node.left)|, whole);
    }
  }

  lemma {:induction false} OperandIsPart(op: Op, e: Expr, x: Expr)
    requires x in Operands(op, e)
    ensures Part(x, e)
  {
    if IsOp(op, e) { OperandIsPart(op, if x in Operands(op, e.left) then e.left else e.right, x); }
  }

  lemma {:induction false} PartOfPart(x: Expr, y: Expr, e: Expr)
    requires Part(x, y) && Part(y, e)
    ensures Part(x, e)
  {
    if y != e { PartOfPart(x, y, if Part(y, e.left) then e.left else e.right); }
  }

  lemma {:induction false} ConflictFreeExactly(e: Expr)
    requires NormalForm(e) && ConstantFree(e)
    ensures ConflictFree(e) <==> forall r :: Part(r, e) ==> Uncontradicted(r)
    decreases Size(e)
  {
    if ConflictFree(e) {
      forall r, x | Part(r, e) && r.Bin? && x in Operands(r.op, r) && x.Bin? ensures !(NegatedForms(r.op, x) <= FormsOf(r.op, r)) {
        OpposedNowhere(e, r, x);
      }
    }
    if e.Bin? && forall r :: Part(r, e) ==> Uncontradicted(r) { ConflictFreeFrom(e); }
  }

  lemma OpposedNowhere(e: Expr, r: Expr, x: Expr)
    requires NormalForm(e) && ConstantFree(e) && ConflictFree(e) && Part(r, e) && r.Bin? && x in Operands(r.op, r) && x.Bin?
    ensures !(NegatedForms(r.op, x) <= FormsOf(r.op, r))
  {
    PartPlain(r, e);
    ConflictFreePart(r, e);
    OperandPlain(r.op, r, x);
    var i :| 0 <= i < |Operands(r.op, r)| && Operands(r.op, r)[i] == x;
    assert Unopposed(r.op, x, i, r, 0);
    ContradictsExactly(r.op, x, r);
  }

  lemma {:induction false} ConflictFreeFrom(e: Expr)
    requires NormalForm(e) && ConstantFree(e) && e.Bin? && forall r :: Part(r, e) ==> Uncontradicted(r)
    ensures ConflictFree(e)
    decreases Size(e)
  {
    var xs := Operands(e.op, e);
    ChainOperands(e);
    ConflictFreeUnfold(e);
    forall x | x in xs ensures ConflictFree(x) {
      OperandIsPart(e.op, e, x);
      PartPlain(x, e);
      forall r | Part(r, x) ensures Uncontradicted(r) { PartOfPart(r, x, e); }
      if x.Bin? { ConflictFreeFrom(x); }
    }
    forall i | 0 <= i < |xs| && xs[i].Bin? ensures Unopposed(e.op, xs[i], i, e, 0) {
      OperandPlain(e.op, e, xs[i]);
      assert Part(e, e) && Uncontradicted(e);
      UnopposedWithin(e.op, xs[i], i, e, 0, FormsOf(e.op, e));
    }
  }

  lemma {:induction false} DeduplicatedExactly(e: Expr)
    ensures Deduplicated(e) <==> forall r :: Part(r, e) ==> Unjoinable(r)
    decreases Size(e)
  {
    if Deduplicated(e) {
      forall r | Part(r, e) ensures Unjoinable(r) {
        DeduplicatedPart(r, e);
        if r.Bin? { DeduplicatedUnfold(r); UnjoinableExactly(r); }
      }
    }
    if e.Bin? && forall r :: Part(r, e) ==> Unjoinable(r) {
      ChainOperands(e);
      DeduplicatedUnfold(e);
      UnjoinableExactly(e);
      assert Part(e, e);
      forall x | x in Operands(e.op, e) ensures Deduplicated(x) {
        OperandIsPart(e.op, e, x);
        forall r | Part(r, x) ensures Unjoinable(r) { PartOfPart(r, x, e); }
        DeduplicatedExactly(x);
      }
    }
  }

  lemma UnjoinableExactly(r: Expr)
    requires r.Bin?
    ensures var xs := Operands(r.op, r);
            Unjoinable(r) <==> forall i, j :: 0 <= i < |xs| && 0 <= j < |xs| && i != j ==> Join(r.op, xs[i], xs[j]).None?
  {
    var xs := Operands(r.op, r);
    if Unjoinable(r) {
      forall i, j | 0 <= i < |xs| && 0 <= j < |xs| && i != j ensures Join(r.op, xs[i], xs[j]).None? {
        assert CannotJoin(r.op, Operands(r.op, r)[i], Operands(r.op, r)[j]);
        CannotJoinExactly(r.op, xs[i], xs[j]);
      }
    }
    if forall i, j :: 0 <= i < |xs| && 0 <= j < |xs| && i != j ==> Join(r.op, xs[i], xs[j]).None? {
      forall i, j | 0 <= i < |xs| && 0 <= j < |xs| && i != j ensures CannotJoin(r.op, Operands(r.op, r)[i], Operands(r.op, r)[j]) {
        assert Join(r.op, xs[i], xs[j]).None?;
        CannotJoinExactly(r.op, xs[i], xs[j]);
      }
    }
  }

  /** The elimination leaves an expression alone exactly if no chain in it, at any depth, has operands that are equal,
      that a rule replaces, or that the rest of the chain contradicts. */
  lemma LeftAloneExactly(e: Expr)
    requires NormalForm(e) && ConstantFree(e)
    ensures EliminateDups(e) == e <==> forall r :: Part(r, e) ==> Unjoinable(r) && Uncontradicted(r)
  {
    EliminateDupsSettles(e);
    DeduplicatedExactly(e);
    ConflictFreeExactly(e);
  }
}
