/** What the equality test decides: on expressions without constant operands it is equality up to the
    order and the grouping of the operands of each chain. */
module Matching {
  import opened Expressions
  import opened Elimination

  /** An expression without the order and the grouping of its chains. */
  datatype Form = Atom(e: Expr) | Negated(form: Form) | Chain(op: Op, operands: multiset<Form>)

  function FormOf(e: Expr): Form
    decreases e, 1
  {
    match e
    case Not(a) => Negated(FormOf(a))
    case Bin(op, _, _) => Chain(op, FormsOf(op, e))
    case _ => Atom(e)
  }

  /** The operands of the chain of `op` nodes at the top of e. */
  function FormsOf(op: Op, e: Expr): multiset<Form>
    decreases e, if IsOp(op, e) then 0 else 2
  {
    if IsOp(op, e) then FormsOf(op, e.left) + FormsOf(op, e.right) else multiset{FormOf(e)}
  }

  /** No operand of an AND/OR anywhere is y or n. */
  predicate ConstantFree(e: Expr) {
    match e
    case Not(a) => ConstantFree(a)
    case Bin(_, l, r) => !IsYesNo(l) && !IsYesNo(r) && ConstantFree(l) && ConstantFree(r)
    case _ => true
  }

  lemma {:induction false} ConstantFreeKept(e: Expr)
    requires ConstantFree(e)
    ensures !HasConstant(e) && EliminateYN(e) == e
  {
    if e.Bin? {
      ConstantFreeKept(e.left);
      ConstantFreeKept(e.right);
    }
  }

  // ---------------------------------------------------------------- chains some of whose operands are cancelled

  /** The operands of the chain have no constants but the neutral literals that replace cancelled ones. */
  predicate Cancelling(op: Op, e: Expr) {
    if IsOp(op, e) then Cancelling(op, e.left) && Cancelling(op, e.right)
    else e == Neutral(op) || (!IsYesNo(e) && ConstantFree(e))
  }

  /** The operands that are left. */
  function Left(op: Op, e: Expr): multiset<Form> {
    if IsOp(op, e) then Left(op, e.left) + Left(op, e.right)
    else if e == Neutral(op) then multiset{}
    else multiset{FormOf(e)}
  }

  lemma {:induction false} NothingCancelled(op: Op, e: Expr)
    requires ConstantFree(e) && !IsYesNo(e)
    ensures Cancelling(op, e) && Left(op, e) == FormsOf(op, e)
  {
    if IsOp(op, e) {
      NothingCancelled(op, e.left);
      NothingCancelled(op, e.right);
    }
  }

  /** Taking b away from l and what is left of it from r is taking it away from both. */
  lemma MinusBoth(l: multiset<Form>, r: multiset<Form>, b: multiset<Form>)
    ensures (l - b) + (r - (b - l)) == (l + r) - b
    ensures (b - l) - r == b - (l + r)
  {
  }

  lemma Unmatched(op: Op, x: Expr, y: Expr)
    requires !IsOp(op, x) && !IsOp(op, y) && (x.Sym? || y.Sym?) && x != y
    ensures EliminateEqIn(op, x, y) == (x, y)
  {
  }

  /** The slots with e1 and e2 hold a and b after exactly the common operands have been cancelled, as often
      as they occur in both. */
  ghost predicate Cancels(op: Op, e1: Expr, e2: Expr, a: Expr, b: Expr) {
    && Cancelling(op, a) && Left(op, a) == Left(op, e1) - Left(op, e2)
    && Cancelling(op, b) && Left(op, b) == Left(op, e2) - Left(op, e1)
  }

  lemma BothLeft(op: Op, p: Expr, q: Expr)
    ensures Left(op, Bin(op, p, q)) == Left(op, p) + Left(op, q)
    ensures Cancelling(op, Bin(op, p, q)) <==> Cancelling(op, p) && Cancelling(op, q)
  {
  }

  lemma CancelsFirst(op: Op, p: Expr, q: Expr, e2: Expr, l: Expr, f: Expr, r: Expr, g: Expr)
    requires Cancels(op, p, e2, l, f) && Cancels(op, q, f, r, g)
    ensures Cancels(op, Bin(op, p, q), e2, Bin(op, l, r), g)
  {
    BothLeft(op, p, q);
    BothLeft(op, l, r);
    MinusBoth(Left(op, p), Left(op, q), Left(op, e2));
  }

  lemma CancelsSecond(op: Op, p: Expr, q: Expr, e1: Expr, l: Expr, f: Expr, r: Expr, g: Expr)
    requires Cancels(op, e1, p, f, l) && Cancels(op, f, q, g, r)
    ensures Cancels(op, e1, Bin(op, p, q), g, Bin(op, l, r))
  {
    BothLeft(op, p, q);
    BothLeft(op, l, r);
    MinusBoth(Left(op, p), Left(op, q), Left(op, e1));
  }

  lemma {:induction false} EliminateEqInCancels(op: Op, e1: Expr, e2: Expr)
    requires Cancelling(op, e1) && Cancelling(op, e2)
    ensures var (a, b) := EliminateEqIn(op, e1, e2); Cancels(op, e1, e2, a, b)
    decreases Size(e1) + Size(e2), if IsOp(op, e1) || IsOp(op, e2) then 0 else 4
  {
    if IsOp(op, e1) {
      var (l, f) := EliminateEqIn(op, e1.left, e2);
      var (r, g) := EliminateEqIn(op, e1.right, f);
      EliminateEqInCancels(op, e1.left, e2);
      EliminateEqInCancels(op, e1.right, f);
      CancelsFirst(op, e1.left, e1.right, e2, l, f, r, g);
    } else if IsOp(op, e2) {
      var (f, l) := EliminateEqIn(op, e1, e2.left);
      var (g, r) := EliminateEqIn(op, f, e2.right);
      EliminateEqInCancels(op, e1, e2.left);
      EliminateEqInCancels(op, f, e2.right);
      CancelsSecond(op, e2.left, e2.right, e1, l, f, r, g);
    } else {
      OperandsCancel(op, e1, e2);
    }
  }

  lemma {:induction false} OperandsCancel(op: Op, e1: Expr, e2: Expr)
    requires Cancelling(op, e1) && Cancelling(op, e2) && !IsOp(op, e1) && !IsOp(op, e2)
    ensures var (a, b) := EliminateEqIn(op, e1, e2); Cancels(op, e1, e2, a, b)
    decreases Size(e1) + Size(e2), 3
  {
    if e1 == Neutral(op) || e2 == Neutral(op) {
      if e1 != e2 { Unmatched(op, e1, e2); }
    } else {
      ExprEqExactly(e1, e2);
      OneOperand(FormOf(e1), FormOf(e2));
      assert Left(op, e1) == multiset{FormOf(e1)} && Left(op, e2) == multiset{FormOf(e2)};
      if ExprEq(e1, e2) { assert EliminateEqIn(op, e1, e2) == (Neutral(op), Neutral(op)); }
      else { assert EliminateEqIn(op, e1, e2) == (e1, e2); }
    }
  }

  lemma OneOperand(f: Form, g: Form)
    ensures multiset{f} - multiset{g} == if f == g then multiset{} else multiset{f}
    ensures multiset{g} - multiset{f} == if f == g then multiset{} else multiset{g}
  {
  }

  /** Removing the neutral literals leaves the operands that are left. */
  lemma {:induction false} EliminateYNLeft(op: Op, e: Expr)
    requires Cancelling(op, e)
    ensures var c := EliminateYN(e);
            && Cancelling(op, c) && Left(op, c) == Left(op, e)
            && (c == Neutral(op) <==> Left(op, e) == multiset{})
            && c != Absorbing(op)
  {
    if IsOp(op, e) {
      EliminateYNLeft(op, e.left);
      EliminateYNLeft(op, e.right);
    } else if e != Neutral(op) {
      ConstantFreeKept(e);
      assert FormOf(e) in Left(op, e);
    }
  }

  /** The test of two chains once common operands have been cancelled. */
  lemma ChainTest(op: Op, e1: Expr, e2: Expr, a: Expr, b: Expr)
    requires IsOp(op, e1) && IsOp(op, e2) && EliminateEqIn(op, e1, e2) == (a, b)
    ensures ExprEq(e1, e2) <==> EliminateYN(a).Sym? && EliminateYN(a) == EliminateYN(b)
  {
    EliminateEqInOp(op, e1, e2);
    assert EliminateEq(e1, e2) == (EliminateYN(a), EliminateYN(b));
  }

  lemma {:induction false} ChainsExactly(op: Op, e1: Expr, e2: Expr)
    requires IsOp(op, e1) && IsOp(op, e2) && ConstantFree(e1) && ConstantFree(e2)
    ensures ExprEq(e1, e2) <==> FormsOf(op, e1) == FormsOf(op, e2)
    decreases Size(e1) + Size(e2), 1
  {
    NothingCancelled(op, e1);
    NothingCancelled(op, e2);
    EliminateEqInCancels(op, e1, e2);
    var (a, b) := EliminateEqIn(op, e1, e2);
    ChainTest(op, e1, e2, a, b);
    EliminateYNLeft(op, a);
    EliminateYNLeft(op, b);
    var (x, y) := (FormsOf(op, e1), FormsOf(op, e2));
    if x != y { SomethingLeft(x, y); }
  }

  lemma SomethingLeft(x: multiset<Form>, y: multiset<Form>)
    requires x != y
    ensures x - y != y - x
  {
    var f :| x[f] != y[f];
    assert (x - y)[f] != (y - x)[f];
  }

  /** The equality test is equality up to order and grouping, if there are no constant operands. */
  lemma {:induction false} ExprEqExactly(e1: Expr, e2: Expr)
    requires ConstantFree(e1) && ConstantFree(e2)
    ensures ExprEq(e1, e2) <==> FormOf(e1) == FormOf(e2)
    decreases Size(e1) + Size(e2), 2
  {
    if e1.Not? && e2.Not? {
      ExprEqExactly(e1.arg, e2.arg);
    } else if e1.Bin? && e2.Bin? && e1.op == e2.op {
      ChainsExactly(e1.op, e1, e2);
    }
  }

  /** So there it is an equivalence. */
  lemma ExprEqEquivalence(e1: Expr, e2: Expr, e3: Expr)
    requires ConstantFree(e1) && ConstantFree(e2) && ConstantFree(e3)
    ensures ExprEq(e1, e2) <==> ExprEq(e2, e1)
    ensures ExprEq(e1, e2) && ExprEq(e2, e3) ==> ExprEq(e1, e3)
  {
    ExprEqExactly(e1, e2);
    ExprEqExactly(e2, e1);
    ExprEqExactly(e2, e3);
    ExprEqExactly(e1, e3);
  }

  // ---------------------------------------------------------------- with constant operands

  /** Constants are not cancelled. */
  lemma {:induction false} AbsorbingKept(op: Op, e1: Expr, e2: Expr)
    ensures var (a, b) := EliminateEqIn(op, e1, e2);
            && (Absorbing(op) in Operands(op, e1) ==> Absorbing(op) in Operands(op, a))
            && (Absorbing(op) in Operands(op, e2) ==> Absorbing(op) in Operands(op, b))
    decreases Size(e1) + Size(e2)
  {
    if IsOp(op, e1) {
      AbsorbingKept(op, e1.left, e2);
      AbsorbingKept(op, e1.right, EliminateEqIn(op, e1.left, e2).1);
    } else if IsOp(op, e2) {
      AbsorbingKept(op, e1, e2.left);
      AbsorbingKept(op, EliminateEqIn(op, e1, e2.left).0, e2.right);
    }
  }

  lemma {:induction false} AbsorbedChain(op: Op, e: Expr)
    requires Absorbing(op) in Operands(op, e)
    ensures EliminateYN(e) == Absorbing(op)
  {
    if IsOp(op, e) { AbsorbedChain(op, if Absorbing(op) in Operands(op, e.left) then e.left else e.right); }
  }

  /** Two chains of one operator that both have its absorbing literal are equal, whatever else they have. */
  lemma AbsorbedEqual(op: Op, e1: Expr, e2: Expr)
    requires IsOp(op, e1) && IsOp(op, e2) && Absorbing(op) in Operands(op, e1) && Absorbing(op) in Operands(op, e2)
    ensures ExprEq(e1, e2)
  {
    var (a, b) := EliminateEqIn(op, e1, e2);
    ChainTest(op, e1, e2, a, b);
    AbsorbingKept(op, e1, e2);
    AbsorbedChain(op, a);
    AbsorbedChain(op, b);
  }

  lemma Matched(op: Op, x: Expr)
    requires !IsOp(op, x) && !IsYesNo(x)
    ensures EliminateEqIn(op, x, x) == (Neutral(op), Neutral(op))
  {
    ExprEqReflexive(x);
  }

  /** Two pairs of operands, of which only the second match. */
  lemma SecondMatches(op: Op, p: Expr, q: Expr, x: Expr)
    requires !IsOp(op, p) && !IsOp(op, q) && !IsOp(op, x) && !IsYesNo(x)
    requires EliminateEqIn(op, p, q) == (p, q) && EliminateEqIn(op, p, x) == (p, x) && EliminateEqIn(op, x, q) == (x, q)
    ensures EliminateEqIn(op, Bin(op, p, x), Bin(op, q, x)) == (Bin(op, p, Neutral(op)), Bin(op, q, Neutral(op)))
  {
    Matched(op, x);
    assert EliminateEqIn(op, p, Bin(op, q, x)) == (p, Bin(op, q, x));
    assert EliminateEqIn(op, x, Bin(op, q, x)) == (Neutral(op), Bin(op, q, Neutral(op)));
  }

  /** With constant operands it is not: one pair of operands that differ by a constant is found equal
      after the others have been cancelled, but two such pairs are not. */
  lemma NotTransitive(a: Symbol, d: Symbol)
    requires a != d && !IsLiteral(a) && !IsLiteral(d)
    ensures var (x, y) := (Bin(Or, Sym(a), NO_EXPR), Bin(Or, Sym(d), NO_EXPR));
            && ExprEq(Bin(And, Sym(a), Sym(d)), Bin(And, x, Sym(d)))
            && ExprEq(Bin(And, x, Sym(d)), Bin(And, x, y))
            && !ExprEq(Bin(And, Sym(a), Sym(d)), Bin(And, x, y))
  {
    var (x, y) := (Bin(Or, Sym(a), NO_EXPR), Bin(Or, Sym(d), NO_EXPR));
    Unmatched(And, Sym(a), x);
    Unmatched(And, Sym(a), y);
    Unmatched(And, Sym(a), Sym(d));
    Unmatched(And, Sym(d), x);
    Unmatched(And, Sym(d), y);
    SecondMatches(And, Sym(a), x, Sym(d));
    OneConstant(a, d);
    var (e1, e3) := (Bin(And, Sym(a), Sym(d)), Bin(And, x, y));
    assert EliminateEqIn(And, Sym(a), e3) == (Sym(a), e3) && EliminateEqIn(And, Sym(d), e3) == (Sym(d), e3);
    ChainTest(And, e1, e3, e1, e3);
    var e2 := Bin(And, x, Sym(d));
    ChainTest(And, e1, e2, Bin(And, Sym(a), YES_EXPR), Bin(And, x, YES_EXPR));
    assert EliminateYN(x) == Sym(a) && EliminateYN(y) == Sym(d);
  }

  lemma OneConstant(a: Symbol, d: Symbol)
    requires a != d && !IsLiteral(a) && !IsLiteral(d)
    ensures var (x, y) := (Bin(Or, Sym(a), NO_EXPR), Bin(Or, Sym(d), NO_EXPR));
            ExprEq(Bin(And, x, Sym(d)), Bin(And, x, y))
  {
    var (x, y) := (Bin(Or, Sym(a), NO_EXPR), Bin(Or, Sym(d), NO_EXPR));
    var (e2, e3) := (Bin(And, x, Sym(d)), Bin(And, x, y));
    Matched(And, x);
    Unmatched(And, YES_EXPR, y);
    Unmatched(And, Sym(d), YES_EXPR);
    Unmatched(And, Sym(d), y);
    assert EliminateEqIn(And, x, e3) == (YES_EXPR, Bin(And, YES_EXPR, y));
    assert EliminateEqIn(And, Sym(d), Bin(And, YES_EXPR, y)) == (Sym(d), Bin(And, YES_EXPR, y));
    ChainTest(And, e2, e3, Bin(And, YES_EXPR, Sym(d)), Bin(And, YES_EXPR, y));
    assert EliminateYN(y) == Sym(d);
  }
}
