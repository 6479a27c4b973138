/** Constant elimination, the equality test and common-factor extraction. */
module Elimination {
  import opened Expressions

  // ---------------------------------------------------------------- expr_eliminate_yn

  function EliminateYN(e: Expr): Expr {
    match e
    case Bin(op, l, r) =>
      var l', r' := EliminateYN(l), EliminateYN(r);
      if l' == Absorbing(op) then Absorbing(op)
      else if l' == Neutral(op) then r'
      else if r' == Absorbing(op) then Absorbing(op)
      else if r' == Neutral(op) then l'
      else Bin(op, l', r')
    case _ => e
  }

  /** Some operand of an AND/OR node (reached through AND/OR nodes) is the literal y or n. */
  predicate HasConstant(e: Expr) {
    e.Bin? && (IsYesNo(e.left) || IsYesNo(e.right) || HasConstant(e.left) || HasConstant(e.right))
  }

  lemma {:induction false} EliminateYNValue(env: Env, e: Expr)
    ensures Val(env, EliminateYN(e)) == Val(env, e)
  {
    if e.Bin? {
      EliminateYNValue(env, e.left);
      EliminateYNValue(env, e.right);
    }
  }

  /** The result has no constant operand left, and the tree shrinks exactly when there was one. */
  lemma {:induction false} EliminateYNNormal(e: Expr)
    ensures !HasConstant(EliminateYN(e))
    ensures Size(EliminateYN(e)) <= Size(e)
    ensures HasConstant(e) <==> Size(EliminateYN(e)) < Size(e)
    ensures !HasConstant(e) <==> EliminateYN(e) == e
  {
    if e.Bin? {
      EliminateYNNormal(e.left);
      EliminateYNNormal(e.right);
    }
  }

  // ---------------------------------------------------------------- expr_eq and expr_eliminate_eq

  /** `__expr_eliminate_eq` on two slots holding e1 and e2; returns their new contents. */
  function EliminateEqIn(op: Op, e1: Expr, e2: Expr): (r: (Expr, Expr))
    ensures Size(r.0) <= Size(e1) && Size(r.1) <= Size(e2)
    ensures IsOp(op, e1) ==> IsOp(op, r.0)
    decreases Size(e1) + Size(e2), if IsOp(op, e1) || IsOp(op, e2) then 0 else 3
  {
    if IsOp(op, e1) then
      var (l, f) := EliminateEqIn(op, e1.left, e2);
      var (r, g) := EliminateEqIn(op, e1.right, f);
      (Bin(op, l, r), g)
    else if IsOp(op, e2) then
      var (f, l) := EliminateEqIn(op, e1, e2.left);
      var (g, r) := EliminateEqIn(op, f, e2.right);
      (g, Bin(op, l, r))
    else if e1 == e2 && IsYesNo(e1) then (e1, e2)
    else if !ExprEq(e1, e2) then (e1, e2)
    else (Neutral(op), Neutral(op))
  }

  function EliminateEq(e1: Expr, e2: Expr): (r: (Expr, Expr))
    decreases Size(e1) + Size(e2), 1
  {
    var (a, b) := if e1.Bin? then EliminateEqIn(e1.op, e1, e2) else (e1, e2);
    var (c, d) := if b.Bin? && !IsOp(b.op, a) then EliminateEqIn(b.op, a, b) else (a, b);
    (EliminateYN(c), EliminateYN(d))
  }

  predicate ExprEq(e1: Expr, e2: Expr)
    decreases Size(e1) + Size(e2), 2
  {
    match (e1, e2)
    case (Cmp(_, _, _), Cmp(_, _, _)) => e1 == e2
    case (Sym(_), Sym(_)) => e1 == e2
    case (Not(a), Not(b)) => ExprEq(a, b)
    case (Bin(op1, _, _), Bin(op2, _, _)) =>
      op1 == op2 && var (a, b) := EliminateEq(e1, e2); a.Sym? && a == b
    case _ => false
  }

  /** Both slots had one common factor `v` that was taken out of them. */
  ghost predicate CommonFactor(op: Op, v: Tristate, old1: Tristate, new1: Tristate, old2: Tristate, new2: Tristate) {
    old1 == Apply(op, v, new1) && old2 == Apply(op, v, new2)
  }

  /** Two successive factors of one chain make up one factor. */
  lemma JoinFactors(op: Op, v1: Tristate, v2: Tristate, l: Tristate, l': Tristate, r: Tristate, r': Tristate,
                    e: Tristate, f: Tristate, g: Tristate)
    requires CommonFactor(op, v1, l, l', e, f) && CommonFactor(op, v2, r, r', f, g)
    ensures CommonFactor(op, Apply(op, v1, v2), Apply(op, l, r), Apply(op, l', r'), e, g)
  {
  }

  lemma {:induction false} EliminateEqInFactor(env: Env, op: Op, e1: Expr, e2: Expr) returns (v: Tristate)
    ensures var (a, b) := EliminateEqIn(op, e1, e2);
            CommonFactor(op, v, Val(env, e1), Val(env, a), Val(env, e2), Val(env, b))
    decreases Size(e1) + Size(e2), if IsOp(op, e1) || IsOp(op, e2) then 0 else 3
  {
    if IsOp(op, e1) {
      var (l, f) := EliminateEqIn(op, e1.left, e2);
      var v1 := EliminateEqInFactor(env, op, e1.left, e2);
      var v2 := EliminateEqInFactor(env, op, e1.right, f);
      var (r, g) := EliminateEqIn(op, e1.right, f);
      v := Apply(op, v1, v2);
      JoinFactors(op, v1, v2, Val(env, e1.left), Val(env, l), Val(env, e1.right), Val(env, r),
                  Val(env, e2), Val(env, f), Val(env, g));
    } else if IsOp(op, e2) {
      var (f, l) := EliminateEqIn(op, e1, e2.left);
      var v1 := EliminateEqInFactor(env, op, e1, e2.left);
      var v2 := EliminateEqInFactor(env, op, f, e2.right);
      var (g, r) := EliminateEqIn(op, f, e2.right);
      v := Apply(op, v1, v2);
      JoinFactors(op, v1, v2, Val(env, e2.left), Val(env, l), Val(env, e2.right), Val(env, r),
                  Val(env, e1), Val(env, f), Val(env, g));
    } else if !(e1 == e2 && IsYesNo(e1)) && ExprEq(e1, e2) {
      ExprEqSound(env, e1, e2);
      v := Val(env, e1);
    } else {
      v := Unit(op);
    }
  }

  /** Whatever the equality test accepts has equal values in every environment. */
  lemma {:induction false} ExprEqSound(env: Env, e1: Expr, e2: Expr)
    requires ExprEq(e1, e2)
    ensures Val(env, e1) == Val(env, e2)
    decreases Size(e1) + Size(e2), 2
  {
    match (e1, e2)
    case (Not(a), Not(b)) => ExprEqSound(env, a, b);
    case (Bin(op, _, _), Bin(_, _, _)) =>
      var (a, b) := EliminateEqIn(op, e1, e2);
      var v := EliminateEqInFactor(env, op, e1, e2);
      if b.Bin? && !IsOp(b.op, a) {
        // not reachable: b keeps the operator of e2
        EliminateEqInOp(op, e1, e2);
        assert false;
      }
      EliminateYNValue(env, a);
      EliminateYNValue(env, b);
    case _ =>
  }

  lemma {:induction false} EliminateEqInOp(op: Op, e1: Expr, e2: Expr)
    ensures IsOp(op, e2) ==> IsOp(op, EliminateEqIn(op, e1, e2).1)
    decreases e1
  {
    if IsOp(op, e1) {
      EliminateEqInOp(op, e1.left, e2);
      EliminateEqInOp(op, e1.right, EliminateEqIn(op, e1.left, e2).1);
    }
  }

  /** `expr_eliminate_eq(&dep, &dep2)` as the menu code uses it: when nothing but `y` is left
      of the second expression, the first one implies it. */
  lemma {:induction false} EliminateEqImplies(env: Env, e1: Expr, e2: Expr)
    requires EliminateEq(e1, e2).1 == YES_EXPR
    ensures Val(env, e1) <= Val(env, e2)
  {
    var (a, b) := if e1.Bin? then EliminateEqIn(e1.op, e1, e2) else (e1, e2);
    var v1 := Unit(And);
    if e1.Bin? { v1 := EliminateEqInFactor(env, e1.op, e1, e2); }
    var (c, d) := if b.Bin? && !IsOp(b.op, a) then EliminateEqIn(b.op, a, b) else (a, b);
    var v2 := Unit(And);
    if b.Bin? && !IsOp(b.op, a) { v2 := EliminateEqInFactor(env, b.op, a, b); }
    EliminateYNValue(env, d);
    assert Val(env, d) == YES;
    assert Val(env, a) <= Val(env, b);
  }

  // ---------------------------------------------------------------- the equality test is reflexive

  /** What `__expr_eliminate_eq` leaves of an expression compared with itself. */
  function Cancelled(op: Op, e: Expr): Expr {
    if IsOp(op, e) then Bin(op, Cancelled(op, e.left), Cancelled(op, e.right))
    else if IsYesNo(e) then e
    else Neutral(op)
  }

  lemma {:induction false} CancelledRight(op: Op, x: Expr, z: Expr)
    ensures EliminateEqIn(op, x, Cancelled(op, z)) == (x, Cancelled(op, z))
    decreases Size(x) + Size(z)
  {
    if IsOp(op, x) {
      CancelledRight(op, x.left, z);
      CancelledRight(op, x.right, z);
    } else if IsOp(op, z) {
      CancelledRight(op, x, z.left);
      CancelledRight(op, x, z.right);
    }
  }

  lemma {:induction false} CancelledLeft(op: Op, x: Expr, z: Expr)
    ensures EliminateEqIn(op, Cancelled(op, x), z) == (Cancelled(op, x), z)
    decreases Size(x) + Size(z)
  {
    if IsOp(op, x) {
      CancelledLeft(op, x.left, z);
      CancelledLeft(op, x.right, z);
    } else if IsOp(op, z) {
      CancelledLeft(op, x, z.left);
      CancelledLeft(op, x, z.right);
    }
  }

  /** Walking the second chain as a whole is walking its two halves in turn. */
  lemma {:induction false} EliminateEqInSplit(op: Op, y: Expr, a: Expr, b: Expr)
    ensures var (f, a') := EliminateEqIn(op, y, a);
            var (g, b') := EliminateEqIn(op, f, b);
            EliminateEqIn(op, y, Bin(op, a, b)) == (g, Bin(op, a', b'))
    decreases y
  {
    if IsOp(op, y) {
      var (l, a1) := EliminateEqIn(op, y.left, a);
      var (l', b1) := EliminateEqIn(op, l, b);
      EliminateEqInSplit(op, y.left, a, b);
      EliminateEqInSplit(op, y.right, a1, b1);
    }
  }

  lemma {:induction false} CancelSelf(op: Op, x: Expr)
    requires forall y: Expr :: Size(y) < Size(x) ==> ExprEq(y, y)
    requires IsOp(op, x)
    ensures EliminateEqIn(op, x, x) == (Cancelled(op, x), Cancelled(op, x))
    decreases x
  {
    var l, r := x.left, x.right;
    forall s: Expr | s == l || s == r
      ensures EliminateEqIn(op, s, s) == (Cancelled(op, s), Cancelled(op, s))
    {
      if IsOp(op, s) { CancelSelf(op, s); }
    }
    EliminateEqInSplit(op, l, l, r);
    CancelledLeft(op, l, r);
    EliminateEqInSplit(op, r, Cancelled(op, l), r);
    CancelledRight(op, r, l);
  }

  lemma {:induction false} CancelledIsConstant(op: Op, e: Expr)
    ensures IsYesNo(EliminateYN(Cancelled(op, e)))
  {
    if IsOp(op, e) {
      CancelledIsConstant(op, e.left);
      CancelledIsConstant(op, e.right);
    }
  }

  /** Every expression is equal to itself under the test. */
  lemma {:induction false} ExprEqReflexive(e: Expr)
    ensures ExprEq(e, e)
    decreases Size(e)
  {
    if e.Not? { ExprEqReflexive(e.arg); }
    if e.Bin? {
      forall y: Expr | Size(y) < Size(e) ensures ExprEq(y, y) { ExprEqReflexive(y); }
      CancelSelf(e.op, e);
      CancelledIsConstant(e.op, e);
    }
  }

  // ---------------------------------------------------------------- expr_extract_eq

  /** `expr_extract_eq`: moves the common operands of e1 and e2 to `acc`.
      Returns the new accumulator and the new contents of the two slots. */
  function ExtractEq(op: Op, acc: Option<Expr>, e1: Expr, e2: Expr): (r: (Option<Expr>, Expr, Expr))
    ensures Size(r.1) <= Size(e1) && Size(r.2) <= Size(e2)
    decreases Size(e1) + Size(e2)
  {
    if IsOp(op, e1) then
      var (acc1, l, f) := ExtractEq(op, acc, e1.left, e2);
      var (acc2, r, g) := ExtractEq(op, acc1, e1.right, f);
      (acc2, Bin(op, l, r), g)
    else if IsOp(op, e2) then
      var (acc1, f, l) := ExtractEq(op, acc, e1, e2.left);
      var (acc2, g, r) := ExtractEq(op, acc1, f, e2.right);
      (acc2, g, Bin(op, l, r))
    else if ExprEq(e1, e2) then
      (Some(if acc.None? then e1 else Bin(op, acc.value, e1)), Neutral(op), Neutral(op))
    else (acc, e1, e2)
  }

  /** `expr_extract_eq_and` and `expr_extract_eq_or`. */
  function ExtractCommon(op: Op, e1: Expr, e2: Expr): (Option<Expr>, Expr, Expr) {
    var (t, a, b) := ExtractEq(op, None, e1, e2);
    if t.None? then (t, a, b) else (t, EliminateYN(a), EliminateYN(b))
  }

  /** Value of an accumulated factor; nothing extracted counts as the unit of `op`. */
  function FactorValue(env: Env, op: Op, f: Option<Expr>): Tristate {
    if f.None? then Unit(op) else Val(env, f.value)
  }

  lemma ApplyAssociative(op: Op, a: Tristate, b: Tristate, c: Tristate)
    ensures Apply(op, Apply(op, a, b), c) == Apply(op, a, Apply(op, b, c))
  {
  }

  lemma {:induction false} ExtractEqFactor(env: Env, op: Op, acc: Option<Expr>, e1: Expr, e2: Expr) returns (v: Tristate)
    ensures var (t, a, b) := ExtractEq(op, acc, e1, e2);
            && CommonFactor(op, v, Val(env, e1), Val(env, a), Val(env, e2), Val(env, b))
            && FactorValue(env, op, t) == Apply(op, FactorValue(env, op, acc), v)
    decreases Size(e1) + Size(e2)
  {
    if IsOp(op, e1) {
      var (acc1, l, f) := ExtractEq(op, acc, e1.left, e2);
      var v1 := ExtractEqFactor(env, op, acc, e1.left, e2);
      var (acc2, r, g) := ExtractEq(op, acc1, e1.right, f);
      var v2 := ExtractEqFactor(env, op, acc1, e1.right, f);
      v := Apply(op, v1, v2);
      ApplyAssociative(op, FactorValue(env, op, acc), v1, v2);
      JoinFactors(op, v1, v2, Val(env, e1.left), Val(env, l), Val(env, e1.right), Val(env, r),
                  Val(env, e2), Val(env, f), Val(env, g));
    } else if IsOp(op, e2) {
      var (acc1, f, l) := ExtractEq(op, acc, e1, e2.left);
      var v1 := ExtractEqFactor(env, op, acc, e1, e2.left);
      var (acc2, g, r) := ExtractEq(op, acc1, f, e2.right);
      var v2 := ExtractEqFactor(env, op, acc1, f, e2.right);
      v := Apply(op, v1, v2);
      ApplyAssociative(op, FactorValue(env, op, acc), v1, v2);
      JoinFactors(op, v1, v2, Val(env, e2.left), Val(env, l), Val(env, e2.right), Val(env, r),
                  Val(env, e1), Val(env, f), Val(env, g));
    } else if ExprEq(e1, e2) {
      ExprEqSound(env, e1, e2);
      v := Val(env, e1);
    } else {
      v := Unit(op);
    }
  }

  /** Extraction keeps the meaning: both inputs are the extracted factor joined with the rest. */
  lemma ExtractCommonFactor(env: Env, op: Op, e1: Expr, e2: Expr)
    ensures var (t, a, b) := ExtractCommon(op, e1, e2);
            CommonFactor(op, FactorValue(env, op, t), Val(env, e1), Val(env, a), Val(env, e2), Val(env, b))
  {
    var v := ExtractEqFactor(env, op, None, e1, e2);
    var (t, a, b) := ExtractEq(op, None, e1, e2);
    EliminateYNValue(env, a);
    EliminateYNValue(env, b);
  }

  /** The operands of the chain of `op` nodes at the top of e, left to right. */
  function Operands(op: Op, e: Expr): (xs: seq<Expr>)
    ensures |xs| >= 1
  {
    if IsOp(op, e) then Operands(op, e.left) + Operands(op, e.right) else [e]
  }

  /** Every operand of a is one of e, or the neutral literal. */
  ghost predicate Within(op: Op, a: Expr, e: Expr) {
    forall x :: x in Operands(op, a) ==> x in Operands(op, e) || x == Neutral(op)
  }

  lemma WithinBoth(op: Op, l: Expr, r: Expr, e1: Expr, e2: Expr)
    requires Within(op, l, e1) && Within(op, r, e2)
    ensures Within(op, Bin(op, l, r), Bin(op, e1, e2))
  {
  }

  /** Slots only ever change to the neutral literal. */
  lemma {:induction false} ExtractEqOperands(op: Op, acc: Option<Expr>, e1: Expr, e2: Expr)
    ensures var (t, a, b) := ExtractEq(op, acc, e1, e2);
            Within(op, a, e1) && Within(op, b, e2)
    decreases Size(e1) + Size(e2)
  {
    if IsOp(op, e1) {
      var (acc1, l, f) := ExtractEq(op, acc, e1.left, e2);
      var (acc2, r, g) := ExtractEq(op, acc1, e1.right, f);
      ExtractEqOperands(op, acc, e1.left, e2);
      ExtractEqOperands(op, acc1, e1.right, f);
      WithinBoth(op, l, r, e1.left, e1.right);
    } else if IsOp(op, e2) {
      var (acc1, f, l) := ExtractEq(op, acc, e1, e2.left);
      var (acc2, g, r) := ExtractEq(op, acc1, f, e2.right);
      ExtractEqOperands(op, acc, e1, e2.left);
      ExtractEqOperands(op, acc1, f, e2.right);
      WithinBoth(op, l, r, e2.left, e2.right);
    }
  }

  /** No operand of a is equal to one of b, but for the neutral literal. */
  ghost predicate NothingCommon(op: Op, a: Expr, b: Expr) {
    forall x, y :: x in Operands(op, a) && y in Operands(op, b) && x != Neutral(op) && y != Neutral(op) ==> !ExprEq(x, y)
  }

  lemma NothingCommonLeft(op: Op, l: Expr, r: Expr, f: Expr, g: Expr)
    requires NothingCommon(op, l, f) && NothingCommon(op, r, g) && Within(op, g, f)
    ensures NothingCommon(op, Bin(op, l, r), g)
  {
  }

  lemma NothingCommonRight(op: Op, l: Expr, r: Expr, f: Expr, g: Expr)
    requires NothingCommon(op, f, l) && NothingCommon(op, g, r) && Within(op, g, f)
    ensures NothingCommon(op, g, Bin(op, l, r))
  {
  }

  /** Nothing common is left behind: of two equal operands one has been replaced. */
  lemma {:induction false} ExtractEqComplete(op: Op, acc: Option<Expr>, e1: Expr, e2: Expr)
    ensures var (t, a, b) := ExtractEq(op, acc, e1, e2);
            NothingCommon(op, a, b)
    decreases Size(e1) + Size(e2)
  {
    if IsOp(op, e1) {
      var (acc1, l, f) := ExtractEq(op, acc, e1.left, e2);
      var (acc2, r, g) := ExtractEq(op, acc1, e1.right, f);
      ExtractEqComplete(op, acc, e1.left, e2);
      ExtractEqComplete(op, acc1, e1.right, f);
      ExtractEqOperands(op, acc1, e1.right, f);
      NothingCommonLeft(op, l, r, f, g);
    } else if IsOp(op, e2) {
      var (acc1, f, l) := ExtractEq(op, acc, e1, e2.left);
      var (acc2, g, r) := ExtractEq(op, acc1, f, e2.right);
      ExtractEqComplete(op, acc, e1, e2.left);
      ExtractEqComplete(op, acc1, f, e2.right);
      ExtractEqOperands(op, acc1, f, e2.right);
      NothingCommonRight(op, l, r, f, g);
    }
  }
}
