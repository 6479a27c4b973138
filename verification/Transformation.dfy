/** `expr_transform`: negation normal form without boolean symbols compared with a literal. */
module Transformation {
  import opened Expressions

  /** Bounds the work of the rewriter: De Morgan steps add nodes but lower the weight. */
  function Weight(e: Expr): (w: nat)
    ensures w >= 1
  {
    match e
    case Sym(_) => 1
    case Not(a) => 2 * Weight(a) + 1
    case Bin(_, l, r) => Weight(l) + Weight(r) + 2
    case Cmp(_, _, _) => 3
  }

  /** A boolean symbol compared with y, m or n becomes the symbol, its negation or a constant. */
  function TransformCmp(e: Expr): Expr
    requires e.Cmp?
  {
    if !IsBoolean(e.lhs) then e
    else if e.rhs == SYMBOL_NO then (if e.equal then Not(Sym(e.lhs)) else Sym(e.lhs))
    else if e.rhs == SYMBOL_MOD then (if e.equal then NO_EXPR else YES_EXPR)
    else if e.rhs == SYMBOL_YES then (if e.equal then Sym(e.lhs) else Not(Sym(e.lhs)))
    else e
  }

  function Transform(e: Expr): (r: Expr)
    ensures Weight(r) <= Weight(e)
    decreases Weight(e)
  {
    match e
    case Sym(_) => e
    case Cmp(_, _, _) => TransformCmp(e)
    case Bin(op, l, r) => Bin(op, Transform(l), Transform(r))
    case Not(a) =>
      match Transform(a)
      case Not(b) => Transform(b)
      case Cmp(equal, s1, s2) => Cmp(!equal, s1, s2)
      case Bin(op, l, r) =>
        assert Weight(Not(l)) == 2 * Weight(l) + 1 && Weight(Not(r)) == 2 * Weight(r) + 1;
        Transform(Bin(Dual(op), Not(l), Not(r)))
      case Sym(s) =>
        if s == SYMBOL_YES then NO_EXPR
        else if s == SYMBOL_MOD then Sym(SYMBOL_MOD)
        else if s == SYMBOL_NO then YES_EXPR
        else Not(Sym(s))
  }

  /** NOT stands only over a symbol that is no literal, and no boolean symbol is compared with one. */
  predicate NormalForm(e: Expr) {
    match e
    case Sym(_) => true
    case Not(a) => a.Sym? && !IsLiteral(a.sym)
    case Bin(_, l, r) => NormalForm(l) && NormalForm(r)
    case Cmp(_, s1, s2) => !(IsBoolean(s1) && IsLiteral(s2))
  }

  lemma {:induction false} TransformValue(env: Env, e: Expr)
    requires Sane(env)
    ensures Val(env, Transform(e)) == Val(env, e)
    decreases Weight(e)
  {
    match e
    case Sym(_) =>
    case Cmp(_, _, _) =>
    case Bin(_, l, r) => TransformValue(env, l); TransformValue(env, r);
    case Not(a) =>
      TransformValue(env, a);
      match Transform(a)
      case Not(b) => TransformValue(env, b);
      case Bin(op, l, r) =>
        assert Weight(Not(l)) == 2 * Weight(l) + 1 && Weight(Not(r)) == 2 * Weight(r) + 1;
        TransformValue(env, Bin(Dual(op), Not(l), Not(r)));
      case _ =>
  }

  lemma {:induction false} TransformNormal(e: Expr)
    ensures NormalForm(Transform(e))
    decreases Weight(e)
  {
    match e
    case Sym(_) =>
    case Cmp(_, _, _) =>
    case Bin(_, l, r) => TransformNormal(l); TransformNormal(r);
    case Not(a) =>
      TransformNormal(a);
      match Transform(a)
      case Not(b) => TransformNormal(b);
      case Bin(op, l, r) =>
        assert Weight(Not(l)) == 2 * Weight(l) + 1 && Weight(Not(r)) == 2 * Weight(r) + 1;
        TransformNormal(Bin(Dual(op), Not(l), Not(r)));
      case _ =>
  }

  /** Exactly the normal forms are left alone; with TransformNormal, rewriting is idempotent. */
  lemma {:induction false} TransformFixed(e: Expr)
    ensures NormalForm(e) <==> Transform(e) == e
  {
    TransformNormal(e);
    if NormalForm(e) && e.Bin? {
      TransformFixed(e.left);
      TransformFixed(e.right);
    }
  }

  lemma TransformIdempotent(e: Expr)
    ensures Transform(Transform(e)) == Transform(e)
  {
    TransformNormal(e);
    TransformFixed(Transform(e));
  }

  /** An AND/OR under a NOT turns into the other operator. */
  lemma TransformNegatedChain(e: Expr)
    requires e.Bin?
    ensures Transform(e).Bin? && Transform(e).op == e.op
    ensures Transform(Not(e)).Bin? && Transform(Not(e)).op == Dual(e.op)
  {
  }
}
