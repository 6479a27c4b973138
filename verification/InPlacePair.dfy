/** The eliminator and the factor extraction in the form of the source: a slot in each of two
    trees, narrowed by recursion while both trees are overwritten. */
module InPlacePair {
  import opened Expressions
  import opened Elimination
  import Spec = Elimination
  import opened InPlace

  /** One step down from the node at p. */
  lemma Descend(e: Expr, p: Path, right: bool, v: Expr)
    requires Has(e, p) && At(e, p).Bin?
    ensures Has(e, p + [right]) && At(e, p + [right]) == Child(At(e, p), right)
    ensures var node := At(e, p);
            Put(e, p + [right], v) == Put(e, p, if right then Bin(node.op, node.left, v) else Bin(node.op, v, node.right))
  {
    PathFacts(e, p, [right], v);
    assert [right][1..] == [];
  }

  /** Both operands of the node at p overwritten one after the other. */
  lemma BothOperands(e: Expr, p: Path, l: Expr, r: Expr)
    requires Has(e, p) && At(e, p).Bin?
    ensures Has(e, p + [false]) && At(e, p + [false]) == At(e, p).left
    ensures var f := Put(e, p + [false], l);
            && Has(f, p + [true]) && At(f, p + [true]) == At(e, p).right
            && Put(f, p + [true], r) == Put(e, p, Bin(At(e, p).op, l, r))
  {
    var node := At(e, p);
    Descend(e, p, false, l);
    var f := Put(e, p + [false], l);
    PutFacts(e, p, Bin(node.op, l, node.right), Bin(node.op, l, r));
    Descend(f, p, true, r);
  }

  class Pair {
    var left: Expr
    var right: Expr
    /** The common factor found so far. */
    var factor: Option<Expr>

    constructor (left: Expr, right: Expr)
      ensures this.left == left && this.right == right && factor == None
    {
      this.left, this.right, factor := left, right, None;
    }

    /** `__expr_eliminate_eq` on the slots p of the left and q of the right tree. */
    method EliminateEqIn(op: Op, p: Path, q: Path)
      requires Has(left, p) && Has(right, q)
      modifies this`left, this`right
      ensures var (a, b) := Spec.EliminateEqIn(op, At(old(left), p), At(old(right), q));
              left == Put(old(left), p, a) && right == Put(old(right), q, b)
      decreases Size(At(left, p)) + Size(At(right, q))
    {
      var e1, e2 := At(left, p), At(right, q);
      PutFacts(left, p, e1, e1);
      PutFacts(right, q, e2, e2);
      if IsOp(op, e1) {
        ghost var (l, f) := Spec.EliminateEqIn(op, e1.left, e2);
        ghost var (r, g) := Spec.EliminateEqIn(op, e1.right, f);
        BothOperands(left, p, l, r);
        PutFacts(right, q, f, g);
        EliminateEqIn(op, p + [false], q);
        EliminateEqIn(op, p + [true], q);
      } else if IsOp(op, e2) {
        ghost var (f, l) := Spec.EliminateEqIn(op, e1, e2.left);
        ghost var (g, r) := Spec.EliminateEqIn(op, f, e2.right);
        BothOperands(right, q, l, r);
        PutFacts(left, p, f, g);
        EliminateEqIn(op, p, q + [false]);
        EliminateEqIn(op, p, q + [true]);
      } else if !(e1 == e2 && IsYesNo(e1)) && ExprEq(e1, e2) {
        left, right := Put(left, p, Neutral(op)), Put(right, q, Neutral(op));
      }
    }

    /** `expr_eliminate_eq` on the two trees. */
    method EliminateEq()
      modifies this`left, this`right
      ensures (left, right) == Spec.EliminateEq(old(left), old(right))
    {
      if left.Bin? { EliminateEqIn(left.op, [], []); }
      if right.Bin? && !IsOp(right.op, left) { EliminateEqIn(right.op, [], []); }
      left, right := EliminateYN(left), EliminateYN(right);
    }

    /** `expr_extract_eq` on the slots p and q; the common operands join the factor. */
    method ExtractEq(op: Op, p: Path, q: Path)
      requires Has(left, p) && Has(right, q)
      modifies this
      ensures var (t, a, b) := Spec.ExtractEq(op, old(factor), At(old(left), p), At(old(right), q));
              factor == t && left == Put(old(left), p, a) && right == Put(old(right), q, b)
      decreases Size(At(left, p)) + Size(At(right, q))
    {
      var e1, e2 := At(left, p), At(right, q);
      PutFacts(left, p, e1, e1);
      PutFacts(right, q, e2, e2);
      if IsOp(op, e1) {
        ghost var (t, l, f) := Spec.ExtractEq(op, factor, e1.left, e2);
        ghost var (u, r, g) := Spec.ExtractEq(op, t, e1.right, f);
        BothOperands(left, p, l, r);
        PutFacts(right, q, f, g);
        ExtractEq(op, p + [false], q);
        ExtractEq(op, p + [true], q);
      } else if IsOp(op, e2) {
        ghost var (t, f, l) := Spec.ExtractEq(op, factor, e1, e2.left);
        ghost var (u, g, r) := Spec.ExtractEq(op, t, f, e2.right);
        BothOperands(right, q, l, r);
        PutFacts(left, p, f, g);
        ExtractEq(op, p, q + [false]);
        ExtractEq(op, p, q + [true]);
      } else if ExprEq(e1, e2) {
        factor := Some(if factor.None? then e1 else Bin(op, factor.value, e1));
        left, right := Put(left, p, Neutral(op)), Put(right, q, Neutral(op));
      }
    }

    /** `expr_extract_eq_and` and `expr_extract_eq_or`: in every environment each tree was the factor
        joined with what is left of it. */
    method ExtractCommon(op: Op)
      modifies this
      ensures (factor, left, right) == Spec.ExtractCommon(op, old(left), old(right))
      ensures forall env ::
                CommonFactor(op, FactorValue(env, op, factor), Val(env, old(left)), Val(env, left),
                             Val(env, old(right)), Val(env, right))
    {
      factor := None;
      ExtractEq(op, [], []);
      if factor.Some? { left, right := EliminateYN(left), EliminateYN(right); }
      forall env
        ensures CommonFactor(op, FactorValue(env, op, factor), Val(env, old(left)), Val(env, left),
                             Val(env, old(right)), Val(env, right))
      {
        ExtractCommonFactor(env, op, old(left), old(right));
      }
    }
  }
}
