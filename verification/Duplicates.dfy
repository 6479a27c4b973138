/** One pass of `expr_eliminate_dups1` and `expr_eliminate_dups2`, and the fixed point of
    `expr_eliminate_dups`, stated on the operands of an AND/OR chain.

    The source walks two slots, usually aliased, over one tree while it overwrites leaves.
    Here a chain is the list of its operands and a pass is a pair of index loops; the class
    Rewriter proves that the in-place recursion computes the same. */
module Duplicates {
  import opened Expressions
  import opened Elimination
  import opened Transformation
  import opened Joining

  // ---------------------------------------------------------------- chains as operand lists

  /** Puts new operands into the chain of `op` nodes at the top of e. */
  function WithOperands(op: Op, e: Expr, xs: seq<Expr>): Expr
    requires |xs| == |Operands(op, e)|
  {
    if IsOp(op, e) then
      var k := |Operands(op, e.left)|;
      Bin(op, WithOperands(op, e.left, xs[..k]), WithOperands(op, e.right, xs[k..]))
    else xs[0]
  }

  function TotalSize(xs: seq<Expr>): nat {
    if xs == [] then 0 else Size(xs[0]) + TotalSize(xs[1..])
  }

  ghost predicate NoOp(op: Op, xs: seq<Expr>) {
    forall i :: 0 <= i < |xs| ==> !IsOp(op, xs[i])
  }

  /** The value of the chain with operands xs. */
  function Fold(env: Env, op: Op, xs: seq<Expr>): Tristate {
    if xs == [] then Unit(op) else Apply(op, Val(env, xs[0]), Fold(env, op, xs[1..]))
  }

  lemma {:induction false} TotalSizeUpdate(xs: seq<Expr>, i: nat, x: Expr)
    requires i < |xs|
    ensures TotalSize(xs[i := x]) == TotalSize(xs) - Size(xs[i]) + Size(x)
    ensures Size(xs[i]) <= TotalSize(xs)
  {
    if i > 0 {
      assert xs[i := x][1..] == xs[1..][i - 1 := x];
      TotalSizeUpdate(xs[1..], i - 1, x);
    } else {
      assert xs[i := x][1..] == xs[1..];
    }
  }

  lemma {:induction false} TotalSizeUpdate2(xs: seq<Expr>, i: nat, j: nat, x: Expr, y: Expr)
    requires i < |xs| && j < |xs| && i != j
    ensures TotalSize(xs[i := x][j := y]) == TotalSize(xs) - Size(xs[i]) - Size(xs[j]) + Size(x) + Size(y)
  {
    TotalSizeUpdate(xs, i, x);
    TotalSizeUpdate(xs[i := x], j, y);
  }

  lemma {:induction false} TotalSizeAppend(xs: seq<Expr>, ys: seq<Expr>)
    ensures TotalSize(xs + ys) == TotalSize(xs) + TotalSize(ys)
  {
    if xs == [] {
      assert xs + ys == ys;
    } else {
      assert (xs + ys)[1..] == xs[1..] + ys;
      TotalSizeAppend(xs[1..], ys);
    }
  }

  lemma {:induction false} OperandsFacts(op: Op, e: Expr)
    ensures NoOp(op, Operands(op, e))
    ensures TotalSize(Operands(op, e)) <= Size(e)
    ensures IsOp(op, e) ==> TotalSize(Operands(op, e)) < Size(e) && |Operands(op, e)| >= 2
  {
    if IsOp(op, e) {
      OperandsFacts(op, e.left);
      OperandsFacts(op, e.right);
      TotalSizeAppend(Operands(op, e.left), Operands(op, e.right));
    } else {
      assert Operands(op, e)[1..] == [];
    }
  }

  lemma {:induction false} WithOperandsFacts(op: Op, e: Expr, xs: seq<Expr>)
    requires |xs| == |Operands(op, e)| && NoOp(op, xs)
    ensures Operands(op, WithOperands(op, e, xs)) == xs
    ensures Size(WithOperands(op, e, xs)) - TotalSize(xs) == Size(e) - TotalSize(Operands(op, e))
    ensures IsOp(op, e) ==> IsOp(op, WithOperands(op, e, xs))
  {
    if IsOp(op, e) {
      var k := |Operands(op, e.left)|;
      WithOperandsFacts(op, e.left, xs[..k]);
      WithOperandsFacts(op, e.right, xs[k..]);
      assert xs[..k] + xs[k..] == xs;
      TotalSizeAppend(xs[..k], xs[k..]);
      TotalSizeAppend(Operands(op, e.left), Operands(op, e.right));
    } else {
      assert xs[1..] == [] && Operands(op, e)[1..] == [];
    }
  }

  lemma {:induction false} WithOwnOperands(op: Op, e: Expr)
    ensures WithOperands(op, e, Operands(op, e)) == e
  {
    if IsOp(op, e) {
      var k := |Operands(op, e.left)|;
      assert Operands(op, e)[..k] == Operands(op, e.left);
      assert Operands(op, e)[k..] == Operands(op, e.right);
      WithOwnOperands(op, e.left);
      WithOwnOperands(op, e.right);
    }
  }

  // ---------------------------------------------------------------- expr_eliminate_dups1

  /** Operands i and j: simplify operand i itself, then replace the pair by its join. */
  function Dups1Step(op: Op, xs: seq<Expr>, i: nat, j: nat): (r: (seq<Expr>, nat))
    requires i < |xs| && j < |xs| && NoOp(op, xs)
    ensures |r.0| == |xs| && NoOp(op, r.0) && TotalSize(r.0) <= TotalSize(xs)
    decreases TotalSize(xs), 1
  {
    if i == j then (xs, 0)
    else
      TotalSizeUpdate(xs, i, xs[i]);
      var (x, n) := Dups1(xs[i]);
      TotalSizeUpdate(xs, i, x);
      match Join(op, x, xs[j])
      case None => (xs[i := x], n)
      case Some(t) =>
        JoinSmall(op, x, xs[j]);
        TotalSizeUpdate2(xs, i, j, Neutral(op), t);
        (xs[i := Neutral(op)][j := t], n + 1)
  }

  function Dups1Row(op: Op, xs: seq<Expr>, i: nat, j: nat, hi: nat): (r: (seq<Expr>, nat))
    requires i < |xs| && j <= hi <= |xs| && NoOp(op, xs)
    ensures |r.0| == |xs| && NoOp(op, r.0) && TotalSize(r.0) <= TotalSize(xs)
    decreases TotalSize(xs), 2, hi - j
  {
    if j == hi then (xs, 0)
    else
      var (ys, n) := Dups1Step(op, xs, i, j);
      var (zs, m) := Dups1Row(op, ys, i, j + 1, hi);
      (zs, n + m)
  }

  function Dups1Rows(op: Op, xs: seq<Expr>, i: nat, hi: nat): (r: (seq<Expr>, nat))
    requires i <= hi <= |xs| && NoOp(op, xs)
    ensures |r.0| == |xs| && NoOp(op, r.0) && TotalSize(r.0) <= TotalSize(xs)
    decreases TotalSize(xs), 3, hi - i
  {
    if i == hi then (xs, 0)
    else
      var (ys, n) := Dups1Row(op, xs, i, 0, |xs|);
      var (zs, m) := Dups1Rows(op, ys, i + 1, hi);
      (zs, n + m)
  }

  /** `expr_eliminate_dups1(e->type, &e, &e)` with the number of rewrites counted. */
  function Dups1(e: Expr): (r: (Expr, nat))
    ensures Size(r.0) <= Size(e)
    ensures if e.Bin? then IsOp(e.op, r.0) else r == (e, 0)
    decreases Size(e), 0
  {
    if !e.Bin? then (e, 0)
    else
      OperandsFacts(e.op, e);
      var xs := Operands(e.op, e);
      var (ys, n) := Dups1Rows(e.op, xs, 0, |xs|);
      WithOperandsFacts(e.op, e, ys);
      (WithOperands(e.op, e, ys), n)
  }

  // ---------------------------------------------------------------- expr_eliminate_dups2

  /** The operands of !x all occur among the operands of e2, so x joined with e2 is constant
      (up to `mod`): (a || b) && (!a && !b), or its dual. */
  predicate Contradicts(op: Op, x: Expr, e2: Expr) {
    ExtractCommon(op, Transform(Not(x)), e2).1 == Neutral(op)
  }

  /** Operand i against one node of the chain: the node with the shape of `node` over the
      operands from `lo` on.  Operand i is not compared with itself. */
  function Dups2Step(op: Op, xs: seq<Expr>, i: nat, node: Expr, lo: nat): (r: (seq<Expr>, nat))
    requires i < |xs| && NoOp(op, xs) && lo + |Operands(op, node)| <= |xs|
    ensures |r.0| == |xs| && NoOp(op, r.0) && TotalSize(r.0) <= TotalSize(xs)
    decreases TotalSize(xs), 1
  {
    if !IsOp(op, node) && lo == i then (xs, 0)
    else if !xs[i].Bin? then (xs, 0)
    else
      TotalSizeUpdate(xs, i, xs[i]);
      var (x, n) := Dups2(xs[i]);
      TotalSizeUpdate(xs, i, x);
      var ys := xs[i := x];
      if Contradicts(op, x, WithOperands(op, node, ys[lo..lo + |Operands(op, node)|])) then
        TotalSizeUpdate(ys, i, Absorbing(op));
        (ys[i := Absorbing(op)], n + 1)
      else (ys, n)
  }

  /** Operand i against every node of the chain below `node`, and then `node` itself: the
      source has no return after the recursion into the second slot. */
  function Dups2Row(op: Op, xs: seq<Expr>, i: nat, node: Expr, lo: nat): (r: (seq<Expr>, nat))
    requires i < |xs| && NoOp(op, xs) && lo + |Operands(op, node)| <= |xs|
    ensures |r.0| == |xs| && NoOp(op, r.0) && TotalSize(r.0) <= TotalSize(xs)
    decreases TotalSize(xs), 2, node
  {
    if IsOp(op, node) then
      var (ys, n) := Dups2Row(op, xs, i, node.left, lo);
      var (zs, m) := Dups2Row(op, ys, i, node.right, lo + |Operands(op, node.left)|);
      var (ws, k) := Dups2Step(op, zs, i, node, lo);
      (ws, n + m + k)
    else Dups2Step(op, xs, i, node, lo)
  }

  function Dups2Rows(op: Op, xs: seq<Expr>, i: nat, hi: nat, e: Expr): (r: (seq<Expr>, nat))
    requires i <= hi <= |xs| && NoOp(op, xs) && |Operands(op, e)| == |xs|
    ensures |r.0| == |xs| && NoOp(op, r.0) && TotalSize(r.0) <= TotalSize(xs)
    decreases TotalSize(xs), 3, hi - i
  {
    if i == hi then (xs, 0)
    else
      var (ys, n) := Dups2Row(op, xs, i, e, 0);
      var (zs, m) := Dups2Rows(op, ys, i + 1, hi, e);
      (zs, n + m)
  }

  /** `expr_eliminate_dups2(e->type, &e, &e)` with the number of rewrites counted. */
  function Dups2(e: Expr): (r: (Expr, nat))
    ensures Size(r.0) <= Size(e)
    ensures if e.Bin? then IsOp(e.op, r.0) else r == (e, 0)
    decreases Size(e), 0
  {
    if !e.Bin? then (e, 0)
    else
      OperandsFacts(e.op, e);
      var xs := Operands(e.op, e);
      var (ys, n) := Dups2Rows(e.op, xs, 0, |xs|, e);
      WithOperandsFacts(e.op, e, ys);
      (WithOperands(e.op, e, ys), n)
  }

  // ---------------------------------------------------------------- progress of one pass

  /** Some operand is, or contains as an operand, one of the literals y and n. */
  ghost predicate AnyConstant(xs: seq<Expr>) {
    exists i :: 0 <= i < |xs| && (IsYesNo(xs[i]) || HasConstant(xs[i]))
  }

  /** Without a rewrite nothing changed; with one, a constant operand was left behind. */
  ghost predicate Progress(xs: seq<Expr>, r: (seq<Expr>, nat)) {
    if r.1 == 0 then r.0 == xs else AnyConstant(r.0)
  }

  ghost predicate ProgressIn(e: Expr, r: (Expr, nat)) {
    if r.1 == 0 then r.0 == e else HasConstant(r.0)
  }

  lemma {:induction false} WithOperandsConstant(op: Op, e: Expr, xs: seq<Expr>)
    requires |xs| == |Operands(op, e)| && AnyConstant(xs)
    ensures IsOp(op, e) ==> HasConstant(WithOperands(op, e, xs))
    ensures !IsOp(op, e) ==> IsYesNo(WithOperands(op, e, xs)) || HasConstant(WithOperands(op, e, xs))
  {
    if IsOp(op, e) {
      var k := |Operands(op, e.left)|;
      var i :| 0 <= i < |xs| && (IsYesNo(xs[i]) || HasConstant(xs[i]));
      if i < k {
        assert xs[..k][i] == xs[i];
        WithOperandsConstant(op, e.left, xs[..k]);
      } else {
        assert xs[k..][i - k] == xs[i];
        WithOperandsConstant(op, e.right, xs[k..]);
      }
    }
  }

  /** The first pass has nothing to do for operand i and the pair (i, j). */
  ghost predicate Unjoined(op: Op, xs: seq<Expr>, i: nat, j: nat)
    requires i < |xs| && j < |xs|
  {
    Join(op, xs[i], xs[j]).None? && Dups1(xs[i]).1 == 0
  }

  /** The second pass has nothing to do for operand i and the nodes of the chain below `node`. */
  ghost predicate Unopposed(op: Op, x: Expr, i: nat, node: Expr, lo: nat) {
    if !IsOp(op, node) then lo == i || !Contradicts(op, x, node)
    else
      && Unopposed(op, x, i, node.left, lo)
      && Unopposed(op, x, i, node.right, lo + |Operands(op, node.left)|)
      && !Contradicts(op, x, node)
  }

  lemma {:induction false} Dups1StepProgress(op: Op, xs: seq<Expr>, i: nat, j: nat)
    requires i < |xs| && j < |xs| && NoOp(op, xs)
    ensures Progress(xs, Dups1Step(op, xs, i, j))
    ensures i != j ==> (Dups1Step(op, xs, i, j).1 == 0 <==> Unjoined(op, xs, i, j))
    decreases TotalSize(xs), 1
  {
    if i != j {
      TotalSizeUpdate(xs, i, xs[i]);
      Dups1Progress(xs[i]);
      var (x, n) := Dups1(xs[i]);
      var r := Dups1Step(op, xs, i, j);
      if Join(op, x, xs[j]).Some? {
        assert r.0[i] == Neutral(op);
      } else if n > 0 {
        assert HasConstant(r.0[i]);
      }
    }
  }

  lemma {:induction false} Dups1RowProgress(op: Op, xs: seq<Expr>, i: nat, j: nat, hi: nat)
    requires i < |xs| && j <= hi <= |xs| && NoOp(op, xs)
    ensures Progress(xs, Dups1Row(op, xs, i, j, hi))
    ensures Dups1Row(op, xs, i, j, hi).1 == 0 <==> forall k :: j <= k < hi && k != i ==> Unjoined(op, xs, i, k)
    decreases TotalSize(xs), 2, hi - j
  {
    if j < hi {
      Dups1StepProgress(op, xs, i, j);
      Dups1RowProgress(op, Dups1Step(op, xs, i, j).0, i, j + 1, hi);
    }
  }

  lemma {:induction false} Dups1RowsProgress(op: Op, xs: seq<Expr>, i: nat, hi: nat)
    requires i <= hi <= |xs| && NoOp(op, xs)
    ensures Progress(xs, Dups1Rows(op, xs, i, hi))
    ensures Dups1Rows(op, xs, i, hi).1 == 0 <==>
            forall h, k :: i <= h < hi && 0 <= k < |xs| && k != h ==> Unjoined(op, xs, h, k)
    decreases TotalSize(xs), 3, hi - i
  {
    if i < hi {
      Dups1RowProgress(op, xs, i, 0, |xs|);
      Dups1RowsProgress(op, Dups1Row(op, xs, i, 0, |xs|).0, i + 1, hi);
    }
  }

  lemma {:induction false} Dups1Progress(e: Expr)
    ensures ProgressIn(e, Dups1(e))
    decreases Size(e), 0
  {
    if e.Bin? {
      OperandsFacts(e.op, e);
      var xs := Operands(e.op, e);
      Dups1RowsProgress(e.op, xs, 0, |xs|);
      var r := Dups1Rows(e.op, xs, 0, |xs|);
      if r.1 == 0 { WithOwnOperands(e.op, e); } else { WithOperandsConstant(e.op, e, r.0); }
    }
  }

  lemma {:induction false} Dups2StepProgress(op: Op, xs: seq<Expr>, i: nat, node: Expr, lo: nat)
    requires i < |xs| && NoOp(op, xs) && lo + |Operands(op, node)| <= |xs|
    ensures Progress(xs, Dups2Step(op, xs, i, node, lo))
    ensures xs[lo..lo + |Operands(op, node)|] == Operands(op, node) ==>
              (Dups2Step(op, xs, i, node, lo).1 == 0 <==>
               (!IsOp(op, node) && lo == i) || !xs[i].Bin? || (Dups2(xs[i]).1 == 0 && !Contradicts(op, xs[i], node)))
    decreases TotalSize(xs), 1
  {
    if !(!IsOp(op, node) && lo == i) && xs[i].Bin? {
      TotalSizeUpdate(xs, i, xs[i]);
      Dups2Progress(xs[i]);
      var (x, n) := Dups2(xs[i]);
      var r := Dups2Step(op, xs, i, node, lo);
      assert r.0[i] == x || r.0[i] == Absorbing(op);
      if n == 0 { assert xs[i := x] == xs; }
      WithOwnOperands(op, node);
    }
  }

  lemma {:induction false} Dups2RowProgress(op: Op, xs: seq<Expr>, i: nat, node: Expr, lo: nat)
    requires i < |xs| && NoOp(op, xs) && lo + |Operands(op, node)| <= |xs|
    ensures Progress(xs, Dups2Row(op, xs, i, node, lo))
    decreases TotalSize(xs), 2, node
  {
    if IsOp(op, node) {
      var (ys, n) := Dups2Row(op, xs, i, node.left, lo);
      var (zs, m) := Dups2Row(op, ys, i, node.right, lo + |Operands(op, node.left)|);
      Dups2RowProgress(op, xs, i, node.left, lo);
      Dups2RowProgress(op, ys, i, node.right, lo + |Operands(op, node.left)|);
      Dups2StepProgress(op, zs, i, node, lo);
    } else {
      Dups2StepProgress(op, xs, i, node, lo);
    }
  }

  lemma {:induction false} Dups2RowsProgress(op: Op, xs: seq<Expr>, i: nat, hi: nat, e: Expr)
    requires i <= hi <= |xs| && NoOp(op, xs) && |Operands(op, e)| == |xs|
    ensures Progress(xs, Dups2Rows(op, xs, i, hi, e))
    decreases TotalSize(xs), 3, hi - i
  {
    if i < hi {
      Dups2RowProgress(op, xs, i, e, 0);
      Dups2RowsProgress(op, Dups2Row(op, xs, i, e, 0).0, i + 1, hi, e);
    }
  }

  lemma {:induction false} Dups2Progress(e: Expr)
    ensures ProgressIn(e, Dups2(e))
    decreases Size(e), 0
  {
    if e.Bin? {
      OperandsFacts(e.op, e);
      var xs := Operands(e.op, e);
      Dups2RowsProgress(e.op, xs, 0, |xs|, e);
      var r := Dups2Rows(e.op, xs, 0, |xs|, e);
      if r.1 == 0 { WithOwnOperands(e.op, e); } else { WithOperandsConstant(e.op, e, r.0); }
    }
  }

  // ---------------------------------------------------------------- when a pass finds nothing

  /** A row of the second pass is quiet exactly when the operand is settled and unopposed. */
  lemma {:induction false} Dups2RowQuiet(op: Op, xs: seq<Expr>, i: nat, node: Expr, lo: nat)
    requires i < |xs| && NoOp(op, xs) && lo + |Operands(op, node)| <= |xs|
    requires xs[lo..lo + |Operands(op, node)|] == Operands(op, node)
    ensures Dups2Row(op, xs, i, node, lo).1 == 0 <==> RowQuiet(op, xs, i, node, lo)
    decreases node
  {
    if IsOp(op, node) {
      var mid := lo + |Operands(op, node.left)|;
      SliceOperands(op, xs, node, lo);
      Dups2RowQuiet(op, xs, i, node.left, lo);
      Dups2RowQuiet(op, xs, i, node.right, mid);
      Dups2RowNode(op, xs, i, node, lo);
    } else {
      Dups2StepProgress(op, xs, i, node, lo);
    }
  }

  /** A row over a node is quiet when both halves and the comparison with the node itself are. */
  lemma Dups2RowNode(op: Op, xs: seq<Expr>, i: nat, node: Expr, lo: nat)
    requires IsOp(op, node) && i < |xs| && NoOp(op, xs) && lo + |Operands(op, node)| <= |xs|
    requires xs[lo..lo + |Operands(op, node)|] == Operands(op, node)
    ensures Dups2Row(op, xs, i, node, lo).1 == 0 <==>
            && Dups2Row(op, xs, i, node.left, lo).1 == 0
            && Dups2Row(op, xs, i, node.right, lo + |Operands(op, node.left)|).1 == 0
            && (!xs[i].Bin? || (Dups2(xs[i]).1 == 0 && !Contradicts(op, xs[i], node)))
  {
    var mid := lo + |Operands(op, node.left)|;
    Dups2RowProgress(op, xs, i, node.left, lo);
    Dups2RowProgress(op, xs, i, node.right, mid);
    Dups2StepProgress(op, xs, i, node, lo);
  }

  ghost predicate RowQuiet(op: Op, xs: seq<Expr>, i: nat, node: Expr, lo: nat)
    requires i < |xs|
  {
    if IsOp(op, node) then
      && RowQuiet(op, xs, i, node.left, lo)
      && RowQuiet(op, xs, i, node.right, lo + |Operands(op, node.left)|)
      && (!xs[i].Bin? || (Dups2(xs[i]).1 == 0 && !Contradicts(op, xs[i], node)))
    else lo == i || !xs[i].Bin? || (Dups2(xs[i]).1 == 0 && !Contradicts(op, xs[i], node))
  }

  lemma {:induction false} RowQuietMeans(op: Op, xs: seq<Expr>, i: nat, node: Expr, lo: nat)
    requires i < |xs|
    ensures RowQuiet(op, xs, i, node, lo) <==>
            (!IsOp(op, node) && lo == i) || !xs[i].Bin? || (Dups2(xs[i]).1 == 0 && Unopposed(op, xs[i], i, node, lo))
  {
    if IsOp(op, node) {
      RowQuietMeans(op, xs, i, node.left, lo);
      RowQuietMeans(op, xs, i, node.right, lo + |Operands(op, node.left)|);
    }
  }

  lemma SliceOperands(op: Op, xs: seq<Expr>, node: Expr, lo: nat)
    requires IsOp(op, node) && lo + |Operands(op, node)| <= |xs|
    requires xs[lo..lo + |Operands(op, node)|] == Operands(op, node)
    ensures var k := |Operands(op, node.left)|;
            && xs[lo..lo + k] == Operands(op, node.left)
            && xs[lo + k..lo + k + |Operands(op, node.right)|] == Operands(op, node.right)
  {
    var a, b := Operands(op, node.left), Operands(op, node.right);
    var slice := xs[lo..lo + |a| + |b|];
    assert slice == a + b;
    SubSlice(xs, lo, |a|, |a| + |b|);
  }

  lemma SubSlice(xs: seq<Expr>, lo: nat, m: nat, n: nat)
    requires m <= n && lo + n <= |xs|
    ensures xs[lo..lo + n][..m] == xs[lo..lo + m]
    ensures xs[lo..lo + n][m..] == xs[lo + m..lo + n]
  {
  }

  lemma {:induction false} Dups2RowsQuiet(op: Op, i: nat, hi: nat, e: Expr)
    requires IsOp(op, e) && i <= hi <= |Operands(op, e)|
    ensures var xs := Operands(op, e);
            NoOp(op, xs) && (Dups2Rows(op, xs, i, hi, e).1 == 0 <==>
            forall h :: i <= h < hi && xs[h].Bin? ==> Dups2(xs[h]).1 == 0 && Unopposed(op, xs[h], h, e, 0))
    decreases hi - i
  {
    OperandsFacts(op, e);
    var xs := Operands(op, e);
    if i < hi {
      assert xs[0..0 + |xs|] == xs;
      Dups2RowQuiet(op, xs, i, e, 0);
      RowQuietMeans(op, xs, i, e, 0);
      Dups2RowProgress(op, xs, i, e, 0);
      Dups2RowsQuiet(op, i + 1, hi, e);
    }
  }

  /** No two operands of one AND/OR chain of e, at any depth, can be joined. */
  ghost predicate Deduplicated(e: Expr)
    decreases e, 0
  {
    e.Bin? ==>
      && (forall i, j :: 0 <= i < |Operands(e.op, e)| && 0 <= j < |Operands(e.op, e)| && i != j ==>
            Join(e.op, Operands(e.op, e)[i], Operands(e.op, e)[j]).None?)
      && DeduplicatedBelow(e.op, e.left) && DeduplicatedBelow(e.op, e.right)
  }

  ghost predicate DeduplicatedBelow(op: Op, e: Expr)
    decreases e, 1
  {
    if IsOp(op, e) then DeduplicatedBelow(op, e.left) && DeduplicatedBelow(op, e.right) else Deduplicated(e)
  }

  /** No AND/OR operand of a chain of e, at any depth, contradicts another part of its chain. */
  ghost predicate ConflictFree(e: Expr)
    decreases e, 0
  {
    e.Bin? ==>
      && (forall i :: 0 <= i < |Operands(e.op, e)| && Operands(e.op, e)[i].Bin? ==>
            Unopposed(e.op, Operands(e.op, e)[i], i, e, 0))
      && ConflictFreeBelow(e.op, e.left) && ConflictFreeBelow(e.op, e.right)
  }

  ghost predicate ConflictFreeBelow(op: Op, e: Expr)
    decreases e, 1
  {
    if IsOp(op, e) then ConflictFreeBelow(op, e.left) && ConflictFreeBelow(op, e.right) else ConflictFree(e)
  }

  lemma {:induction false} BelowOperands(op: Op, e: Expr)
    ensures DeduplicatedBelow(op, e) <==> forall x :: x in Operands(op, e) ==> Deduplicated(x)
    ensures ConflictFreeBelow(op, e) <==> forall x :: x in Operands(op, e) ==> ConflictFree(x)
    ensures forall x :: x in Operands(op, e) ==> Size(x) <= Size(e)
  {
    if IsOp(op, e) {
      BelowOperands(op, e.left);
      BelowOperands(op, e.right);
      assert forall x :: x in Operands(op, e) <==> x in Operands(op, e.left) || x in Operands(op, e.right);
    } else {
      assert Operands(op, e) == [e];
      assert e in Operands(op, e);
    }
  }

  /** The operands of a chain are those of its two halves. */
  lemma ChainOperands(e: Expr)
    requires e.Bin?
    ensures var xs := Operands(e.op, e);
            && |xs| >= 2 && (forall x :: x in xs ==> Size(x) < Size(e))
            && forall x :: x in xs <==> x in Operands(e.op, e.left) || x in Operands(e.op, e.right)
  {
    BelowOperands(e.op, e.left);
    BelowOperands(e.op, e.right);
  }

  /** What `Deduplicated` says about the operand list of a chain. */
  lemma DeduplicatedUnfold(e: Expr)
    requires e.Bin?
    ensures var xs := Operands(e.op, e);
            Deduplicated(e) <==>
              (forall x :: x in xs ==> Deduplicated(x)) &&
              (forall i, j :: 0 <= i < |xs| && 0 <= j < |xs| && i != j ==> Join(e.op, xs[i], xs[j]).None?)
  {
    ChainOperands(e);
    BelowOperands(e.op, e.left);
    BelowOperands(e.op, e.right);
  }

  /** The same for `ConflictFree`. */
  lemma ConflictFreeUnfold(e: Expr)
    requires e.Bin?
    ensures var xs := Operands(e.op, e);
            ConflictFree(e) <==>
              (forall x :: x in xs ==> ConflictFree(x)) &&
              (forall i :: 0 <= i < |xs| && xs[i].Bin? ==> Unopposed(e.op, xs[i], i, e, 0))
  {
    ChainOperands(e);
    BelowOperands(e.op, e.left);
    BelowOperands(e.op, e.right);
  }

  /** x is e or a node of an AND/OR tree at the top of e. */
  predicate Part(x: Expr, e: Expr) { x == e || (e.Bin? && (Part(x, e.left) || Part(x, e.right))) }

  /** What is deduplicated is so in every part. */
  lemma {:induction false} DeduplicatedPart(x: Expr, e: Expr)
    requires Deduplicated(e) && Part(x, e)
    ensures Deduplicated(x)
  {
    if x != e {
      DeduplicatedHalves(e);
      if Part(x, e.left) { DeduplicatedPart(x, e.left); } else { DeduplicatedPart(x, e.right); }
    }
  }

  lemma DeduplicatedHalves(e: Expr)
    requires Deduplicated(e) && e.Bin?
    ensures Deduplicated(e.left) && Deduplicated(e.right)
  {
    var xs, ls, rs := Operands(e.op, e), Operands(e.op, e.left), Operands(e.op, e.right);
    assert forall i :: 0 <= i < |ls| ==> xs[i] == ls[i];
    assert forall i :: 0 <= i < |rs| ==> xs[|ls| + i] == rs[i];
  }

  /** The first pass does nothing exactly when all its pairs are quiet. */
  lemma Dups1QuietPairs(e: Expr)
    requires e.Bin?
    ensures var xs := Operands(e.op, e);
            Dups1(e).1 == 0 <==>
              forall h, k :: 0 <= h < |xs| && 0 <= k < |xs| && k != h ==> Unjoined(e.op, xs, h, k)
  {
    OperandsFacts(e.op, e);
    Dups1RowsProgress(e.op, Operands(e.op, e), 0, |Operands(e.op, e)|);
  }

  lemma {:induction false} Dups1Quiet(e: Expr)
    ensures Dups1(e).1 == 0 <==> Deduplicated(e)
    decreases Size(e)
  {
    if e.Bin? {
      Dups1QuietPairs(e);
      ChainOperands(e);
      DeduplicatedUnfold(e);
      var xs := Operands(e.op, e);
      forall x | x in xs ensures Dups1(x).1 == 0 <==> Deduplicated(x) { Dups1Quiet(x); }
      if Dups1(e).1 == 0 {
        Dups1QuietOperands(e.op, xs);
      }
      if Deduplicated(e) {
        forall h, k | 0 <= h < |xs| && 0 <= k < |xs| && k != h ensures Unjoined(e.op, xs, h, k) {
          assert xs[h] in xs;
        }
      }
    }
  }

  lemma Dups1QuietOperands(op: Op, xs: seq<Expr>)
    requires |xs| >= 2
    requires forall h, k :: 0 <= h < |xs| && 0 <= k < |xs| && k != h ==> Unjoined(op, xs, h, k)
    ensures forall x :: x in xs ==> Dups1(x).1 == 0
    ensures forall i, j :: 0 <= i < |xs| && 0 <= j < |xs| && i != j ==> Join(op, xs[i], xs[j]).None?
  {
    forall i | 0 <= i < |xs| ensures Dups1(xs[i]).1 == 0 {
      assert Unjoined(op, xs, i, if i == 0 then 1 else 0);
    }
    forall i, j | 0 <= i < |xs| && 0 <= j < |xs| && i != j ensures Join(op, xs[i], xs[j]).None? {
      assert Unjoined(op, xs, i, j);
    }
  }

  lemma Dups2QuietRows(e: Expr)
    requires e.Bin?
    ensures var xs := Operands(e.op, e);
            Dups2(e).1 == 0 <==>
              forall h :: 0 <= h < |xs| && xs[h].Bin? ==> Dups2(xs[h]).1 == 0 && Unopposed(e.op, xs[h], h, e, 0)
  {
    OperandsFacts(e.op, e);
    Dups2RowsQuiet(e.op, 0, |Operands(e.op, e)|, e);
  }

  lemma {:induction false} Dups2Quiet(e: Expr)
    ensures Dups2(e).1 == 0 <==> ConflictFree(e)
    decreases Size(e)
  {
    if e.Bin? {
      Dups2QuietRows(e);
      ChainOperands(e);
      ConflictFreeUnfold(e);
      var xs := Operands(e.op, e);
      forall x | x in xs ensures Dups2(x).1 == 0 <==> ConflictFree(x) { Dups2Quiet(x); }
      if Dups2(e).1 == 0 {
        forall x | x in xs ensures ConflictFree(x) {
          var i :| 0 <= i < |xs| && xs[i] == x;
        }
      }
      if ConflictFree(e) {
        forall h | 0 <= h < |xs| && xs[h].Bin? ensures Dups2(xs[h]).1 == 0 && Unopposed(e.op, xs[h], h, e, 0) {
          assert xs[h] in xs;
        }
      }
    }
  }
}
