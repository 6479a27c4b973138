/** The duplicate eliminator in the form of the source: two slots of one tree, walked by
    mutual recursion while the tree is overwritten, with a global rewrite counter.

    A slot (`struct expr **`) is the path from the root of the tree to the node it holds.
    The two slots usually overlap; comparing two paths is comparing the node pointers. */
module InPlace {
  import opened Expressions
  import opened Elimination
  import opened Joining
  import opened Transformation
  import opened Duplicates
  import opened DuplicateMeaning

  /** false is the left operand, true the right one. */
  type Path = seq<bool>

  function Child(e: Expr, right: bool): Expr
    requires e.Bin?
  {
    if right then e.right else e.left
  }

  predicate Has(e: Expr, p: Path) {
    p == [] || (e.Bin? && Has(Child(e, p[0]), p[1..]))
  }

  function At(e: Expr, p: Path): Expr
    requires Has(e, p)
  {
    if p == [] then e else At(Child(e, p[0]), p[1..])
  }

  function Put(e: Expr, p: Path, v: Expr): Expr
    requires Has(e, p)
  {
    if p == [] then v
    else if p[0] then Bin(e.op, e.left, Put(e.right, p[1..], v))
    else Bin(e.op, Put(e.left, p[1..], v), e.right)
  }

  /** The node at p belongs to the chain of `op` nodes at the top of e. */
  predicate InChain(op: Op, e: Expr, p: Path) {
    p == [] || (IsOp(op, e) && InChain(op, Child(e, p[0]), p[1..]))
  }

  /** Number of operands of the chain to the left of the node at p. */
  function Index(op: Op, e: Expr, p: Path): nat
    requires InChain(op, e, p)
  {
    if p == [] then 0
    else if p[0] then |Operands(op, e.left)| + Index(op, e.right, p[1..])
    else Index(op, e.left, p[1..])
  }

  function Count(op: Op, e: Expr, p: Path): nat
    requires InChain(op, e, p)
  {
    if p == [] then |Operands(op, e)| else Count(op, Child(e, p[0]), p[1..])
  }

  // ---------------------------------------------------------------- paths

  lemma {:induction false} PathFacts(e: Expr, p: Path, q: Path, v: Expr)
    requires Has(e, p)
    ensures Has(e, p + q) <==> Has(At(e, p), q)
    ensures Has(e, p + q) ==> At(e, p + q) == At(At(e, p), q)
    ensures Has(e, p + q) ==> Put(e, p + q, v) == Put(e, p, Put(At(e, p), q, v))
  {
    if p == [] {
      assert p + q == q;
    } else {
      assert (p + q)[1..] == p[1..] + q;
      PathFacts(Child(e, p[0]), p[1..], q, v);
    }
  }

  lemma {:induction false} PutFacts(e: Expr, p: Path, v: Expr, w: Expr)
    requires Has(e, p)
    ensures Has(Put(e, p, v), p) && At(Put(e, p, v), p) == v
    ensures Put(Put(e, p, v), p, w) == Put(e, p, w)
    ensures Put(e, p, At(e, p)) == e
  {
    if p != [] { PutFacts(Child(e, p[0]), p[1..], v, w); }
  }

  lemma SliceOfAppend(xs: seq<Expr>, ys: seq<Expr>, i: nat, n: nat)
    ensures i + n <= |xs| ==> (xs + ys)[i..i + n] == xs[i..i + n]
    ensures i + n <= |ys| ==> (xs + ys)[|xs| + i..|xs| + i + n] == ys[i..i + n]
  {
  }

  lemma {:induction false} ChainFacts(op: Op, e: Expr, p: Path)
    requires InChain(op, e, p)
    ensures Has(e, p)
    ensures Count(op, e, p) == |Operands(op, At(e, p))| >= 1
    ensures Index(op, e, p) + Count(op, e, p) <= |Operands(op, e)|
    ensures Operands(op, e)[Index(op, e, p)..Index(op, e, p) + Count(op, e, p)] == Operands(op, At(e, p))
  {
    if p == [] {
      assert Operands(op, e)[0..|Operands(op, e)|] == Operands(op, e);
    } else {
      var c := Child(e, p[0]);
      ChainFacts(op, c, p[1..]);
      SliceOfAppend(Operands(op, e.left), Operands(op, e.right), Index(op, c, p[1..]), Count(op, c, p[1..]));
    }
  }

  /** Going one step down inside the chain. */
  lemma {:induction false} ChainStep(op: Op, e: Expr, p: Path)
    requires InChain(op, e, p) && Has(e, p) && IsOp(op, At(e, p))
    ensures InChain(op, e, p + [false]) && InChain(op, e, p + [true])
    ensures Index(op, e, p + [false]) == Index(op, e, p)
    ensures Index(op, e, p + [true]) == Index(op, e, p) + Count(op, e, p + [false])
    ensures Count(op, e, p) == Count(op, e, p + [false]) + Count(op, e, p + [true])
  {
    if p == [] {
      assert ([] + [false])[1..] == [] && ([] + [true])[1..] == [];
    } else {
      assert (p + [false])[1..] == p[1..] + [false] && (p + [true])[1..] == p[1..] + [true];
      ChainStep(op, Child(e, p[0]), p[1..]);
    }
  }

  /** New operands leave the shape of the chain alone. */
  lemma {:induction false} ShapeKept(op: Op, e: Expr, xs: seq<Expr>, p: Path)
    requires |xs| == |Operands(op, e)| && NoOp(op, xs) && InChain(op, e, p)
    ensures var f := WithOperands(op, e, xs);
            && InChain(op, f, p) && Index(op, f, p) == Index(op, e, p) && Count(op, f, p) == Count(op, e, p)
  {
    WithOperandsFacts(op, e, xs);
    if p != [] {
      var k := |Operands(op, e.left)|;
      WithOperandsFacts(op, e.left, xs[..k]);
      ShapeKept(op, Child(e, p[0]), if p[0] then xs[k..] else xs[..k], p[1..]);
    }
  }

  lemma {:induction false} WithOperandsTwice(op: Op, e: Expr, xs: seq<Expr>, ys: seq<Expr>)
    requires |xs| == |Operands(op, e)| == |ys| && NoOp(op, xs)
    ensures |Operands(op, WithOperands(op, e, xs))| == |ys|
    ensures WithOperands(op, WithOperands(op, e, xs), ys) == WithOperands(op, e, ys)
  {
    WithOperandsFacts(op, e, xs);
    if IsOp(op, e) {
      var k := |Operands(op, e.left)|;
      WithOperandsTwice(op, e.left, xs[..k], ys[..k]);
      WithOperandsTwice(op, e.right, xs[k..], ys[k..]);
    }
  }

  /** Overwriting one operand through its slot. */
  lemma {:induction false} PutOperand(op: Op, e: Expr, p: Path, v: Expr)
    requires InChain(op, e, p) && Has(e, p) && !IsOp(op, At(e, p)) && !IsOp(op, v)
    ensures Index(op, e, p) < |Operands(op, e)|
    ensures Operands(op, e)[Index(op, e, p)] == At(e, p)
    ensures Put(e, p, v) == WithOperands(op, e, Operands(op, e)[Index(op, e, p) := v])
  {
    ChainFacts(op, e, p);
    if p == [] {
    } else {
      var xs, ys := Operands(op, e.left), Operands(op, e.right);
      PutOperand(op, Child(e, p[0]), p[1..], v);
      WithOwnOperands(op, e.left);
      WithOwnOperands(op, e.right);
      var i := Index(op, Child(e, p[0]), p[1..]);
      var zs := Operands(op, e)[Index(op, e, p) := v];
      if p[0] {
        assert zs[..|xs|] == xs && zs[|xs|..] == ys[i := v];
      } else {
        assert zs[..|xs|] == xs[i := v] && zs[|xs|..] == ys;
      }
    }
  }

  /** Different operands have different slots, and the other way round. */
  lemma {:induction false} SameOperandSlot(op: Op, e: Expr, p: Path, q: Path)
    requires InChain(op, e, p) && InChain(op, e, q) && Has(e, p) && Has(e, q)
    requires !IsOp(op, At(e, p)) && !IsOp(op, At(e, q))
    ensures p == q <==> Index(op, e, p) == Index(op, e, q)
  {
    ChainFacts(op, e, p);
    ChainFacts(op, e, q);
    if p != [] && q != [] {
      ChainFacts(op, Child(e, p[0]), p[1..]);
      ChainFacts(op, Child(e, q[0]), q[1..]);
      if p[0] == q[0] {
        SameOperandSlot(op, Child(e, p[0]), p[1..], q[1..]);
        assert p == [p[0]] + p[1..] && q == [q[0]] + q[1..];
      }
    }
  }

  // ---------------------------------------------------------------- rows in two parts

  lemma {:induction false} Dups1RowSplit(op: Op, xs: seq<Expr>, i: nat, j: nat, mid: nat, hi: nat)
    requires i < |xs| && j <= mid <= hi <= |xs| && NoOp(op, xs)
    ensures var (ys, n) := Dups1Row(op, xs, i, j, mid);
            var (zs, m) := Dups1Row(op, ys, i, mid, hi);
            Dups1Row(op, xs, i, j, hi) == (zs, n + m)
    decreases mid - j
  {
    if j < mid { Dups1RowSplit(op, Dups1Step(op, xs, i, j).0, i, j + 1, mid, hi); }
  }

  lemma {:induction false} Dups1RowsSplit(op: Op, xs: seq<Expr>, i: nat, mid: nat, hi: nat)
    requires i <= mid <= hi <= |xs| && NoOp(op, xs)
    ensures var (ys, n) := Dups1Rows(op, xs, i, mid);
            var (zs, m) := Dups1Rows(op, ys, mid, hi);
            Dups1Rows(op, xs, i, hi) == (zs, n + m)
    decreases mid - i
  {
    if i < mid { Dups1RowsSplit(op, Dups1Row(op, xs, i, 0, |xs|).0, i + 1, mid, hi); }
  }

  lemma {:induction false} Dups2RowsSplit(op: Op, xs: seq<Expr>, i: nat, mid: nat, hi: nat, e: Expr)
    requires i <= mid <= hi <= |xs| && NoOp(op, xs) && |Operands(op, e)| == |xs|
    ensures var (ys, n) := Dups2Rows(op, xs, i, mid, e);
            var (zs, m) := Dups2Rows(op, ys, mid, hi, e);
            Dups2Rows(op, xs, i, hi, e) == (zs, n + m)
    decreases mid - i
  {
    if i < mid { Dups2RowsSplit(op, Dups2Row(op, xs, i, e, 0).0, i + 1, mid, hi, e); }
  }

  /** Two slots of one chain of `op` nodes.  The second one is only narrowed once the first one
      holds an operand. */
  predicate ChainSlots(op: Op, e: Expr, p1: Path, p2: Path) {
    && InChain(op, e, p1) && InChain(op, e, p2)
    && Has(e, p1) && Has(e, p2)
    && (p2 == [] || !IsOp(op, At(e, p1)))
  }

  lemma CountOne(op: Op, e: Expr, p: Path)
    requires InChain(op, e, p)
    ensures Has(e, p)
    ensures Count(op, e, p) == 1 <==> !IsOp(op, At(e, p))
  {
    ChainFacts(op, e, p);
    OperandsFacts(op, At(e, p));
  }

  /** The two halves of a chain node and where their operands start. */
  lemma Halves(op: Op, e: Expr, p: Path)
    requires InChain(op, e, p) && Has(e, p) && IsOp(op, At(e, p))
    ensures InChain(op, e, p + [false]) && Has(e, p + [false])
    ensures InChain(op, e, p + [true]) && Has(e, p + [true])
    ensures Index(op, e, p + [false]) == Index(op, e, p)
    ensures Index(op, e, p + [true]) == Index(op, e, p) + Count(op, e, p + [false])
    ensures Count(op, e, p) == Count(op, e, p + [false]) + Count(op, e, p + [true])
    ensures Count(op, e, p + [false]) >= 1 && Count(op, e, p + [true]) >= 1
    ensures Index(op, e, p) + Count(op, e, p) <= |Operands(op, e)|
  {
    ChainStep(op, e, p);
    ChainFacts(op, e, p);
    ChainFacts(op, e, p + [false]);
    ChainFacts(op, e, p + [true]);
  }

  /** The node at p of a chain with new operands is the old node with some of them. */
  lemma {:induction false} NodeShape(op: Op, e: Expr, ys: seq<Expr>, p: Path)
    requires |ys| == |Operands(op, e)| && NoOp(op, ys) && InChain(op, e, p)
    ensures var f := WithOperands(op, e, ys);
            && Has(e, p) && Has(f, p) && |Operands(op, At(f, p))| == |Operands(op, At(e, p))|
            && At(f, p) == WithOperands(op, At(e, p), Operands(op, At(f, p)))
  {
    WithOperandsFacts(op, e, ys);
    if p != [] {
      var k := |Operands(op, e.left)|;
      NodeShape(op, Child(e, p[0]), if p[0] then ys[k..] else ys[..k], p[1..]);
    }
  }

  lemma NodeAfter(op: Op, e: Expr, ys: seq<Expr>, p: Path)
    requires |ys| == |Operands(op, e)| && NoOp(op, ys) && InChain(op, e, p)
    ensures var f := WithOperands(op, e, ys);
            && Has(e, p) && Has(f, p)
            && Index(op, e, p) + Count(op, e, p) <= |ys| && Count(op, e, p) == |Operands(op, At(e, p))|
            && At(f, p) == WithOperands(op, At(e, p), ys[Index(op, e, p)..Index(op, e, p) + Count(op, e, p)])
  {
    var f := WithOperands(op, e, ys);
    NodeShape(op, e, ys, p);
    ShapeKept(op, e, ys, p);
    WithOperandsFacts(op, e, ys);
    ChainFacts(op, e, p);
    ChainFacts(op, f, p);
  }

  lemma Dups1RowOfAll(op: Op, xs: seq<Expr>, i: nat)
    requires i < |xs| && NoOp(op, xs)
    ensures Dups1Rows(op, xs, i, i + 1) == Dups1Row(op, xs, i, 0, |xs|)
  {
    var (ys, n) := Dups1Row(op, xs, i, 0, |xs|);
    assert Dups1Rows(op, ys, i + 1, i + 1) == (ys, 0);
  }

  lemma {:induction false} Deeper(e: Expr, p: Path)
    requires Has(e, p)
    ensures p != [] ==> Size(At(e, p)) < Size(e)
  {
    if p != [] { Deeper(Child(e, p[0]), p[1..]); }
  }

  // ---------------------------------------------------------------- a chain while a pass runs

  /** The chain has kept the shape of `shape`, and its operands are xs now. */
  ghost predicate Current(op: Op, shape: Expr, xs: seq<Expr>) {
    IsOp(op, shape) && |xs| == |Operands(op, shape)| && NoOp(op, xs)
  }

  /** What the slot p of the running chain holds. */
  lemma SlotView(op: Op, shape: Expr, xs: seq<Expr>, p: Path)
    requires Current(op, shape, xs) && InChain(op, shape, p) && Has(shape, p)
    ensures var f := WithOperands(op, shape, xs);
            && Has(f, p) && Index(op, shape, p) + Count(op, shape, p) <= |xs|
            && Count(op, shape, p) == |Operands(op, At(shape, p))|
            && At(f, p) == WithOperands(op, At(shape, p), xs[Index(op, shape, p)..Index(op, shape, p) + Count(op, shape, p)])
            && (IsOp(op, At(f, p)) <==> IsOp(op, At(shape, p)))
            && (!IsOp(op, At(shape, p)) ==> Count(op, shape, p) == 1 && At(f, p) == xs[Index(op, shape, p)])
  {
    NodeAfter(op, shape, xs, p);
    CountOne(op, shape, p);
    var i, n := Index(op, shape, p), Count(op, shape, p);
    SameKind(op, At(shape, p), xs[i..i + n]);
  }

  lemma SameKind(op: Op, node: Expr, ys: seq<Expr>)
    requires |ys| == |Operands(op, node)| && NoOp(op, ys)
    ensures IsOp(op, WithOperands(op, node, ys)) <==> IsOp(op, node)
    ensures !IsOp(op, node) ==> |ys| == 1 && WithOperands(op, node, ys) == ys[0]
  {
    WithOperandsFacts(op, node, ys);
  }

  /** Writing an operand of the running chain. */
  lemma SlotWrite(op: Op, shape: Expr, xs: seq<Expr>, p: Path, v: Expr)
    requires Current(op, shape, xs) && InChain(op, shape, p) && Has(shape, p)
    requires !IsOp(op, At(shape, p)) && !IsOp(op, v)
    ensures Has(WithOperands(op, shape, xs), p) && Index(op, shape, p) < |xs|
    ensures Put(WithOperands(op, shape, xs), p, v) == WithOperands(op, shape, xs[Index(op, shape, p) := v])
  {
    var f := WithOperands(op, shape, xs);
    SlotView(op, shape, xs, p);
    ShapeKept(op, shape, xs, p);
    PutOperand(op, f, p, v);
    WithOperandsFacts(op, shape, xs);
    WithOperandsTwice(op, shape, xs, xs[Index(op, shape, p) := v]);
  }

  lemma NotLarger(op: Op, shape: Expr, xs: seq<Expr>, ys: seq<Expr>)
    requires Current(op, shape, xs) && Current(op, shape, ys) && TotalSize(ys) <= TotalSize(xs)
    ensures Size(WithOperands(op, shape, ys)) <= Size(WithOperands(op, shape, xs))
  {
    WithOperandsFacts(op, shape, xs);
    WithOperandsFacts(op, shape, ys);
  }

  // ---------------------------------------------------------------- what the slots stand for

  /** The part of the first pass that the slots p1 and p2 of one chain stand for. */
  function Part1(op: Op, shape: Expr, xs: seq<Expr>, p1: Path, p2: Path): (r: (seq<Expr>, nat))
    requires Current(op, shape, xs) && ChainSlots(op, shape, p1, p2)
    ensures Current(op, shape, r.0) && TotalSize(r.0) <= TotalSize(xs)
  {
    ChainFacts(op, shape, p1);
    ChainFacts(op, shape, p2);
    var i, j := Index(op, shape, p1), Index(op, shape, p2);
    if p2 == [] then Dups1Rows(op, xs, i, i + Count(op, shape, p1))
    else Dups1Row(op, xs, i, j, j + Count(op, shape, p2))
  }

  lemma Part1First(op: Op, shape: Expr, xs: seq<Expr>, p1: Path)
    requires Current(op, shape, xs) && ChainSlots(op, shape, p1, []) && IsOp(op, At(shape, p1))
    ensures ChainSlots(op, shape, p1 + [false], []) && ChainSlots(op, shape, p1 + [true], [])
    ensures var (ys, n) := Part1(op, shape, xs, p1 + [false], []);
            var (zs, m) := Part1(op, shape, ys, p1 + [true], []);
            Part1(op, shape, xs, p1, []) == (zs, n + m)
  {
    Halves(op, shape, p1);
    var i := Index(op, shape, p1);
    Dups1RowsSplit(op, xs, i, Index(op, shape, p1 + [true]), i + Count(op, shape, p1));
  }

  lemma Part1Second(op: Op, shape: Expr, xs: seq<Expr>, p1: Path, p2: Path)
    requires Current(op, shape, xs) && ChainSlots(op, shape, p1, p2)
    requires !IsOp(op, At(shape, p1)) && IsOp(op, At(shape, p2))
    ensures ChainSlots(op, shape, p1, p2 + [false]) && ChainSlots(op, shape, p1, p2 + [true])
    ensures var (ys, n) := Part1(op, shape, xs, p1, p2 + [false]);
            var (zs, m) := Part1(op, shape, ys, p1, p2 + [true]);
            Part1(op, shape, xs, p1, p2) == (zs, n + m)
  {
    Halves(op, shape, p2);
    CountOne(op, shape, p1);
    ChainFacts(op, shape, p1);
    var i, j := Index(op, shape, p1), Index(op, shape, p2);
    Dups1RowOfAll(op, xs, i);
    Dups1RowSplit(op, xs, i, j, Index(op, shape, p2 + [true]), j + Count(op, shape, p2));
  }

  lemma Part1Operands(op: Op, shape: Expr, xs: seq<Expr>, p1: Path, p2: Path)
    requires Current(op, shape, xs) && ChainSlots(op, shape, p1, p2)
    requires !IsOp(op, At(shape, p1)) && !IsOp(op, At(shape, p2))
    ensures Index(op, shape, p1) < |xs| && Index(op, shape, p2) < |xs|
    ensures Part1(op, shape, xs, p1, p2) == Dups1Step(op, xs, Index(op, shape, p1), Index(op, shape, p2))
  {
    CountOne(op, shape, p1);
    CountOne(op, shape, p2);
    ChainFacts(op, shape, p1);
    ChainFacts(op, shape, p2);
    var i, j := Index(op, shape, p1), Index(op, shape, p2);
    var (ys, n) := Dups1Step(op, xs, i, j);
    assert Dups1Row(op, ys, i, j + 1, j + 1) == (ys, 0);
  }

  /** The part of the second pass that the slots p1 and p2 of one chain stand for. */
  function Part2(op: Op, shape: Expr, xs: seq<Expr>, p1: Path, p2: Path): (r: (seq<Expr>, nat))
    requires Current(op, shape, xs) && ChainSlots(op, shape, p1, p2)
    ensures Current(op, shape, r.0) && TotalSize(r.0) <= TotalSize(xs)
  {
    ChainFacts(op, shape, p1);
    ChainFacts(op, shape, p2);
    var i, j := Index(op, shape, p1), Index(op, shape, p2);
    if IsOp(op, At(shape, p1)) then Dups2Rows(op, xs, i, i + Count(op, shape, p1), shape)
    else Dups2Row(op, xs, i, At(shape, p2), j)
  }

  /** The last part of `expr_eliminate_dups2`, after the recursion into the second slot. */
  function Part2Step(op: Op, shape: Expr, xs: seq<Expr>, p1: Path, p2: Path): (r: (seq<Expr>, nat))
    requires Current(op, shape, xs) && ChainSlots(op, shape, p1, p2)
    ensures Current(op, shape, r.0) && TotalSize(r.0) <= TotalSize(xs)
  {
    ChainFacts(op, shape, p1);
    ChainFacts(op, shape, p2);
    Dups2Step(op, xs, Index(op, shape, p1), At(shape, p2), Index(op, shape, p2))
  }

  lemma Part2StepCases(op: Op, shape: Expr, xs: seq<Expr>, p1: Path, p2: Path)
    requires Current(op, shape, xs) && ChainSlots(op, shape, p1, p2) && !IsOp(op, At(shape, p1))
    ensures Index(op, shape, p1) < |xs| && Index(op, shape, p2) + |Operands(op, At(shape, p2))| <= |xs|
    ensures var i, j := Index(op, shape, p1), Index(op, shape, p2);
            if p1 == p2 || !xs[i].Bin? then Part2Step(op, shape, xs, p1, p2) == (xs, 0)
            else
              var (x, n) := Dups2(xs[i]);
              var ys := xs[i := x];
              Part2Step(op, shape, xs, p1, p2) ==
              if Contradicts(op, x, WithOperands(op, At(shape, p2), ys[j..j + |Operands(op, At(shape, p2))|]))
              then (ys[i := Absorbing(op)], n + 1) else (ys, n)
  {
    ChainFacts(op, shape, p1);
    ChainFacts(op, shape, p2);
    CountOne(op, shape, p1);
    CountOne(op, shape, p2);
    if !IsOp(op, At(shape, p2)) { SameOperandSlot(op, shape, p1, p2); }
  }

  /** The rows of the operands below p1, whether that is one operand or a node. */
  lemma Part2IsRows(op: Op, shape: Expr, xs: seq<Expr>, p1: Path)
    requires Current(op, shape, xs) && ChainSlots(op, shape, p1, [])
    ensures Index(op, shape, p1) + Count(op, shape, p1) <= |xs|
    ensures Part2(op, shape, xs, p1, []) ==
            Dups2Rows(op, xs, Index(op, shape, p1), Index(op, shape, p1) + Count(op, shape, p1), shape)
  {
    ChainFacts(op, shape, p1);
    CountOne(op, shape, p1);
    if !IsOp(op, At(shape, p1)) {
      var i := Index(op, shape, p1);
      var (ys, n) := Dups2Row(op, xs, i, shape, 0);
      assert Dups2Rows(op, ys, i + 1, i + 1, shape) == (ys, 0);
    }
  }

  lemma Part2First(op: Op, shape: Expr, xs: seq<Expr>, p1: Path)
    requires Current(op, shape, xs) && ChainSlots(op, shape, p1, []) && IsOp(op, At(shape, p1))
    ensures ChainSlots(op, shape, p1 + [false], []) && ChainSlots(op, shape, p1 + [true], [])
    ensures var (ys, n) := Part2(op, shape, xs, p1 + [false], []);
            var (zs, m) := Part2(op, shape, ys, p1 + [true], []);
            Part2(op, shape, xs, p1, []) == (zs, n + m)
  {
    Halves(op, shape, p1);
    var i, mid := Index(op, shape, p1), Index(op, shape, p1 + [true]);
    Part2IsRows(op, shape, xs, p1 + [false]);
    Part2IsRows(op, shape, Dups2Rows(op, xs, i, mid, shape).0, p1 + [true]);
    Dups2RowsSplit(op, xs, i, mid, i + Count(op, shape, p1), shape);
  }

  lemma HalfNodes(op: Op, e: Expr, p: Path)
    requires InChain(op, e, p) && Has(e, p) && IsOp(op, At(e, p))
    ensures Has(e, p + [false]) && At(e, p + [false]) == At(e, p).left
    ensures Has(e, p + [true]) && At(e, p + [true]) == At(e, p).right
  {
    PathFacts(e, p, [false], e);
    PathFacts(e, p, [true], e);
  }

  lemma NarrowedSlots(op: Op, shape: Expr, p1: Path, p2: Path)
    requires ChainSlots(op, shape, p1, p2)
    requires !IsOp(op, At(shape, p1)) && IsOp(op, At(shape, p2))
    ensures ChainSlots(op, shape, p1, p2 + [false]) && ChainSlots(op, shape, p1, p2 + [true])
    ensures Index(op, shape, p2 + [false]) == Index(op, shape, p2)
    ensures Index(op, shape, p2 + [true]) == Index(op, shape, p2) + |Operands(op, At(shape, p2).left)|
    ensures At(shape, p2 + [false]) == At(shape, p2).left && At(shape, p2 + [true]) == At(shape, p2).right
  {
    Halves(op, shape, p2);
    HalfNodes(op, shape, p2);
    ChainFacts(op, shape, p2 + [false]);
  }

  /** The row of the operand at p1 over the operands below p2. */
  lemma Part2IsRow(op: Op, shape: Expr, xs: seq<Expr>, p1: Path, p2: Path)
    requires Current(op, shape, xs) && ChainSlots(op, shape, p1, p2) && !IsOp(op, At(shape, p1))
    ensures Index(op, shape, p1) < |xs| && Index(op, shape, p2) + |Operands(op, At(shape, p2))| <= |xs|
    ensures Part2(op, shape, xs, p1, p2) ==
            Dups2Row(op, xs, Index(op, shape, p1), At(shape, p2), Index(op, shape, p2))
  {
    ChainFacts(op, shape, p1);
    ChainFacts(op, shape, p2);
    CountOne(op, shape, p1);
  }

  lemma Part2Second(op: Op, shape: Expr, xs: seq<Expr>, p1: Path, p2: Path)
    requires Current(op, shape, xs) && ChainSlots(op, shape, p1, p2)
    requires !IsOp(op, At(shape, p1)) && IsOp(op, At(shape, p2))
    ensures ChainSlots(op, shape, p1, p2 + [false]) && ChainSlots(op, shape, p1, p2 + [true])
    ensures var ys := Part2(op, shape, xs, p1, p2 + [false]);
            var zs := Part2(op, shape, ys.0, p1, p2 + [true]);
            var ws := Part2Step(op, shape, zs.0, p1, p2);
            Part2(op, shape, xs, p1, p2) == (ws.0, ys.1 + zs.1 + ws.1)
  {
    NarrowedSlots(op, shape, p1, p2);
    Part2IsRow(op, shape, xs, p1, p2);
    Part2IsRow(op, shape, xs, p1, p2 + [false]);
    var ys := Part2(op, shape, xs, p1, p2 + [false]);
    Part2IsRow(op, shape, ys.0, p1, p2 + [true]);
    RowUnfold(op, xs, Index(op, shape, p1), At(shape, p2), Index(op, shape, p2));
  }

  /** For two operands the part is the step alone. */
  lemma Part2Operand(op: Op, shape: Expr, xs: seq<Expr>, p1: Path, p2: Path)
    requires Current(op, shape, xs) && ChainSlots(op, shape, p1, p2)
    requires !IsOp(op, At(shape, p1)) && !IsOp(op, At(shape, p2))
    ensures Part2(op, shape, xs, p1, p2) == Part2Step(op, shape, xs, p1, p2)
  {
    ChainFacts(op, shape, p1);
    ChainFacts(op, shape, p2);
    CountOne(op, shape, p1);
  }

  lemma RowUnfold(op: Op, xs: seq<Expr>, i: nat, node: Expr, lo: nat)
    requires i < |xs| && NoOp(op, xs) && lo + |Operands(op, node)| <= |xs| && IsOp(op, node)
    ensures var (ys, n) := Dups2Row(op, xs, i, node.left, lo);
            var (zs, m) := Dups2Row(op, ys, i, node.right, lo + |Operands(op, node.left)|);
            var (ws, k) := Dups2Step(op, zs, i, node, lo);
            Dups2Row(op, xs, i, node, lo) == (ws, n + m + k)
  {
  }

  /** What happens at base + p when the chain f stands at base. */
  lemma SlotInTree(op: Op, tree: Expr, base: Path, shape: Expr, xs: seq<Expr>, p: Path, v: Expr)
    requires Has(tree, base) && Current(op, shape, xs) && InChain(op, shape, p) && Has(shape, p)
    requires At(tree, base) == WithOperands(op, shape, xs)
    ensures Has(tree, base + p) && Has(At(tree, base), p) && At(tree, base + p) == At(At(tree, base), p)
    ensures IsOp(op, At(tree, base + p)) <==> IsOp(op, At(shape, p))
    ensures !IsOp(op, At(shape, p)) && !IsOp(op, v) ==>
              Index(op, shape, p) < |xs| &&
              Put(tree, base + p, v) == Put(tree, base, WithOperands(op, shape, xs[Index(op, shape, p) := v]))
  {
    SlotView(op, shape, xs, p);
    PathFacts(tree, base, p, v);
    if !IsOp(op, At(shape, p)) && !IsOp(op, v) { SlotWrite(op, shape, xs, p, v); }
  }

  lemma OperandInTree(op: Op, tree: Expr, base: Path, shape: Expr, xs: seq<Expr>, p: Path)
    requires Has(tree, base) && Current(op, shape, xs) && InChain(op, shape, p) && Has(shape, p)
    requires At(tree, base) == WithOperands(op, shape, xs) && !IsOp(op, At(shape, p))
    ensures Has(tree, base + p) && Index(op, shape, p) < |xs| && At(tree, base + p) == xs[Index(op, shape, p)]
    ensures Count(op, shape, p) == 1
    ensures Put(tree, base, WithOperands(op, shape, xs)) == tree
  {
    SlotView(op, shape, xs, p);
    SlotInTree(op, tree, base, shape, xs, p, Neutral(op));
    PutFacts(tree, base, tree, tree);
  }

  /** The rewriter's state: the tree under work and the global `trans_count`. */
  class Rewriter {
    var root: Expr
    var transCount: nat

    constructor (e: Expr)
      ensures root == e && transCount == 0
    {
      root, transCount := e, 0;
    }

    /** The chain of `op` nodes at base has the shape of `shape` and the operands xs. */
    ghost predicate Holds(op: Op, base: Path, shape: Expr, xs: seq<Expr>)
      reads this
    {
      Has(root, base) && Current(op, shape, xs) && At(root, base) == WithOperands(op, shape, xs)
    }

    /** `expr_eliminate_dups1` on the slots base + p1 and base + p2 of one chain. */
    method EliminateDups1(op: Op, base: Path, p1: Path, p2: Path, ghost shape: Expr, ghost xs: seq<Expr>)
      requires Holds(op, base, shape, xs) && ChainSlots(op, shape, p1, p2)
      modifies this
      ensures var (ys, n) := Part1(op, shape, xs, p1, p2);
              root == Put(old(root), base, WithOperands(op, shape, ys)) && transCount == old(transCount) + n
      decreases Size(At(root, base)), Count(op, shape, p1), Count(op, shape, p2), 1
    {
      ghost var tree := root;
      SlotInTree(op, root, base, shape, xs, p1, Neutral(op));
      SlotInTree(op, root, base, shape, xs, p2, Neutral(op));
      if IsOp(op, At(root, base + p1)) {
        Part1First(op, shape, xs, p1);
        Halves(op, shape, p1);
        ghost var ys := Part1(op, shape, xs, p1 + [false], p2).0;
        ghost var zs := Part1(op, shape, ys, p1 + [true], p2).0;
        PutFacts(tree, base, WithOperands(op, shape, ys), WithOperands(op, shape, zs));
        NotLarger(op, shape, xs, ys);
        EliminateDups1(op, base, p1 + [false], p2, shape, xs);
        EliminateDups1(op, base, p1 + [true], p2, shape, ys);
      } else if IsOp(op, At(root, base + p2)) {
        Part1Second(op, shape, xs, p1, p2);
        Halves(op, shape, p2);
        ghost var ys := Part1(op, shape, xs, p1, p2 + [false]).0;
        ghost var zs := Part1(op, shape, ys, p1, p2 + [true]).0;
        PutFacts(tree, base, WithOperands(op, shape, ys), WithOperands(op, shape, zs));
        NotLarger(op, shape, xs, ys);
        EliminateDups1(op, base, p1, p2 + [false], shape, xs);
        EliminateDups1(op, base, p1, p2 + [true], shape, ys);
      } else {
        Part1Operands(op, shape, xs, p1, p2);
        JoinOperands(op, base, p1, p2, shape, xs);
      }
    }

    /** `*ep = v` for the slot of one operand. */
    method Write(op: Op, base: Path, p: Path, v: Expr, ghost shape: Expr, ghost xs: seq<Expr>)
      requires Holds(op, base, shape, xs) && InChain(op, shape, p) && Has(shape, p)
      requires !IsOp(op, At(shape, p)) && !IsOp(op, v)
      modifies this`root
      ensures Index(op, shape, p) < |xs| && Holds(op, base, shape, xs[Index(op, shape, p) := v])
      ensures root == Put(old(root), base, WithOperands(op, shape, xs[Index(op, shape, p) := v]))
    {
      SlotInTree(op, root, base, shape, xs, p, v);
      PutFacts(root, base, WithOperands(op, shape, xs[Index(op, shape, p) := v]), v);
      root := Put(root, base + p, v);
    }

    /** The end of `expr_eliminate_dups1`: both slots hold operands. */
    method JoinOperands(op: Op, base: Path, p1: Path, p2: Path, ghost shape: Expr, ghost xs: seq<Expr>)
      requires Holds(op, base, shape, xs) && ChainSlots(op, shape, p1, p2)
      requires !IsOp(op, At(shape, p1)) && !IsOp(op, At(shape, p2))
      requires Index(op, shape, p1) < |xs| && Index(op, shape, p2) < |xs|
      modifies this
      ensures var (ys, n) := Dups1Step(op, xs, Index(op, shape, p1), Index(op, shape, p2));
              root == Put(old(root), base, WithOperands(op, shape, ys)) && transCount == old(transCount) + n
      decreases Size(At(root, base)), Count(op, shape, p1), Count(op, shape, p2), 0
    {
      ghost var i, j := Index(op, shape, p1), Index(op, shape, p2);
      SameOperandSlot(op, shape, p1, p2);
      PutFacts(root, base, root, root);
      if p1 == p2 { return; }
      ChainFacts(op, shape, p1);
      SimplifyOperand(op, base, p1, shape, xs);
      ghost var x := Dups1(xs[i]).0;
      ghost var zs := xs[i := x];
      SlotView(op, shape, zs, p1);
      SlotView(op, shape, zs, p2);
      SlotInTree(op, root, base, shape, zs, p1, x);
      SlotInTree(op, root, base, shape, zs, p2, x);
      var joined := Join(op, At(root, base + p1), At(root, base + p2));
      if joined.Some? {
        JoinSmall(op, x, xs[j]);
        JoinedWrites(op, base, p1, p2, joined.value, shape, zs);
        assert zs[i := Neutral(op)] == xs[i := Neutral(op)];
        PutFacts(old(root), base, WithOperands(op, shape, zs),
                 WithOperands(op, shape, zs[i := Neutral(op)][j := joined.value]));
      }
    }

    /** e1 = the neutral literal; e2 = tmp; trans_count++. */
    method JoinedWrites(op: Op, base: Path, p1: Path, p2: Path, t: Expr, ghost shape: Expr, ghost zs: seq<Expr>)
      requires Holds(op, base, shape, zs) && ChainSlots(op, shape, p1, p2)
      requires !IsOp(op, At(shape, p1)) && !IsOp(op, At(shape, p2)) && !IsOp(op, t)
      modifies this
      ensures Index(op, shape, p1) < |zs| && Index(op, shape, p2) < |zs|
      ensures root == Put(old(root), base,
                          WithOperands(op, shape, zs[Index(op, shape, p1) := Neutral(op)][Index(op, shape, p2) := t]))
      ensures transCount == old(transCount) + 1
    {
      Write(op, base, p1, Neutral(op), shape, zs);
      ghost var ys := zs[Index(op, shape, p1) := Neutral(op)];
      Write(op, base, p2, t, shape, ys);
      PutFacts(old(root), base, WithOperands(op, shape, ys), WithOperands(op, shape, ys[Index(op, shape, p2) := t]));
      transCount := transCount + 1;
    }

    /** The aliased call on one operand: `expr_eliminate_dups1(e1->type, &e1, &e1)`. */
    method SimplifyOperand(op: Op, base: Path, p: Path, ghost shape: Expr, ghost xs: seq<Expr>)
      requires Holds(op, base, shape, xs) && InChain(op, shape, p) && Has(shape, p)
      requires !IsOp(op, At(shape, p)) && Index(op, shape, p) < |xs|
      modifies this
      ensures var (x, n) := Dups1(xs[Index(op, shape, p)]);
              root == Put(old(root), base, WithOperands(op, shape, xs[Index(op, shape, p) := x])) &&
              transCount == old(transCount) + n
      ensures Holds(op, base, shape, xs[Index(op, shape, p) := Dups1(xs[Index(op, shape, p)]).0])
      decreases Size(At(root, base)), 0
    {
      ghost var tree := root;
      ghost var i := Index(op, shape, p);
      ghost var x, y := xs[i], Dups1(xs[i]).0;
      SlotView(op, shape, xs, p);
      SlotInTree(op, root, base, shape, xs, p, y);
      Deeper(At(root, base), p);
      PutFacts(tree, base, WithOperands(op, shape, xs[i := y]), tree);
      if At(root, base + p).Bin? {
        WithOwnOperands(x.op, x);
        OperandsFacts(x.op, x);
        EliminateDups1(At(root, base + p).op, base + p, [], [], x, Operands(x.op, x));
      } else {
        assert xs[i := y] == xs;
      }
    }

    /** `expr_eliminate_dups2` on the slots base + p1 and base + p2 of one chain.  After the
        recursion into the second slot the comparison with that slot itself follows. */
    method EliminateDups2(op: Op, base: Path, p1: Path, p2: Path, ghost shape: Expr, ghost xs: seq<Expr>)
      requires Holds(op, base, shape, xs) && ChainSlots(op, shape, p1, p2)
      modifies this
      ensures var (ys, n) := Part2(op, shape, xs, p1, p2);
              root == Put(old(root), base, WithOperands(op, shape, ys)) && transCount == old(transCount) + n
      decreases Size(At(root, base)), Count(op, shape, p1), Count(op, shape, p2), 1
    {
      ghost var tree := root;
      SlotInTree(op, root, base, shape, xs, p1, Neutral(op));
      SlotInTree(op, root, base, shape, xs, p2, Neutral(op));
      if IsOp(op, At(root, base + p1)) {
        Part2First(op, shape, xs, p1);
        Halves(op, shape, p1);
        ghost var ys := Part2(op, shape, xs, p1 + [false], p2).0;
        ghost var zs := Part2(op, shape, ys, p1 + [true], p2).0;
        PutFacts(tree, base, WithOperands(op, shape, ys), WithOperands(op, shape, zs));
        NotLarger(op, shape, xs, ys);
        EliminateDups2(op, base, p1 + [false], p2, shape, xs);
        EliminateDups2(op, base, p1 + [true], p2, shape, ys);
        return;
      }
      ghost var zs := xs;
      if IsOp(op, At(root, base + p2)) {
        Part2Second(op, shape, xs, p1, p2);
        Halves(op, shape, p2);
        ghost var ys := Part2(op, shape, xs, p1, p2 + [false]).0;
        zs := Part2(op, shape, ys, p1, p2 + [true]).0;
        PutFacts(tree, base, WithOperands(op, shape, ys), WithOperands(op, shape, zs));
        PutFacts(tree, base, WithOperands(op, shape, zs), WithOperands(op, shape, Part2Step(op, shape, zs, p1, p2).0));
        NotLarger(op, shape, xs, ys);
        NotLarger(op, shape, xs, zs);
        EliminateDups2(op, base, p1, p2 + [false], shape, xs);
        EliminateDups2(op, base, p1, p2 + [true], shape, ys);
      } else {
        Part2Operand(op, shape, xs, p1, p2);
      }
      OpposeOperand(op, base, p1, p2, shape, zs);
    }

    /** The end of `expr_eliminate_dups2`: the first slot holds an operand. */
    method OpposeOperand(op: Op, base: Path, p1: Path, p2: Path, ghost shape: Expr, ghost xs: seq<Expr>)
      requires Holds(op, base, shape, xs) && ChainSlots(op, shape, p1, p2) && !IsOp(op, At(shape, p1))
      modifies this
      ensures var (ys, n) := Part2Step(op, shape, xs, p1, p2);
              root == Put(old(root), base, WithOperands(op, shape, ys)) && transCount == old(transCount) + n
      decreases Size(At(root, base)), Count(op, shape, p1), Count(op, shape, p2), 0
    {
      OperandInTree(op, root, base, shape, xs, p1);
      Part2StepCases(op, shape, xs, p1, p2);
      if p1 == p2 || !At(root, base + p1).Bin? { return; }
      OpposeInOperand(op, base, p1, shape, xs);
      ghost var i := Index(op, shape, p1);
      ghost var ys := xs[i := Dups2(xs[i]).0];
      ReplaceContradicted(op, base, p1, p2, shape, ys);
      PutFacts(old(root), base, WithOperands(op, shape, ys), WithOperands(op, shape, ys[i := Absorbing(op)]));
    }

    /** The test of tmp1 = !e1 against a copy of e2, and e1 = the absorbing literal if it succeeds. */
    method ReplaceContradicted(op: Op, base: Path, p1: Path, p2: Path, ghost shape: Expr, ghost ys: seq<Expr>)
      requires Holds(op, base, shape, ys) && ChainSlots(op, shape, p1, p2) && !IsOp(op, At(shape, p1))
      modifies this
      ensures Index(op, shape, p1) < |ys| && Index(op, shape, p2) + |Operands(op, At(shape, p2))| <= |ys|
      ensures var i, j := Index(op, shape, p1), Index(op, shape, p2);
              if Contradicts(op, ys[i], WithOperands(op, At(shape, p2), ys[j..j + |Operands(op, At(shape, p2))|]))
              then root == Put(old(root), base, WithOperands(op, shape, ys[i := Absorbing(op)])) &&
                   transCount == old(transCount) + 1
              else root == old(root) && transCount == old(transCount)
    {
      SlotView(op, shape, ys, p1);
      SlotView(op, shape, ys, p2);
      SlotInTree(op, root, base, shape, ys, p1, Neutral(op));
      SlotInTree(op, root, base, shape, ys, p2, Neutral(op));
      var negated := Transform(Not(At(root, base + p1)));
      var (common, rest, other) := ExtractCommon(op, negated, At(root, base + p2));
      if rest == Neutral(op) {
        Write(op, base, p1, Absorbing(op), shape, ys);
        transCount := transCount + 1;
      }
    }

    /** The aliased call on one operand: `expr_eliminate_dups2(e1->type, &e1, &e1)`. */
    method OpposeInOperand(op: Op, base: Path, p: Path, ghost shape: Expr, ghost xs: seq<Expr>)
      requires Holds(op, base, shape, xs) && InChain(op, shape, p) && Has(shape, p)
      requires !IsOp(op, At(shape, p)) && Index(op, shape, p) < |xs| && xs[Index(op, shape, p)].Bin?
      modifies this
      ensures var (x, n) := Dups2(xs[Index(op, shape, p)]);
              root == Put(old(root), base, WithOperands(op, shape, xs[Index(op, shape, p) := x])) &&
              transCount == old(transCount) + n
      ensures Holds(op, base, shape, xs[Index(op, shape, p) := Dups2(xs[Index(op, shape, p)]).0])
      decreases Size(At(root, base)), 0
    {
      ghost var i := Index(op, shape, p);
      ghost var x, y := xs[i], Dups2(xs[i]).0;
      SlotView(op, shape, xs, p);
      SlotInTree(op, root, base, shape, xs, p, y);
      Deeper(At(root, base), p);
      PutFacts(root, base, WithOperands(op, shape, xs[i := y]), root);
      WithOwnOperands(x.op, x);
      OperandsFacts(x.op, x);
      EliminateDups2(At(root, base + p).op, base + p, [], [], x, Operands(x.op, x));
    }

    /** `expr_eliminate_dups` on the root: rounds until the counter stays at zero. */
    method EliminateAll()
      modifies this
      ensures root == EliminateDups(old(root)) && transCount == old(transCount)
    {
      var oldCount := transCount;
      while true
        invariant EliminateDups(root) == EliminateDups(old(root))
        decreases Size(root)
      {
        ghost var e := root;
        transCount := 0;
        if root.Bin? {
          var op := root.op;
          EliminateDups1Root(op);
          EliminateDups2Root(op);
        }
        Dups1Progress(e);
        Dups2Progress(Dups1(e).0);
        if transCount == 0 { break; }
        EliminateYNNormal(root);
        root := EliminateYN(root);
      }
      transCount := oldCount;
    }

    /** `expr_eliminate_dups1(e->type, &e, &e)`. */
    method EliminateDups1Root(op: Op)
      requires IsOp(op, root)
      modifies this
      ensures root == Dups1(old(root)).0 && transCount == old(transCount) + Dups1(old(root)).1
    {
      WithOwnOperands(op, root);
      OperandsFacts(op, root);
      EliminateDups1(op, [], [], [], root, Operands(op, root));
    }

    /** `expr_eliminate_dups2(e->type, &e, &e)`. */
    method EliminateDups2Root(op: Op)
      requires IsOp(op, root)
      modifies this
      ensures root == Dups2(old(root)).0 && transCount == old(transCount) + Dups2(old(root)).1
    {
      WithOwnOperands(op, root);
      OperandsFacts(op, root);
      EliminateDups2(op, [], [], [], root, Operands(op, root));
    }
  }
}
