/** What the test for implied submenus decides, without the test itself: by conjuncts that are about the
    symbol of the entry in front, and otherwise by the conjuncts of its prompt's condition. */
module AdoptionTest {
  import opened Expressions
  import opened Elimination
  import opened Joining
  import opened Comparing
  import opened Matching
  import opened Contradictions
  import opened MenuDependencies
  import opened MenuForest
  import opened MenuTree

  // ---------------------------------------------------------------- direct dependencies

  /** s, s = y, s = m or s != n */
  predicate IsAbout(x: Expr, s: Symbol) {
    x == Sym(s) || x == Eq(s, SYMBOL_YES) || x == Eq(s, SYMBOL_MOD) || x == Ne(s, SYMBOL_NO)
  }

  predicate HasConjunct(dep: Expr, s: Symbol) { exists x :: x in Operands(And, dep) && IsAbout(x, s) }

  /** An expression depends on s directly exactly if one of its conjuncts is about s. */
  lemma {:induction false} DependsExactly(dep: Expr, s: Symbol)
    ensures DependsSymbol(dep, s) <==> HasConjunct(dep, s)
  {
    if IsOp(And, dep) {
      DependsExactly(dep.left, s);
      DependsExactly(dep.right, s);
      assert forall x :: x in Operands(And, dep) <==> x in Operands(And, dep.left) || x in Operands(And, dep.right);
    } else {
      assert dep in Operands(And, dep);
    }
  }

  // ---------------------------------------------------------------- what is left of the second expression

  lemma {:induction false} CancellingKept(op: Op, e1: Expr, e2: Expr)
    requires Cancelling(op, e2)
    ensures Cancelling(op, EliminateEqIn(op, e1, e2).1)
    decreases Size(e1) + Size(e2)
  {
    if IsOp(op, e1) {
      CancellingKept(op, e1.left, e2);
      CancellingKept(op, e1.right, EliminateEqIn(op, e1.left, e2).1);
    } else if IsOp(op, e2) {
      CancellingKept(op, e1, e2.left);
      CancellingKept(op, EliminateEqIn(op, e1, e2.left).0, e2.right);
    }
  }

  /** How many operands are left. */
  function Remaining(op: Op, e: Expr): nat {
    if IsOp(op, e) then Remaining(op, e.left) + Remaining(op, e.right) else if e == Neutral(op) then 0 else 1
  }

  lemma {:induction false} RemainingForms(op: Op, e: Expr)
    ensures Remaining(op, e) == 0 <==> Left(op, e) == multiset{}
  {
    if IsOp(op, e) {
      RemainingForms(op, e.left);
      RemainingForms(op, e.right);
    } else if e != Neutral(op) {
      assert FormOf(e) in Left(op, e);
    }
  }

  /** A single operand cancels one operand at most. */
  lemma {:induction false} OneCancelled(op: Op, e1: Expr, e2: Expr)
    requires !IsOp(op, e1)
    ensures var (a, b) := EliminateEqIn(op, e1, e2);
            && (a == e1 || a == Neutral(op))
            && Remaining(op, b) + (if e1 == Neutral(op) || a == e1 then 0 else 1) >= Remaining(op, e2)
    decreases e2
  {
    if IsOp(op, e2) {
      var (f, l) := EliminateEqIn(op, e1, e2.left);
      OneCancelled(op, e1, e2.left);
      OneCancelled(op, f, e2.right);
    } else if e1 == Neutral(op) {
      assert ExprEq(e1, e2) <==> e1 == e2;
    }
  }

  lemma {:induction false} PlainRemaining(op: Op, e: Expr)
    requires Plain(e)
    ensures Remaining(op, e) >= if IsOp(op, e) then 2 else 1
  {
    if IsOp(op, e) { PlainRemaining(op, e.left); PlainRemaining(op, e.right); }
  }

  /** A single operand does not cancel a chain. */
  lemma ChainRemains(op: Op, e1: Expr, e2: Expr)
    requires !IsOp(op, e1) && IsOp(op, e2) && Plain(e2)
    ensures EliminateYN(EliminateEqIn(op, e1, e2).1) != Neutral(op)
  {
    var b := EliminateEqIn(op, e1, e2).1;
    NothingCancelled(op, e2);
    PlainRemaining(op, e2);
    OneCancelled(op, e1, e2);
    CancellingKept(op, e1, e2);
    RemainingForms(op, b);
    EliminateYNLeft(op, b);
  }

  lemma NotAbsorbed(op: Op, e1: Expr, e2: Expr)
    requires Cancelling(op, e2)
    ensures EliminateYN(EliminateEqIn(op, e1, e2).1) != Absorbing(op)
  {
    CancellingKept(op, e1, e2);
    EliminateYNLeft(op, EliminateEqIn(op, e1, e2).1);
  }

  lemma {:induction false} YesKept(op: Op, e1: Expr)
    requires Plain(e1)
    ensures EliminateEqIn(op, e1, YES_EXPR).1 == YES_EXPR
  {
    if IsOp(op, e1) { YesKept(op, e1.left); YesKept(op, e1.right); }
  }

  /** Nothing but y is left of the second expression exactly if it is y, or the first one is a conjunction that
      has all its conjuncts. */
  lemma ImpliedExactly(e1: Expr, e2: Expr)
    requires Plain(e1) && (e2 == YES_EXPR || Plain(e2))
    ensures EliminateEq(e1, e2).1 == YES_EXPR <==> e2 == YES_EXPR || (IsOp(And, e1) && FormsOf(And, e2) <= FormsOf(And, e1))
  {
    if e2 == YES_EXPR {
      if e1.Bin? { YesKept(e1.op, e1); }
    } else if IsOp(And, e1) {
      ConjunctionImplies(e1, e2);
    } else if IsOp(Or, e1) {
      DisjunctionLeaves(e1, e2);
    } else if e2.Bin? {
      if e2.op == And {
        ChainRemains(And, e1, e2);
      } else {
        NothingCancelled(Or, e2);
        NotAbsorbed(Or, e1, e2);
      }
    }
  }

  /** The second slot after both switches. */
  lemma SecondSlot(e1: Expr, e2: Expr)
    requires e1.Bin?
    ensures var (a, b) := EliminateEqIn(e1.op, e1, e2);
            EliminateEq(e1, e2).1 == EliminateYN(if b.Bin? && !IsOp(b.op, a) then EliminateEqIn(b.op, a, b).1 else b)
  {
  }

  lemma ConjunctionImplies(e1: Expr, e2: Expr)
    requires Plain(e1) && Plain(e2) && IsOp(And, e1)
    ensures EliminateEq(e1, e2).1 == YES_EXPR <==> FormsOf(And, e2) <= FormsOf(And, e1)
  {
    var (a, b) := EliminateEqIn(And, e1, e2);
    SecondSlot(e1, e2);
    ConjunctsLeft(e1, e2);
    if IsOp(Or, b) {
      assert FormOf(b) in Left(And, b);
      NothingCancelled(Or, b);
      NotAbsorbed(Or, a, b);
    }
  }

  lemma ConjunctsLeft(e1: Expr, e2: Expr)
    requires Plain(e1) && Plain(e2) && IsOp(And, e1)
    ensures var (a, b) := EliminateEqIn(And, e1, e2);
            && IsOp(And, a) && Cancelling(And, b)
            && (EliminateYN(b) == YES_EXPR <==> FormsOf(And, e2) <= FormsOf(And, e1))
            && (Left(And, b) == multiset{} <==> FormsOf(And, e2) <= FormsOf(And, e1))
  {
    var (a, b) := EliminateEqIn(And, e1, e2);
    var (l1, l2) := (FormsOf(And, e1), FormsOf(And, e2));
    NothingCancelled(And, e1);
    NothingCancelled(And, e2);
    EliminateEqInCancels(And, e1, e2);
    EliminateYNLeft(And, b);
    assert l2 - l1 == multiset{} <==> l2 <= l1;
  }

  lemma DisjunctionLeaves(e1: Expr, e2: Expr)
    requires Plain(e1) && Plain(e2) && IsOp(Or, e1)
    ensures EliminateEq(e1, e2).1 != YES_EXPR
  {
    var (a, b) := EliminateEqIn(Or, e1, e2);
    SecondSlot(e1, e2);
    NothingCancelled(Or, e2);
    NotAbsorbed(Or, e1, e2);
    if IsOp(Or, e2) { EliminateEqInOp(Or, e1, e2); } else { OperandKept(Or, e1, e2); }
    if IsOp(And, b) { ChainRemains(And, a, b); }
  }

  lemma {:induction false} OperandKept(op: Op, e1: Expr, e2: Expr)
    requires !IsOp(op, e2)
    ensures EliminateEqIn(op, e1, e2).1 == e2 || EliminateEqIn(op, e1, e2).1 == Neutral(op)
    decreases e1
  {
    if IsOp(op, e1) {
      OperandKept(op, e1.left, e2);
      var f := EliminateEqIn(op, e1.left, e2).1;
      if f == e2 { OperandKept(op, e1.right, e2); } else { OperandKept(op, e1.right, Neutral(op)); }
    }
  }

  // ---------------------------------------------------------------- the test

  /** The condition that decides about an entry: that of its prompt if it has one, and otherwise its own. */
  function DecidingCondition(info: Info, c: Conditions, k: Id): Option<Expr> {
    if k in info.prompt then
      if k in c.visible && info.prompt[k] < |c.visible[k]| then c.visible[k][info.prompt[k]] else None
    else Lookup(c.dep, k)
  }

  /** The visibility of the prompt of an entry; without a prompt there is no condition. */
  function PromptVisible(info: Info, c: Conditions, k: Id): Option<Expr> {
    if k in info.prompt then DecidingCondition(info, c, k) else None
  }

  /** The sibling k is taken by m exactly if the condition that decides about k mentions the symbol of m and has
      a conjunct about it, or, each compared with n and rewritten, has all conjuncts of the condition of m's prompt. */
  lemma TakesExactly(info: Info, c: Conditions, m: Id, k: Id)
    requires m in info.sym && DecidingCondition(info, c, k).Some?
    requires var (dep, visible) := (DecidingCondition(info, c, k), PromptVisible(info, c, m));
             Plain(NotNo(dep)) && (NotNo(visible) == YES_EXPR || Plain(NotNo(visible)))
    ensures var (dep, visible) := (DecidingCondition(info, c, k), PromptVisible(info, c, m));
            Takes(info, c, m, k) <==>
              ContainsSymbol(dep.value, info.sym[m]) &&
              (HasConjunct(dep.value, info.sym[m]) || NotNo(visible) == YES_EXPR ||
               (IsOp(And, NotNo(dep)) && FormsOf(And, NotNo(visible)) <= FormsOf(And, NotNo(dep))))
  {
    var (dep, visible) := (DecidingCondition(info, c, k), PromptVisible(info, c, m));
    DependsExactly(dep.value, info.sym[m]);
    ImpliedExactly(NotNo(dep), NotNo(visible));
  }

  /** An entry without any condition, or with one that does not mention the symbol, is not taken. */
  lemma UnrelatedStays(info: Info, c: Conditions, m: Id, k: Id)
    requires var dep := DecidingCondition(info, c, k); dep.None? || (m in info.sym && !ContainsSymbol(dep.value, info.sym[m]))
    ensures !Takes(info, c, m, k)
  {
  }

  /** A conjunct about the symbol of m, wherever it stands, is enough. */
  lemma ConjunctIsTaken(info: Info, c: Conditions, m: Id, k: Id)
    requires m in info.sym && DecidingCondition(info, c, k).Some? && HasConjunct(DecidingCondition(info, c, k).value, info.sym[m])
    ensures Takes(info, c, m, k)
  {
    DependsExactly(DecidingCondition(info, c, k).value, info.sym[m]);
    DependsContains(DecidingCondition(info, c, k).value, info.sym[m]);
  }

  ghost predicate AllDirect(info: Info, c: Conditions, s: Symbol, ids: set<Id>) {
    forall k :: k in ids ==> DecidingCondition(info, c, k).Some? && HasConjunct(DecidingCondition(info, c, k).value, s)
  }

  lemma {:induction false} TailsCompare(a: Forest, b: Forest, f: Forest)
    requires TailOf(a, f) && TailOf(b, f)
    ensures TailOf(a, b) || TailOf(b, a)
  {
    if a != f && b != f { TailsCompare(a, b, f.rest); }
  }

  /** In the tree: of the siblings behind m, those in front of t with a conjunct about its symbol all end up below
      m, whatever they take themselves. */
  lemma {:induction false} DirectTaken(info: Info, c: Conditions, m: Id, f: Forest, t: Forest)
    requires m in info.sym && TailOf(t, f) && AllDirect(info, c, info.sym[m], Tops(f) - Tops(t)) && Distinct(f)
    ensures TailOf(FinalizedTaken(info, c, m, f).1, t)
    decreases Count(f)
  {
    FinalizedTakenTail(info, c, m, f);
    if f != t {
      IdsPreorder(f.rest);
      TailFacts(t, f.rest);
      assert f.id in Tops(f) && f.id !in Tops(t);
      ConjunctIsTaken(info, c, m, f.id);
      var left := Finalized(info, c, f.id, f.kids, f.rest).1;
      FinalizedTail(info, c, f.id, f.kids, f.rest);
      TailsCompare(left, t, f.rest);
      TailFacts(left, f.rest);
      FinalizedTakenTail(info, c, m, left);
      if TailOf(t, left) { DirectTaken(info, c, m, left, t); } else { TailFacts(left, t); }
    }
  }

  // ---------------------------------------------------------------- what an entry is handed

  /** The dependency of an entry is the one it was written with and the condition that decides about its menu; the
      conditions of its properties are theirs and that dependency.  For a tristate, and without a symbol, `m`
      is kept; otherwise only "not n" matters. */
  lemma EntryHandedValue(info: Info, c: Conditions, d: Conditions, env: Env, p: Id, k: Id, i: nat)
    requires Sane(env) && HandedEntry(info, c, d, p, k) && Normal(DecidingCondition(info, d, p))
    requires k in c.visible && i < |c.visible[k]|
    ensures var (above, own, dep) := (ValOpt(env, DecidingCondition(info, d, p)), ValOpt(env, Lookup(c.dep, k)), ValOpt(env, Lookup(d.dep, k)));
            Refines(Apply(And, above, own), dep) && (dep != NO ==> above != NO && own != NO)
    ensures k in d.visible && |d.visible[k]| == |c.visible[k]| &&
            var (dep, own, v) := (ValOpt(env, Lookup(d.dep, k)), ValOpt(env, c.visible[k][i]), ValOpt(env, d.visible[k][i]));
            && (v != NO ==> dep != NO && own != NO) && (Apply(And, dep, own) == YES ==> v != NO)
            && (k !in info.sym || IsTristate(info.sym[k]) ==> Refines(Apply(And, dep, own), v))
  {
    var above, own := DecidingCondition(info, d, p), Lookup(c.dep, k);
    HandDownValue(env, above, own);
    HandDownNormal(above, own);
    assert d.visible[k] == PartlyHanded(Lookup(d.dep, k), c.visible[k], Lookup(info.sym, k), |c.visible[k]|);
    HandDownValue(env, Lookup(d.dep, k), c.visible[k][i]);
    HandDownPromptValue(env, Lookup(d.dep, k), c.visible[k][i], Lookup(info.sym, k));
  }
}
