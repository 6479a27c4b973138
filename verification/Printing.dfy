/** Printing an expression and parsing the result: the printer's parentheses against the
    precedences of the expression grammar. */
module Printing {
  import opened Expressions
  import opened Elimination

  // ---------------------------------------------------------------- tokens and names

  datatype Token = Word(name: string) | Quoted(name: string) | Open | Close | NotSign | Sign(op: Op) | Equals(equal: bool)

  /** The types of the symbols in the symbol table, by name. */
  type Names = map<string, SymbolType>

  /** `sym_lookup` without and with SYMBOL_CONST. */
  function Lookup(names: Names, name: string): Symbol {
    if name == "y" || name == "m" || name == "n" then Const(name)
    else Config(name, if name in names then names[name] else Unknown)
  }

  function LookupConst(name: string): Symbol { Const(name) }

  // ---------------------------------------------------------------- the printer

  datatype Kind = OutsideKind | OrKind | AndKind | NotKind | EqualKind | UnequalKind | SymbolKind

  function KindOf(e: Expr): Kind {
    match e
    case Sym(_) => SymbolKind
    case Not(_) => NotKind
    case Bin(op, _, _) => OpKind(op)
    case Cmp(equal, _, _) => if equal then EqualKind else UnequalKind
  }

  function OpKind(op: Op): Kind { if op == And then AndKind else OrKind }

  /** `expr_compare_type`, whose cases fall through. */
  function CompareType(t1: Kind, t2: Kind): int {
    if t1 == t2 then 0
    else if (t1 == EqualKind || t1 == UnequalKind) && t2 == NotKind then 1
    else if (t1 == EqualKind || t1 == UnequalKind || t1 == NotKind) && t2 == AndKind then 1
    else if (t1 == EqualKind || t1 == UnequalKind || t1 == NotKind || t1 == AndKind) && t2 == OrKind then 1
    else if t1 != OutsideKind && t1 != SymbolKind && t2 == OutsideKind then 1
    else -1
  }

  function Print(prev: Kind, e: Expr): seq<Token>
    decreases e, 1
  {
    if CompareType(prev, KindOf(e)) > 0 then [Open] + PrintBare(e) + [Close] else PrintBare(e)
  }

  function PrintBare(e: Expr): seq<Token>
    decreases e, 0
  {
    match e
    case Sym(s) => [Word(s.name)]
    case Not(a) => [NotSign] + Print(NotKind, a)
    case Bin(op, l, r) => Print(OpKind(op), l) + [Sign(op)] + Print(OpKind(op), r)
    case Cmp(equal, s, t) => [Word(s.name), Equals(equal), Word(t.name)]
  }

  /** `expr_print` from outside; the null expression prints as y. */
  function PrintAll(e: Option<Expr>): seq<Token> {
    if e.None? then [Word("y")] else Print(OutsideKind, e.value)
  }

  // ---------------------------------------------------------------- the parser

  datatype Item = T(token: Token) | S(sym: Symbol) | E(expr: Expr)

  datatype Stack = Empty | Push(below: Stack, top: Item)

  datatype Action = Shift | Reduce(stack: Stack) | Accept(expr: Expr) | Fail

  /** What the tables say for the stack and the next token: && binds tighter than ||, both
      group to the left, ! binds tightest, and a comparison is between two symbols. */
  function Decide(names: Names, st: Stack, next: Option<Token>): Action {
    if st.Empty? then StartOperand(next)
    else match st.top
      case S(a) => AfterSymbol(st.below, a, next)
      case E(a) => AfterExpr(st.below, a, next)
      case T(Word(name)) => Reduce(Push(st.below, S(Lookup(names, name))))
      case T(Quoted(name)) => Reduce(Push(st.below, S(LookupConst(name))))
      case T(Close) => AfterClose(st.below)
      case T(Equals(_)) => if next.Some? && IsName(next.value) then Shift else Fail
      case T(_) => StartOperand(next)
  }

  predicate IsName(t: Token) { t.Word? || t.Quoted? }

  function StartOperand(next: Option<Token>): Action {
    if next.Some? && (IsName(next.value) || next.value.Open? || next.value.NotSign?) then Shift else Fail
  }

  function AfterSymbol(st: Stack, b: Symbol, next: Option<Token>): Action {
    if st.Push? && st.top.T? && st.top.token.Equals? then
      if st.below.Push? && st.below.top.S?
      then Reduce(Push(st.below.below, E(Cmp(st.top.token.equal, st.below.top.sym, b))))
      else Fail
    else if next.Some? && next.value.Equals? then Shift
    else Reduce(Push(st, E(Sym(b))))
  }

  function AfterExpr(st: Stack, b: Expr, next: Option<Token>): Action {
    if st.Push? && st.top == T(NotSign) then Reduce(Push(st.below, E(Not(b))))
    else if st.Push? && st.top.T? && st.top.token.Sign? && st.below.Push? && st.below.top.E? then
      if st.top.token.op == Or && next == Some(Sign(And)) then Shift
      else Reduce(Push(st.below.below, E(Bin(st.top.token.op, st.below.top.expr, b))))
    else if next.None? then (if st.Empty? then Accept(b) else Fail)
    else if next.value.Sign? then Shift
    else if next.value.Close? && st.Push? && st.top == T(Open) then Shift
    else Fail
  }

  function AfterClose(st: Stack): Action {
    if st.Push? && st.top.E? && st.below.Push? && st.below.top == T(Open)
    then Reduce(Push(st.below.below, st.top)) else Fail
  }

  function Weight(st: Stack): nat {
    if st.Empty? then 0 else Weight(st.below) + (if st.top.T? then 3 else if st.top.S? then 2 else 1)
  }

  lemma DecideShrinks(names: Names, st: Stack, next: Option<Token>)
    ensures Decide(names, st, next).Reduce? ==> Weight(Decide(names, st, next).stack) < Weight(st)
    ensures Decide(names, st, next).Shift? ==> next.Some?
  {
    if st.Push? && st.below.Push? {
      assert Weight(st) > Weight(st.below) > Weight(st.below.below);
    }
  }

  function Next(tokens: seq<Token>): Option<Token> { if tokens == [] then None else Some(tokens[0]) }

  /** The parser's run from a stack on the remaining tokens. */
  function Run(names: Names, st: Stack, tokens: seq<Token>): Option<Expr>
    decreases 4 * |tokens| + Weight(st)
  {
    DecideShrinks(names, st, Next(tokens));
    match Decide(names, st, Next(tokens))
    case Shift => Run(names, Push(st, T(tokens[0])), tokens[1..])
    case Reduce(s) => Run(names, s, tokens)
    case Accept(e) => Some(e)
    case Fail => None
  }

  /** The parser's loop. */
  method Parse(names: Names, tokens: seq<Token>) returns (result: Option<Expr>)
    ensures result == Run(names, Empty, tokens)
  {
    var st, i := Empty, 0;
    while true
      invariant 0 <= i <= |tokens| && Run(names, st, tokens[i..]) == Run(names, Empty, tokens)
      decreases 4 * (|tokens| - i) + Weight(st)
    {
      var next := if i == |tokens| then None else Some(tokens[i]);
      assert next == Next(tokens[i..]);
      DecideShrinks(names, st, next);
      match Decide(names, st, next)
      case Shift =>
        assert tokens[i..][1..] == tokens[i + 1..];
        st, i := Push(st, T(tokens[i])), i + 1;
      case Reduce(s) => st := s;
      case Accept(e) => return Some(e);
      case Fail => return None;
    }
  }

  // ---------------------------------------------------------------- grouping to the left

  /** The same chains of && and || with the same operands, grouped to the left. */
  function ToLeft(e: Expr): Expr
    decreases e, 0
  {
    match e
    case Not(a) => Not(ToLeft(a))
    case Bin(op, l, r) => Attach(op, ToLeft(l), r)
    case _ => e
  }

  /** acc op e, where the operands of e go one by one to the end of the chain. */
  function Attach(op: Op, acc: Expr, e: Expr): Expr
    decreases e, 1
  {
    if IsOp(op, e) then Attach(op, Attach(op, acc, e.left), e.right)
    else Bin(op, acc, ToLeft(e))
  }

  predicate LeftGrouped(e: Expr) {
    match e
    case Not(a) => LeftGrouped(a)
    case Bin(op, l, r) => LeftGrouped(l) && LeftGrouped(r) && !IsOp(op, r)
    case _ => true
  }

  lemma {:induction false} ToLeftValue(env: Env, e: Expr)
    ensures Val(env, ToLeft(e)) == Val(env, e)
    decreases e, 0
  {
    match e
    case Not(a) => ToLeftValue(env, a);
    case Bin(op, l, r) => ToLeftValue(env, l); AttachValue(env, op, ToLeft(l), r);
    case _ =>
  }

  lemma {:induction false} AttachValue(env: Env, op: Op, acc: Expr, e: Expr)
    ensures Val(env, Attach(op, acc, e)) == Apply(op, Val(env, acc), Val(env, e))
    decreases e, 1
  {
    if IsOp(op, e) {
      AttachValue(env, op, acc, e.left);
      AttachValue(env, op, Attach(op, acc, e.left), e.right);
      ApplyAssociative(op, Val(env, acc), Val(env, e.left), Val(env, e.right));
    } else {
      ToLeftValue(env, e);
    }
  }

  lemma {:induction false} ToLeftGrouped(e: Expr)
    ensures LeftGrouped(ToLeft(e)) && KindOf(ToLeft(e)) == KindOf(e)
    decreases e, 0
  {
    match e
    case Not(a) => ToLeftGrouped(a);
    case Bin(op, l, r) => ToLeftGrouped(l); AttachGrouped(op, ToLeft(l), r);
    case _ =>
  }

  lemma {:induction false} AttachGrouped(op: Op, acc: Expr, e: Expr)
    requires LeftGrouped(acc)
    ensures LeftGrouped(Attach(op, acc, e)) && IsOp(op, Attach(op, acc, e))
    decreases e, 1
  {
    if IsOp(op, e) {
      AttachGrouped(op, acc, e.left);
      AttachGrouped(op, Attach(op, acc, e.left), e.right);
    } else {
      ToLeftGrouped(e);
    }
  }

  lemma {:induction false} ToLeftFixed(e: Expr)
    ensures ToLeft(e) == e <==> LeftGrouped(e)
  {
    ToLeftGrouped(e);
    match e
    case Not(a) => ToLeftFixed(a);
    case Bin(op, l, r) => if LeftGrouped(e) { ToLeftFixed(l); ToLeftFixed(r); }
    case _ =>
  }

  /** The printer does not show how a chain is grouped. */
  lemma {:induction false} ToLeftPrints(e: Expr)
    ensures PrintBare(ToLeft(e)) == PrintBare(e)
    decreases e, 0
  {
    ToLeftGrouped(e);
    match e
    case Not(a) => ToLeftPrints(a); ToLeftGrouped(a);
    case Bin(op, l, r) => ToLeftPrints(l); ToLeftGrouped(l); AttachPrints(op, ToLeft(l), r);
    case _ =>
  }

  lemma {:induction false} AttachPrints(op: Op, acc: Expr, e: Expr)
    ensures IsOp(op, Attach(op, acc, e))
    ensures PrintBare(Attach(op, acc, e)) == Print(OpKind(op), acc) + [Sign(op)] + Print(OpKind(op), e)
    decreases e, 1
  {
    if IsOp(op, e) {
      AttachPrints(op, acc, e.left);
      AttachPrints(op, Attach(op, acc, e.left), e.right);
    } else {
      ToLeftPrints(e);
      ToLeftGrouped(e);
    }
  }

  // ---------------------------------------------------------------- parsing what was printed

  /** Every symbol replaced by what its name stands for. */
  function Resolve(names: Names, e: Expr): Expr {
    match e
    case Sym(s) => Sym(Lookup(names, s.name))
    case Not(a) => Not(Resolve(names, a))
    case Bin(op, l, r) => Bin(op, Resolve(names, l), Resolve(names, r))
    case Cmp(equal, s, t) => Cmp(equal, Lookup(names, s.name), Lookup(names, t.name))
  }

  /** Nothing, an open parenthesis or an operator is on top, and e may stand there bare. */
  predicate Fits(st: Stack, e: Expr) {
    match st
    case Empty => true
    case Push(_, T(Open)) => true
    case Push(Push(_, E(_)), T(Sign(op))) => !IsOp(Or, e) && (op == And ==> !e.Bin?)
    case Push(_, T(NotSign)) => !e.Bin?
    case _ => false
  }

  predicate Follows(e: Expr, rest: seq<Token>) {
    rest == [] || (!rest[0].Equals? && (IsOp(Or, e) ==> rest[0] != Sign(And)))
  }

  ghost predicate Waiting(st: Stack) { Fits(st, YES_EXPR) }

  lemma {:induction false} RunPrint(names: Names, st: Stack, prev: Kind, e: Expr, rest: seq<Token>)
    requires Waiting(st) && (CompareType(prev, KindOf(e)) <= 0 ==> Fits(st, e) && Follows(e, rest))
    requires Follows(YES_EXPR, rest)
    ensures Run(names, st, Print(prev, e) + rest) == Run(names, Push(st, E(ToLeft(Resolve(names, e)))), rest)
    decreases e, 2
  {
    if CompareType(prev, KindOf(e)) > 0 {
      var tokens := Print(prev, e) + rest;
      assert tokens[1..] == PrintBare(e) + ([Close] + rest);
      assert ([Close] + rest)[1..] == rest;
      RunBare(names, Push(st, T(Open)), e, [Close] + rest);
    } else {
      RunBare(names, st, e, rest);
    }
  }

  lemma {:induction false} RunBare(names: Names, st: Stack, e: Expr, rest: seq<Token>)
    requires Fits(st, e) && Waiting(st) && Follows(e, rest)
    ensures Run(names, st, PrintBare(e) + rest) == Run(names, Push(st, E(ToLeft(Resolve(names, e)))), rest)
    decreases e, 1
  {
    var tokens := PrintBare(e) + rest;
    match e
    case Sym(s) =>
      RunSymbol(names, st, s, rest);
    case Cmp(equal, s, t) =>
      RunCompare(names, st, equal, s, t, rest);
    case Not(a) =>
      assert tokens[1..] == Print(NotKind, a) + rest;
      RunPrint(names, Push(st, T(NotSign)), NotKind, a, rest);
    case Bin(op, l, r) =>
      RunBin(names, st, op, l, r, rest);
  }

  lemma ShiftSign(names: Names, st: Stack, acc: Expr, op: Op, rest: seq<Token>)
    requires Waiting(st) && Fits(st, Bin(op, acc, acc))
    ensures Run(names, Push(st, E(acc)), [Sign(op)] + rest) == Run(names, Push(Push(st, E(acc)), T(Sign(op))), rest)
  {
    assert ([Sign(op)] + rest)[1..] == rest;
  }

  lemma RunBin(names: Names, st: Stack, op: Op, l: Expr, r: Expr, rest: seq<Token>)
    requires Fits(st, Bin(op, l, r)) && Waiting(st) && Follows(Bin(op, l, r), rest)
    ensures Run(names, st, PrintBare(Bin(op, l, r)) + rest) ==
            Run(names, Push(st, E(ToLeft(Resolve(names, Bin(op, l, r))))), rest)
    decreases Bin(op, l, r), 0
  {
    var right := [Sign(op)] + Print(OpKind(op), r) + rest;
    assert PrintBare(Bin(op, l, r)) + rest == Print(OpKind(op), l) + right;
    RunPrint(names, st, OpKind(op), l, right);
    var tail := Print(OpKind(op), r) + rest;
    assert right == [Sign(op)] + tail;
    ShiftSign(names, st, ToLeft(Resolve(names, l)), op, tail);
    RunAttach(names, st, op, ToLeft(Resolve(names, l)), r, rest);
  }

  lemma {:induction false} RunAttach(names: Names, st: Stack, op: Op, acc: Expr, e: Expr, rest: seq<Token>)
    requires Waiting(st) && Fits(st, Bin(op, e, e)) && Follows(Bin(op, e, e), rest)
    ensures Run(names, Push(Push(st, E(acc)), T(Sign(op))), Print(OpKind(op), e) + rest) ==
            Run(names, Push(st, E(Attach(op, acc, Resolve(names, e)))), rest)
    decreases e, 3
  {
    var below := Push(Push(st, E(acc)), T(Sign(op)));
    if IsOp(op, e) {
      var right := [Sign(op)] + Print(OpKind(op), e.right) + rest;
      assert Print(OpKind(op), e) + rest == Print(OpKind(op), e.left) + right;
      var tail := Print(OpKind(op), e.right) + rest;
      assert right == [Sign(op)] + tail;
      RunAttach(names, st, op, acc, e.left, right);
      var next := Attach(op, acc, Resolve(names, e.left));
      ShiftSign(names, st, next, op, tail);
      RunAttach(names, st, op, next, e.right, rest);
    } else {
      RunPrint(names, below, OpKind(op), e, rest);
    }
  }

  lemma RunSymbol(names: Names, st: Stack, s: Symbol, rest: seq<Token>)
    requires Waiting(st) && Follows(YES_EXPR, rest)
    ensures Run(names, st, [Word(s.name)] + rest) == Run(names, Push(st, E(Sym(Lookup(names, s.name)))), rest)
  {
    var tokens := [Word(s.name)] + rest;
    assert tokens[1..] == rest;
    var st1 := Push(st, S(Lookup(names, s.name)));
    assert Run(names, st, tokens) == Run(names, Push(st, T(tokens[0])), rest) == Run(names, st1, rest);
  }

  lemma RunCompare(names: Names, st: Stack, equal: bool, s: Symbol, t: Symbol, rest: seq<Token>)
    requires Waiting(st)
    ensures Run(names, st, [Word(s.name), Equals(equal), Word(t.name)] + rest) ==
            Run(names, Push(st, E(Cmp(equal, Lookup(names, s.name), Lookup(names, t.name)))), rest)
  {
    var tokens := [Word(s.name), Equals(equal), Word(t.name)] + rest;
    var st1 := Push(st, S(Lookup(names, s.name)));
    assert tokens[1..] == [Equals(equal), Word(t.name)] + rest;
    assert Run(names, st, tokens) == Run(names, Push(st, T(tokens[0])), tokens[1..]) == Run(names, st1, tokens[1..]);
    var st2 := Push(st1, T(Equals(equal)));
    var tokens2 := [Word(t.name)] + rest;
    assert tokens[1..][1..] == tokens2;
    assert Run(names, st1, tokens[1..]) == Run(names, st2, tokens2);
    assert tokens2[1..] == rest;
    assert Run(names, st2, tokens2) == Run(names, Push(st2, T(Word(t.name))), rest) ==
           Run(names, Push(st2, S(Lookup(names, t.name))), rest);
  }

  // ---------------------------------------------------------------- main results

  /** Parsing what was printed always succeeds.  The result is the expression grouped to the left
      with every symbol replaced by what its name stands for. */
  lemma ParsePrinted(names: Names, e: Expr)
    ensures Run(names, Empty, PrintAll(Some(e))) == Some(ToLeft(Resolve(names, e)))
    ensures Run(names, Empty, PrintAll(None)) == Some(YES_EXPR)
  {
    assert Print(OutsideKind, e) + [] == Print(OutsideKind, e);
    RunPrint(names, Empty, OutsideKind, e, []);
    assert [Word("y")] + [] == [Word("y")];
    RunSymbol(names, Empty, SYMBOL_YES, []);
  }

  /** Every symbol is what its name stands for.  A quoted constant other than y, m and n is not:
      it prints without its quotes. */
  predicate Resolved(names: Names, e: Expr) {
    match e
    case Sym(s) => Lookup(names, s.name) == s
    case Not(a) => Resolved(names, a)
    case Bin(_, l, r) => Resolved(names, l) && Resolved(names, r)
    case Cmp(_, s, t) => Lookup(names, s.name) == s && Lookup(names, t.name) == t
  }

  lemma {:induction false} ResolvedFixed(names: Names, e: Expr)
    ensures Resolve(names, e) == e <==> Resolved(names, e)
  {
    match e
    case Not(a) => ResolvedFixed(names, a);
    case Bin(_, l, r) => ResolvedFixed(names, l); ResolvedFixed(names, r);
    case _ =>
  }

  lemma {:induction false} ResolveToLeft(names: Names, e: Expr)
    ensures ToLeft(Resolve(names, e)) == Resolve(names, ToLeft(e))
    ensures Resolved(names, ToLeft(e)) <==> Resolved(names, e)
    decreases e, 0
  {
    match e
    case Not(a) => ResolveToLeft(names, a);
    case Bin(op, l, r) => ResolveToLeft(names, l); ResolveAttach(names, op, ToLeft(l), r);
    case _ =>
  }

  lemma {:induction false} ResolveAttach(names: Names, op: Op, acc: Expr, e: Expr)
    ensures Attach(op, Resolve(names, acc), Resolve(names, e)) == Resolve(names, Attach(op, acc, e))
    ensures Resolved(names, Attach(op, acc, e)) <==> Resolved(names, acc) && Resolved(names, e)
    decreases e, 1
  {
    if IsOp(op, e) {
      ResolveAttach(names, op, acc, e.left);
      ResolveAttach(names, op, Attach(op, acc, e.left), e.right);
    } else {
      ResolveToLeft(names, e);
    }
  }

  /** The parse gives the same tree up to the grouping of the chains exactly if every symbol is
      what its name stands for, and the very same tree if the chains were grouped to the left.
      It then has the same value, and prints the same. */
  lemma RoundTrip(names: Names, e: Expr)
    ensures Run(names, Empty, PrintAll(Some(e))) == Some(ToLeft(e)) <==> Resolved(names, e)
    ensures Run(names, Empty, PrintAll(Some(e))) == Some(e) <==> Resolved(names, e) && LeftGrouped(e)
    ensures Resolved(names, e) ==>
              var f := Run(names, Empty, PrintAll(Some(e))).value;
              PrintAll(Some(f)) == PrintAll(Some(e)) && forall env :: Val(env, f) == Val(env, e)
  {
    ParsePrinted(names, e);
    ResolveToLeft(names, e);
    ResolvedFixed(names, e);
    ResolvedFixed(names, ToLeft(e));
    ToLeftFixed(e);
    ToLeftFixed(ToLeft(e));
    ToLeftGrouped(e);
    ToLeftGrouped(Resolve(names, e));
    ToLeftPrints(e);
    forall env ensures Val(env, ToLeft(e)) == Val(env, e) { ToLeftValue(env, e); }
  }

  // ---------------------------------------------------------------- no more parentheses than needed

  function Opens(tokens: seq<Token>): nat {
    if tokens == [] then 0 else (if tokens[0] == Open then 1 else 0) + Opens(tokens[1..])
  }

  lemma {:induction false} OpensAppend(a: seq<Token>, b: seq<Token>)
    ensures Opens(a + b) == Opens(a) + Opens(b)
  {
    if a == [] {
      assert a + b == b;
    } else {
      assert (a + b)[1..] == a[1..] + b;
      OpensAppend(a[1..], b);
    }
  }

  /** The places where an || stands below an &&, or a chain below a !. */
  function NeedsParentheses(e: Expr): nat {
    match e
    case Not(a) => NeedsParentheses(a) + if a.Bin? then 1 else 0
    case Bin(op, l, r) =>
      NeedsParentheses(l) + NeedsParentheses(r) +
      (if op == And && IsOp(Or, l) then 1 else 0) + (if op == And && IsOp(Or, r) then 1 else 0)
    case _ => 0
  }

  lemma PrintAround(prev: Kind, e: Expr)
    ensures Opens(Print(prev, e)) == Opens(PrintBare(e)) + if CompareType(prev, KindOf(e)) > 0 then 1 else 0
  {
    Enclosed(PrintBare(e));
  }

  lemma CompareFacts(op: Op, e: Expr)
    ensures CompareType(NotKind, KindOf(e)) > 0 <==> e.Bin?
    ensures CompareType(OpKind(op), KindOf(e)) > 0 <==> op == And && IsOp(Or, e)
    ensures CompareType(OutsideKind, KindOf(e)) <= 0
  {
  }

  /** The printer puts parentheses exactly there. */
  lemma {:induction false} PrintOpens(e: Expr)
    ensures Opens(PrintBare(e)) == NeedsParentheses(e)
    decreases e
  {
    match e
    case Sym(s) => WordsOpen(s.name, s.name, true);
    case Cmp(equal, s, t) => WordsOpen(s.name, t.name, equal);
    case Not(a) =>
      PrintOpens(a);
      PrintAround(NotKind, a);
      CompareFacts(And, a);
      assert PrintBare(e)[1..] == Print(NotKind, a);
    case Bin(op, l, r) =>
      PrintOpens(l);
      PrintOpens(r);
      PrintAround(OpKind(op), l);
      PrintAround(OpKind(op), r);
      CompareFacts(op, l);
      CompareFacts(op, r);
      OneSign(op, Print(OpKind(op), l), Print(OpKind(op), r));
  }

  lemma WordsOpen(a: string, b: string, equal: bool)
    ensures Opens([Word(a)]) == 0 && Opens([Word(a), Equals(equal), Word(b)]) == 0
  {
    assert [Word(a)][1..] == [] && [Word(b)][1..] == [];
    assert Opens([Word(a)]) == 0 && Opens([Word(b)]) == 0;
    assert [Equals(equal), Word(b)][1..] == [Word(b)] && Opens([Equals(equal), Word(b)]) == 0;
    assert [Word(a), Equals(equal), Word(b)][1..] == [Equals(equal), Word(b)];
  }

  lemma OneSign(op: Op, a: seq<Token>, b: seq<Token>)
    ensures Opens(a + [Sign(op)] + b) == Opens(a) + Opens(b)
  {
    OpensAppend(a + [Sign(op)], b);
    OpensAppend(a, [Sign(op)]);
  }

  lemma Enclosed(a: seq<Token>)
    ensures Opens([Open] + a + [Close]) == Opens(a) + 1
  {
    OpensAppend([Open] + a, [Close]);
    assert ([Open] + a)[1..] == a;
  }

  /** A whole expression has no parentheses around it. */
  lemma FewestParentheses(e: Expr)
    ensures Opens(PrintAll(Some(e))) == NeedsParentheses(e)
  {
    PrintOpens(e);
    PrintAround(OutsideKind, e);
    CompareFacts(And, e);
  }

  /** What a name stands for. */
  lemma LookedUp(names: Names, name: string)
    ensures Lookup(names, "y") == SYMBOL_YES && Lookup(names, "m") == SYMBOL_MOD && Lookup(names, "n") == SYMBOL_NO
    ensures !IsLiteral(Const(name)) && name in names ==> Lookup(names, name) == Config(name, names[name])
    ensures !IsLiteral(Const(name)) && name !in names ==> Lookup(names, name) == Config(name, Unknown)
  {
  }
}
