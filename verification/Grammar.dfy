/** What the expression parser accepts and what it makes of it: exactly the token sequences that the grammar
    of a menu file spells, words and quoted constants alike. */
module Grammar {
  import opened Expressions
  import opened Printing

  // ---------------------------------------------------------------- expressions as they are written

  /** A word is looked up; what stands in quotes is a constant. */
  datatype Operand = Named(name: string) | InQuotes(name: string)

  datatype Text =
    | Single(operand: Operand)
    | Comparison(equal: bool, left: Operand, right: Operand)
    | Negation(text: Text)
    | Chain(op: Op, first: Text, last: Text)
    | Parentheses(text: Text)

  predicate IsChain(op: Op, t: Text) { t.Chain? && t.op == op }

  /** && binds tighter than ||, ! tighter than both, and chains group to the left, unless there are parentheses. */
  predicate WellFormed(t: Text) {
    match t
    case Negation(a) => !a.Chain? && WellFormed(a)
    case Chain(op, a, b) => WellFormed(a) && WellFormed(b) && (op == And ==> !IsChain(Or, a) && !b.Chain?) && !IsChain(Or, b)
    case Parentheses(a) => WellFormed(a)
    case _ => true
  }

  function Written(o: Operand): Token { if o.Named? then Word(o.name) else Quoted(o.name) }

  function Spell(t: Text): seq<Token> {
    match t
    case Single(o) => [Written(o)]
    case Comparison(equal, a, b) => [Written(a), Equals(equal), Written(b)]
    case Negation(a) => [NotSign] + Spell(a)
    case Chain(op, a, b) => Spell(a) + [Sign(op)] + Spell(b)
    case Parentheses(a) => [Open] + Spell(a) + [Close]
  }

  function Denoted(names: Names, o: Operand): Symbol { if o.Named? then Lookup(names, o.name) else Const(o.name) }

  function Meaning(names: Names, t: Text): Expr {
    match t
    case Single(o) => Sym(Denoted(names, o))
    case Comparison(equal, a, b) => Cmp(equal, Denoted(names, a), Denoted(names, b))
    case Negation(a) => Not(Meaning(names, a))
    case Chain(op, a, b) => Bin(op, Meaning(names, a), Meaning(names, b))
    case Parentheses(a) => Meaning(names, a)
  }

  // ---------------------------------------------------------------- what is written is parsed

  /** An operand may stand on the stack st, and t may stand there without parentheses. */
  predicate Suits(st: Stack, t: Text) {
    match st
    case Empty => true
    case Push(_, T(Open)) => true
    case Push(Push(_, E(_)), T(Sign(op))) => !IsChain(Or, t) && (op == And ==> !t.Chain?)
    case Push(_, T(NotSign)) => !t.Chain?
    case _ => false
  }

  /** The token behind t does not belong to it. */
  predicate Ends(t: Text, rest: seq<Token>) {
    rest == [] || (!rest[0].Equals? && (IsChain(Or, t) ==> rest[0] != Sign(And)))
  }

  lemma RunOperand(names: Names, st: Stack, o: Operand, rest: seq<Token>)
    requires Suits(st, Single(o)) || (st.Push? && st.top.T? && st.top.token.Equals?)
    ensures Run(names, st, [Written(o)] + rest) == Run(names, Push(st, S(Denoted(names, o))), rest)
  {
    var tokens := [Written(o)] + rest;
    assert tokens[1..] == rest;
    assert Run(names, st, tokens) == Run(names, Push(st, T(Written(o))), rest);
  }

  lemma RunSingle(names: Names, st: Stack, o: Operand, rest: seq<Token>)
    requires Suits(st, Single(o)) && (rest == [] || !rest[0].Equals?)
    ensures Run(names, st, [Written(o)] + rest) == Run(names, Push(st, E(Sym(Denoted(names, o)))), rest)
  {
    RunOperand(names, st, o, rest);
  }

  lemma RunComparison(names: Names, st: Stack, equal: bool, a: Operand, b: Operand, rest: seq<Token>)
    requires Suits(st, Comparison(equal, a, b))
    ensures Run(names, st, [Written(a), Equals(equal), Written(b)] + rest) ==
            Run(names, Push(st, E(Cmp(equal, Denoted(names, a), Denoted(names, b)))), rest)
  {
    var second := [Written(b)] + rest;
    var first := [Equals(equal)] + second;
    assert [Written(a), Equals(equal), Written(b)] + rest == [Written(a)] + first;
    RunOperand(names, st, a, first);
    var st1 := Push(st, S(Denoted(names, a)));
    assert first[1..] == second && Run(names, st1, first) == Run(names, Push(st1, T(Equals(equal))), second);
    RunOperand(names, Push(st1, T(Equals(equal))), b, rest);
  }

  /** Parsing what is written for t puts its meaning on the stack. */
  lemma {:induction false} RunText(names: Names, st: Stack, t: Text, rest: seq<Token>)
    requires WellFormed(t) && Suits(st, t) && Ends(t, rest)
    ensures Run(names, st, Spell(t) + rest) == Run(names, Push(st, E(Meaning(names, t))), rest)
    decreases t, 1
  {
    match t
    case Single(o) => RunSingle(names, st, o, rest);
    case Comparison(equal, a, b) => RunComparison(names, st, equal, a, b, rest);
    case Negation(a) => RunNegation(names, st, a, rest);
    case Chain(op, a, b) => RunChain(names, st, op, a, b, rest);
    case Parentheses(a) => RunParentheses(names, st, a, rest);
  }

  lemma RunNegation(names: Names, st: Stack, a: Text, rest: seq<Token>)
    requires WellFormed(Negation(a)) && Suits(st, Negation(a)) && Ends(Negation(a), rest)
    ensures Run(names, st, Spell(Negation(a)) + rest) == Run(names, Push(st, E(Not(Meaning(names, a)))), rest)
    decreases Negation(a), 0
  {
    assert (Spell(Negation(a)) + rest)[1..] == Spell(a) + rest;
    RunText(names, Push(st, T(NotSign)), a, rest);
  }

  lemma RunParentheses(names: Names, st: Stack, a: Text, rest: seq<Token>)
    requires WellFormed(a) && Suits(st, Parentheses(a)) && Ends(Parentheses(a), rest)
    ensures Run(names, st, Spell(Parentheses(a)) + rest) == Run(names, Push(st, E(Meaning(names, a))), rest)
    decreases Parentheses(a), 0
  {
    assert (Spell(Parentheses(a)) + rest)[1..] == Spell(a) + ([Close] + rest);
    assert ([Close] + rest)[1..] == rest;
    RunText(names, Push(st, T(Open)), a, [Close] + rest);
  }

  lemma ShiftOperator(names: Names, st: Stack, op: Op, a: Text, b: Text, tail: seq<Token>)
    requires Suits(st, Chain(op, a, b))
    ensures var st1 := Push(st, E(Meaning(names, a)));
            Run(names, st1, [Sign(op)] + tail) == Run(names, Push(st1, T(Sign(op))), tail)
  {
    assert ([Sign(op)] + tail)[1..] == tail;
  }

  lemma RunChain(names: Names, st: Stack, op: Op, a: Text, b: Text, rest: seq<Token>)
    requires WellFormed(Chain(op, a, b)) && Suits(st, Chain(op, a, b)) && Ends(Chain(op, a, b), rest)
    ensures Run(names, st, Spell(Chain(op, a, b)) + rest) ==
            Run(names, Push(st, E(Bin(op, Meaning(names, a), Meaning(names, b)))), rest)
    decreases Chain(op, a, b), 0
  {
    var tail := Spell(b) + rest;
    var right := [Sign(op)] + tail;
    assert Spell(Chain(op, a, b)) + rest == Spell(a) + right;
    RunText(names, st, a, right);
    var st1 := Push(st, E(Meaning(names, a)));
    ShiftOperator(names, st, op, a, b, tail);
    RunText(names, Push(st1, T(Sign(op))), b, rest);
  }

  // ---------------------------------------------------------------- what is parsed was written

  /** The stack with the texts of its expressions. */
  datatype Trace = Bottom | On(below: Trace, item: Piece)

  datatype Piece = TokenPiece(token: Token) | OperandPiece(operand: Operand) | TextPiece(text: Text)

  function Strip(names: Names, tr: Trace): Stack {
    match tr
    case Bottom => Empty
    case On(b, TokenPiece(t)) => Push(Strip(names, b), T(t))
    case On(b, OperandPiece(o)) => Push(Strip(names, b), S(Denoted(names, o)))
    case On(b, TextPiece(t)) => Push(Strip(names, b), E(Meaning(names, t)))
  }

  function Consumed(tr: Trace): seq<Token> {
    match tr
    case Bottom => []
    case On(b, TokenPiece(t)) => Consumed(b) + [t]
    case On(b, OperandPiece(o)) => Consumed(b) + [Written(o)]
    case On(b, TextPiece(t)) => Consumed(b) + Spell(t)
  }

  /** Which text may stand on top of the trace without parentheses. */
  predicate MayStand(tr: Trace, t: Text) {
    match tr
    case On(_, TokenPiece(NotSign)) => !t.Chain?
    case On(_, TokenPiece(Sign(op))) => !IsChain(Or, t) && (op == And ==> !t.Chain?)
    case _ => true
  }

  /** Every text is one of the grammar in its place; an operator stands behind an operand it can have. */
  predicate Sound(tr: Trace) {
    match tr
    case Bottom => true
    case On(b, TextPiece(t)) => Sound(b) && WellFormed(t) && MayStand(b, t)
    case On(b, TokenPiece(Sign(op))) =>
      && Sound(b) && b.On? && b.item.TextPiece? && (op == And ==> !IsChain(Or, b.item.text))
      && MayStand(b.below, Chain(op, b.item.text, b.item.text))
    case On(b, _) => Sound(b)
  }

  /** A chain of || is not followed by &&. */
  predicate Ahead(tr: Trace, next: Option<Token>) {
    tr.On? && tr.item.TextPiece? && IsChain(Or, tr.item.text) ==> next != Some(Sign(And))
  }

  lemma StripTop(names: Names, tr: Trace)
    ensures tr.On? <==> Strip(names, tr).Push?
    ensures tr.On? ==>
              var st := Strip(names, tr);
              && st.below == Strip(names, tr.below)
              && (tr.item.TokenPiece? <==> st.top.T?) && (tr.item.OperandPiece? <==> st.top.S?) && (tr.item.TextPiece? <==> st.top.E?)
              && (tr.item.TokenPiece? ==> st.top.token == tr.item.token)
              && (tr.item.OperandPiece? ==> st.top.sym == Denoted(names, tr.item.operand))
              && (tr.item.TextPiece? ==> st.top.expr == Meaning(names, tr.item.text))
  {
  }

  /** A reduction keeps the trace sound and the tokens it stands for. */
  lemma ReduceSound(names: Names, tr: Trace, next: Option<Token>) returns (u: Trace)
    requires Sound(tr) && Ahead(tr, next) && Decide(names, Strip(names, tr), next).Reduce?
    ensures Sound(u) && Ahead(u, next) && Consumed(u) == Consumed(tr)
    ensures Strip(names, u) == Decide(names, Strip(names, tr), next).stack
  {
    StripTop(names, tr);
    match tr
    case On(b, TokenPiece(Word(name))) => u := On(b, OperandPiece(Named(name)));
    case On(b, TokenPiece(Quoted(name))) => u := On(b, OperandPiece(InQuotes(name)));
    case On(b, OperandPiece(o)) => u := SymbolReduced(names, b, o, next);
    case On(b, TextPiece(t)) => u := TextReduced(names, b, t, next);
    case On(b, TokenPiece(Close)) =>
      StripTop(names, b);
      StripTop(names, b.below);
      assert Sound(b) && Sound(b.below) && Sound(b.below.below);
      assert Consumed(b.below) == Consumed(b.below.below) + [Open] && Consumed(b) == Consumed(b.below) + Spell(b.item.text);
      u := On(b.below.below, TextPiece(Parentheses(b.item.text)));
      assert Consumed(tr) == Consumed(b.below.below) + [Open] + Spell(b.item.text) + [Close];
      assert Consumed(u) == Consumed(b.below.below) + ([Open] + Spell(b.item.text) + [Close]);
  }

  lemma SymbolReduced(names: Names, b: Trace, o: Operand, next: Option<Token>) returns (u: Trace)
    requires Sound(On(b, OperandPiece(o))) && Decide(names, Strip(names, On(b, OperandPiece(o))), next).Reduce?
    ensures Sound(u) && Ahead(u, next) && Consumed(u) == Consumed(On(b, OperandPiece(o)))
    ensures Strip(names, u) == Decide(names, Strip(names, On(b, OperandPiece(o))), next).stack
  {
    StripTop(names, On(b, OperandPiece(o)));
    StripTop(names, b);
    if b.On? && b.item.TokenPiece? && b.item.token.Equals? {
      StripTop(names, b.below);
      assert Sound(b) && Sound(b.below) && Sound(b.below.below);
      var a, equal := b.below.item.operand, b.item.token.equal;
      u := On(b.below.below, TextPiece(Comparison(equal, a, o)));
      assert Consumed(b) == Consumed(b.below.below) + [Written(a)] + [Equals(equal)];
      assert Consumed(u) == Consumed(b.below.below) + ([Written(a), Equals(equal), Written(o)]);
    } else {
      u := On(b, TextPiece(Single(o)));
    }
  }

  lemma TextReduced(names: Names, b: Trace, t: Text, next: Option<Token>) returns (u: Trace)
    requires Sound(On(b, TextPiece(t))) && Ahead(On(b, TextPiece(t)), next)
    requires Decide(names, Strip(names, On(b, TextPiece(t))), next).Reduce?
    ensures Sound(u) && Ahead(u, next) && Consumed(u) == Consumed(On(b, TextPiece(t)))
    ensures Strip(names, u) == Decide(names, Strip(names, On(b, TextPiece(t))), next).stack
  {
    StripTop(names, On(b, TextPiece(t)));
    StripTop(names, b);
    assert Sound(b);
    if b.item == TokenPiece(NotSign) {
      assert Sound(b.below);
      u := On(b.below, TextPiece(Negation(t)));
      assert Consumed(On(b, TextPiece(t))) == Consumed(b.below) + [NotSign] + Spell(t);
      assert Consumed(u) == Consumed(b.below) + ([NotSign] + Spell(t));
    } else {
      StripTop(names, b.below);
      assert Sound(b.below) && Sound(b.below.below);
      var op, a := b.item.token.op, b.below.item.text;
      u := On(b.below.below, TextPiece(Chain(op, a, t)));
      assert Consumed(On(b, TextPiece(t))) == Consumed(b.below.below) + Spell(a) + [Sign(op)] + Spell(t);
      assert Consumed(u) == Consumed(b.below.below) + (Spell(a) + [Sign(op)] + Spell(t));
    }
  }

  lemma ShiftSound(names: Names, tr: Trace, next: Token)
    requires Sound(tr) && Ahead(tr, Some(next)) && Decide(names, Strip(names, tr), Some(next)).Shift?
    ensures Sound(On(tr, TokenPiece(next)))
  {
    StripTop(names, tr);
    if tr.On? {
      StripTop(names, tr.below);
      if tr.below.On? { StripTop(names, tr.below.below); }
    }
  }

  /** Whatever the parser accepts is spelled by a text of the grammar, and has its meaning. */
  lemma {:induction false} AcceptedSound(names: Names, tr: Trace, tokens: seq<Token>) returns (t: Text)
    requires Sound(tr) && Ahead(tr, Next(tokens)) && Run(names, Strip(names, tr), tokens).Some?
    ensures WellFormed(t) && Spell(t) == Consumed(tr) + tokens
    ensures Run(names, Strip(names, tr), tokens) == Some(Meaning(names, t))
    decreases 4 * |tokens| + Printing.Weight(Strip(names, tr))
  {
    var st := Strip(names, tr);
    DecideShrinks(names, st, Next(tokens));
    match Decide(names, st, Next(tokens))
    case Shift =>
      ShiftSound(names, tr, tokens[0]);
      assert Consumed(On(tr, TokenPiece(tokens[0]))) + tokens[1..] == Consumed(tr) + tokens;
      t := AcceptedSound(names, On(tr, TokenPiece(tokens[0])), tokens[1..]);
    case Reduce(s) =>
      var u := ReduceSound(names, tr, Next(tokens));
      t := AcceptedSound(names, u, tokens);
    case Accept(e) =>
      StripTop(names, tr);
      StripTop(names, tr.below);
      t := tr.item.text;
      assert Consumed(tr) == [] + Spell(t) && tokens == [];
  }

  /** The parser accepts exactly what the grammar spells, with the meaning of what is written. */
  lemma ParsesExactly(names: Names, tokens: seq<Token>, e: Expr)
    ensures Run(names, Empty, tokens) == Some(e) <==>
            exists t :: WellFormed(t) && Spell(t) == tokens && Meaning(names, t) == e
  {
    if Run(names, Empty, tokens) == Some(e) {
      var t := AcceptedSound(names, Bottom, tokens);
    }
    if t :| WellFormed(t) && Spell(t) == tokens && Meaning(names, t) == e {
      RunText(names, Empty, t, []);
      assert Spell(t) + [] == Spell(t);
    }
  }

  /** What is written has one meaning. */
  lemma Unambiguous(names: Names, t: Text, u: Text)
    requires WellFormed(t) && WellFormed(u) && Spell(t) == Spell(u)
    ensures Meaning(names, t) == Meaning(names, u)
  {
    ParsesExactly(names, Spell(t), Meaning(names, t));
    ParsesExactly(names, Spell(t), Meaning(names, u));
  }
}
