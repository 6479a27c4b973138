/** Dependency expressions of the configuration language and their three-valued meaning.

    A symbol pointer is modelled by what identifies the symbol: a constant symbol is its
    name, because the symbol table holds at most one constant symbol per name, and every
    other symbol is its name and type.  The null expression of the source is `None`. */
module Expressions {
  datatype Option<+T> = None | Some(value: T)

  // ---------------------------------------------------------------- tristate values

  /** no < mod < yes, as 0, 1, 2 */
  type Tristate = t: nat | t <= 2

  const NO: Tristate := 0
  const MOD: Tristate := 1
  const YES: Tristate := 2

  datatype Op = And | Or

  function Dual(op: Op): Op { if op == And then Or else And }

  function Apply(op: Op, a: Tristate, b: Tristate): Tristate {
    if op == And then (if a < b then a else b) else (if a > b then a else b)
  }

  function Negate(a: Tristate): Tristate { 2 - a }

  /** The value that leaves the other operand of `op` unchanged. */
  function Unit(op: Op): Tristate { if op == And then YES else NO }

  function OfBool(b: bool): Tristate { if b then YES else NO }

  /** `b` is at least as informative as `a`: a definite value never changes, `mod` may. */
  predicate Refines(a: Tristate, b: Tristate) { a == MOD || a == b }

  // ---------------------------------------------------------------- symbols, expressions

  datatype SymbolType = Unknown | Boolean | Tri | Int | Hex | String

  datatype Symbol = Const(name: string) | Config(name: string, kind: SymbolType)

  const SYMBOL_YES := Const("y")
  const SYMBOL_MOD := Const("m")
  const SYMBOL_NO := Const("n")

  predicate IsLogical(s: Symbol) { s.Config? && (s.kind == Boolean || s.kind == Tri) }

  predicate IsBoolean(s: Symbol) { s.Config? && s.kind == Boolean }

  predicate IsTristate(s: Symbol) { s.Config? && s.kind == Tri }

  predicate HasText(s: Symbol) { s.Config? && (s.kind == Int || s.kind == Hex || s.kind == String) }

  /** A symbol whose evaluation evaluates anything. */
  predicate IsTyped(s: Symbol) { IsLogical(s) || HasText(s) }

  /** One of the three literals y, m, n. */
  predicate IsLiteral(s: Symbol) { s == SYMBOL_YES || s == SYMBOL_MOD || s == SYMBOL_NO }

  datatype Expr =
    | Sym(sym: Symbol)
    | Not(arg: Expr)
    | Bin(op: Op, left: Expr, right: Expr)
    | Cmp(equal: bool, lhs: Symbol, rhs: Symbol)

  const YES_EXPR := Sym(SYMBOL_YES)
  const NO_EXPR := Sym(SYMBOL_NO)

  function Neutral(op: Op): Expr { if op == And then YES_EXPR else NO_EXPR }

  function Absorbing(op: Op): Expr { if op == And then NO_EXPR else YES_EXPR }

  predicate IsYesNo(e: Expr) { e == YES_EXPR || e == NO_EXPR }

  predicate IsOp(op: Op, e: Expr) { e.Bin? && e.op == op }

  function Size(e: Expr): (n: nat)
    ensures n >= 1
  {
    match e
    case Sym(_) => 1
    case Not(a) => 1 + Size(a)
    case Bin(_, l, r) => 1 + Size(l) + Size(r)
    case Cmp(_, _, _) => 1
  }

  function AllocAnd(a: Option<Expr>, b: Option<Expr>): Option<Expr> {
    if a.None? then b else if b.None? then a else Some(Bin(And, a.value, b.value))
  }

  function AllocOr(a: Option<Expr>, b: Option<Expr>): Option<Expr> {
    if a.None? then b else if b.None? then a else Some(Bin(Or, a.value, b.value))
  }

  // ---------------------------------------------------------------- meaning

  /** The current values of all configuration symbols. */
  datatype Env = Env(tri: Symbol -> Tristate, str: Symbol -> string, modules: bool)

  /** What symbol evaluation guarantees: booleans are never `mod`, and without modules
      no tristate is. */
  ghost predicate Sane(env: Env) {
    forall s: Symbol :: IsLogical(s) && (IsBoolean(s) || !env.modules) ==> env.tri(s) != MOD
  }

  /** No configuration symbol currently has the value `mod`. */
  ghost predicate ModFree(env: Env) {
    forall s: Symbol :: IsLogical(s) ==> env.tri(s) != MOD
  }

  function SymValue(env: Env, s: Symbol): Tristate {
    if s == SYMBOL_YES then YES
    else if s == SYMBOL_MOD then MOD
    else if IsLogical(s) then env.tri(s)
    else NO
  }

  function TristateText(t: Tristate, modules: bool): string {
    if t == NO then "n" else if t == YES then "y" else if modules then "m" else "n"
  }

  function SymText(env: Env, s: Symbol): string {
    if IsLogical(s) then TristateText(env.tri(s), env.modules)
    else if s.Const? || s.kind == Unknown then s.name
    else env.str(s)
  }

  function Val(env: Env, e: Expr): Tristate {
    match e
    case Sym(s) => SymValue(env, s)
    case Not(a) => Negate(Val(env, a))
    case Bin(op, l, r) => Apply(op, Val(env, l), Val(env, r))
    case Cmp(equal, s1, s2) => OfBool((SymText(env, s1) == SymText(env, s2)) == equal)
  }

  function ValOpt(env: Env, e: Option<Expr>): Tristate {
    if e.None? then YES else Val(env, e.value)
  }

  /** The literal `m` does not occur as an operand. */
  predicate NoModLiteral(e: Expr) {
    match e
    case Sym(s) => s != SYMBOL_MOD
    case Not(a) => NoModLiteral(a)
    case Bin(_, l, r) => NoModLiteral(l) && NoModLiteral(r)
    case Cmp(_, _, _) => true
  }

  /** Without `mod` among the symbols and in the text, the logic is two-valued. */
  lemma {:induction false} TwoValued(env: Env, e: Expr)
    requires ModFree(env) && NoModLiteral(e)
    ensures Val(env, e) != MOD
  {
    match e
    case Sym(s) =>
    case Not(a) => TwoValued(env, a);
    case Bin(_, l, r) => TwoValued(env, l); TwoValued(env, r);
    case Cmp(_, _, _) =>
  }

  /** What a comparison compares: the text of a number or string, y, m or n for a boolean or tristate, and the
      name of a constant. */
  lemma ComparisonMeans(env: Env, equal: bool, s: Symbol, name: string)
    ensures HasText(s) ==> (Val(env, Cmp(equal, s, Const(name))) == YES <==> (env.str(s) == name) == equal)
    ensures IsLogical(s) && (env.modules || env.tri(s) != MOD) ==>
              (Val(env, Cmp(equal, s, Const(name))) == YES <==>
               ((env.tri(s) == YES && name == "y") || (env.tri(s) == MOD && name == "m") || (env.tri(s) == NO && name == "n")) == equal)
    ensures s.Const? ==> (Val(env, Cmp(equal, s, Const(name))) == YES <==> (s.name == name) == equal)
    ensures Val(env, Cmp(equal, s, Const(name))) != MOD
  {
  }
}
