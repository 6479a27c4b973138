/** The values of symbols: the recursive equations, and the evaluation on demand that stores each value
    behind a valid flag. */
module Evaluation {
  import opened Expressions
  import opened Comparing
  import opened SymbolGraph
  import opened Numbers

  /** What a symbol stores: the flags VALID and WRITE, the value or the text, the prompt visibility, the
      select bound and the direct dependency. */
  datatype Cell = Cell(valid: bool, write: bool, value: Tristate, visible: Tristate, bound: Tristate, direct: Tristate, text: string)

  type Table = map<Symbol, Cell>

  /** The user values: of boolean and tristate symbols, and of those with a text. */
  datatype Users = Users(tri: map<Symbol, Tristate>, text: map<Symbol, string>)

  function ValueIn(t: Table, s: Symbol): Tristate { if s in t then t[s].value else NO }

  function TextIn(t: Table, s: Symbol): string { if s in t then t[s].text else "" }

  function EnvOf(g: Graph, t: Table): Env { Env((s: Symbol) => ValueIn(t, s), (s: Symbol) => TextIn(t, s), g.modules) }

  /** `sym_get_type(sym) == S_BOOLEAN` */
  predicate ActsBoolean(g: Graph, s: Symbol) { !IsTristate(s) || !g.modules }

  function RaiseMod(boolean: bool, t: Tristate): Tristate { if t == MOD && boolean then YES else t }

  function UserValue(users: Users, s: Symbol): Option<Tristate> {
    if s in users.tri then Some(users.tri[s]) else None
  }

  function WithValue(users: Users, s: Symbol, v: Tristate): Users { users.(tri := users.tri[s := v]) }

  /** The value of a symbol with user value `user`, given what is stored about it and its default. */
  function Combine(g: Graph, s: Symbol, user: Option<Tristate>, c: Cell, default: Option<Tristate>): Cell {
    var own := if c.visible != NO && user.Some? then Apply(And, user.value, c.visible)
               else if default.Some? then default.value else NO;
    c.(value := RaiseMod(ActsBoolean(g, s), Apply(Or, own, c.bound)),
       write := c.visible != NO || c.bound != NO || default.Some?)
  }

  // ---------------------------------------------------------------- the equations

  function PromptValue(env: Env, props: seq<Property>): Tristate {
    if props == [] then NO
    else
      var rest := PromptValue(env, props[1..]);
      if props[0].Prompt? then Apply(Or, ValOpt(env, props[0].condition), rest) else rest
  }

  /** The first default whose condition is not `no`. */
  function DefaultValue(env: Env, props: seq<Property>): Option<Tristate> {
    if props == [] then None
    else if props[0].Default? && ValOpt(env, props[0].condition) != NO then
      Some(Apply(And, Val(env, props[0].value), ValOpt(env, props[0].condition)))
    else DefaultValue(env, props[1..])
  }

  /** The text `curr.val` of a symbol; `symbol_no` lends its own to every boolean and tristate. */
  function CurrentText(env: Env, s: Symbol): string { if IsLogical(s) then "n" else SymText(env, s) }

  /** The text of the first default whose condition is not `no`; only a symbol has one. */
  function DefaultText(env: Env, props: seq<Property>): Option<string> {
    if props == [] then None
    else if props[0].Default? && ValOpt(env, props[0].condition) != NO then
      if props[0].value.Sym? then Some(CurrentText(env, props[0].value.sym)) else None
    else DefaultText(env, props[1..])
  }

  /** The ends of the first range whose condition is not `no`. */
  function ActiveRange(env: Env, props: seq<Property>): Option<(Symbol, Symbol)> {
    if props == [] then None
    else if props[0].Range? && ValOpt(env, props[0].condition) != NO then Some((props[0].low, props[0].high))
    else ActiveRange(env, props[1..])
  }

  /** The base in which the end s of a range of numbers of the given kind is read. */
  function BaseOf(s: Symbol, kind: SymbolType): nat {
    if s.Config? && s.kind == Int then 10 else if s.Config? && s.kind == Hex then 16
    else if kind == Int then 10 else 16
  }

  function EndOf(env: Env, s: Symbol, kind: SymbolType): int { Number(CurrentText(env, s), BaseOf(s, kind)) }

  function ValueOfText(kind: SymbolType, text: string): int { Number(text, if kind == Int then 10 else 16) }

  function TextOfValue(kind: SymbolType, n: int): string { if kind == Int then Decimal(n) else Hexadecimal(n) }

  /** Below the range its low end is taken, above it its high end. */
  function Clamped(env: Env, kind: SymbolType, range: (Symbol, Symbol), text: string): string {
    var low, high := EndOf(env, range.0, kind), EndOf(env, range.1, kind);
    if ValueOfText(kind, text) < low then TextOfValue(kind, low)
    else if ValueOfText(kind, text) > high then TextOfValue(kind, high)
    else text
  }

  /** `sym_validate_range` */
  function Validated(env: Env, kind: SymbolType, props: seq<Property>, text: string): string {
    var range := if kind == String then None else ActiveRange(env, props);
    if range.None? then text else Clamped(env, kind, range.value, text)
  }

  /** What a symbol without a type, or a literal, stores. */
  const UNTYPED: Cell := Cell(true, false, NO, NO, NO, NO, "")

  /** The visibility, the select bound and the direct dependency; they are calculated first. */
  function Bounded(g: Graph, env: Env, s: Symbol): Cell
    requires s in g.decls
  {
    var d := g.decls[s];
    Cell(true, false, NO, RaiseMod(ActsBoolean(g, s), PromptValue(env, d.props)),
         if d.selected.None? then NO else RaiseMod(IsLogical(s) && ActsBoolean(g, s), Val(env, d.selected.value)),
         RaiseMod(true, ValOpt(env, d.depends)), "")
  }

  /** What a boolean or tristate symbol stores. */
  function LogicalCell(g: Graph, users: Users, env: Env, s: Symbol): Cell
    requires s in g.decls
  {
    var c := Bounded(g, env, s);
    var default := if c.visible != NO && s in users.tri then None else DefaultValue(env, g.decls[s].props);
    Combine(g, s, UserValue(users, s), c, default)
  }

  /** What a symbol with a text stores. */
  function TextCell(g: Graph, users: Users, env: Env, s: Symbol): Cell
    requires s in g.decls && HasText(s)
  {
    var c := Bounded(g, env, s);
    var used := if c.visible != NO && s in users.text then Some(users.text[s]) else DefaultText(env, g.decls[s].props);
    var written := Written(c, used);
    written.(text := Validated(env, s.kind, g.decls[s].props, written.text))
  }

  /** What a symbol has to store when the other symbols have the values of env. */
  function Equation(g: Graph, users: Users, env: Env, s: Symbol): Cell
    requires s in g.decls
  {
    if IsLogical(s) then LogicalCell(g, users, env, s) else if HasText(s) then TextCell(g, users, env, s) else UNTYPED
  }

  /** The cell of a text symbol once its text is known, before the range is looked at. */
  function Written(c: Cell, used: Option<string>): Cell {
    c.(text := if used.Some? then used.value else "", write := c.visible != NO || used.Some?)
  }

  /** t satisfies the equation of every symbol. */
  ghost predicate Solves(g: Graph, users: Users, t: Table) {
    t.Keys == g.decls.Keys && forall s {:trigger Equation(g, users, EnvOf(g, t), s)} :: s in g.decls ==> t[s] == Equation(g, users, EnvOf(g, t), s)
  }

  // ---------------------------------------------------------------- evaluation on demand

  function Pending(t: Table): set<Symbol> { set s | s in t && !t[s].valid }

  /** Evaluation leaves the cells of valid symbols alone. */
  predicate Later(t: Table, u: Table) {
    u.Keys == t.Keys && Pending(u) <= Pending(t) && forall x :: x in t && t[x].valid ==> u[x] == t[x]
  }

  /** The same while the cell of s, which is valid, is being filled. */
  predicate LaterAround(t: Table, u: Table, s: Symbol) {
    && u.Keys == t.Keys && Pending(u) <= Pending(t) && s in t && u[s].valid
    && forall x :: x in t && t[x].valid && x != s ==> u[x] == t[x]
  }

  /** Storing into the cell of a valid symbol, or making it valid. */
  function Store(t: Table, s: Symbol, c: Cell): (r: Table)
    requires s in t && c.valid
    ensures LaterAround(t, r, s) && r[s] == c && (forall u :: u in t && u != s ==> r[u] == t[u])
    ensures Pending(r) == Pending(t) - {s}
  {
    t[s := c]
  }

  /** `sym_calc_value` */
  function Calc(g: Graph, users: Users, t: Table, s: Symbol): (r: Table)
    requires t.Keys == g.decls.Keys
    ensures Later(t, r) && (s in t ==> r[s].valid)
    decreases Pending(t), 0, 0
  {
    if s !in t || t[s].valid then t
    else
      var t1 := Store(t, s, t[s].(valid := true));
      if IsLogical(s) then OwnValue(g, users, Visibility(g, users, t1, s), s)
      else if HasText(s) then TextValue(g, users, Visibility(g, users, t1, s), s)
      else Store(t, s, UNTYPED)
  }

  /** The rest of `sym_calc_value` for a symbol with a text. */
  function TextValue(g: Graph, users: Users, t: Table, s: Symbol): (r: Table)
    requires t.Keys == g.decls.Keys && s in t && t[s].valid && HasText(s)
    ensures LaterAround(t, r, s)
    decreases Pending(t), 3, 0
  {
    var (t1, used) := UsedText(g, users, Store(t, s, t[s].(value := NO, text := "")), s);
    Validate(g, users, Store(t1, s, Written(t1[s], used)), s)
  }

  /** A visible symbol with a user text does not look at its defaults. */
  function UsedText(g: Graph, users: Users, t: Table, s: Symbol): (r: (Table, Option<string>))
    requires t.Keys == g.decls.Keys && s in t
    ensures Later(t, r.0)
    decreases Pending(t), 2, |g.decls[s].props| + 1
  {
    if t[s].visible != NO && s in users.text then (t, Some(users.text[s])) else DefaultTexts(g, users, t, g.decls[s].props)
  }

  /** `sym_get_default_prop` and the text of its symbol. */
  function DefaultTexts(g: Graph, users: Users, t: Table, props: seq<Property>): (r: (Table, Option<string>))
    requires t.Keys == g.decls.Keys
    ensures Later(t, r.0)
    decreases Pending(t), 2, |props|
  {
    if props == [] then (t, None)
    else if props[0].Default? then
      var (t1, condition) := EvalOpt(g, users, t, props[0].condition);
      if condition == NO then DefaultTexts(g, users, t1, props[1..])
      else if props[0].value.Sym? then
        var t2 := Calc(g, users, t1, props[0].value.sym);
        (t2, Some(CurrentText(EnvOf(g, t2), props[0].value.sym)))
      else (t1, None)
    else DefaultTexts(g, users, t, props[1..])
  }

  /** `sym_validate_range` for the text in the cell of s. */
  function Validate(g: Graph, users: Users, t: Table, s: Symbol): (r: Table)
    requires t.Keys == g.decls.Keys && s in t && t[s].valid && HasText(s)
    ensures LaterAround(t, r, s)
    decreases Pending(t), 2, |g.decls[s].props| + 1
  {
    if s.kind == String then t
    else
      var (t1, range) := Ranges(g, users, t, g.decls[s].props);
      if range.None? then t1 else Clamp(g, users, t1, s, range.value)
  }

  /** The text in the cell of s against the range that is active. */
  function Clamp(g: Graph, users: Users, t: Table, s: Symbol, range: (Symbol, Symbol)): (r: Table)
    requires t.Keys == g.decls.Keys && s in t && t[s].valid && HasText(s)
    ensures LaterAround(t, r, s)
    decreases Pending(t), 2, 0
  {
    var value := ValueOfText(s.kind, t[s].text);
    var (t1, low) := End(g, users, t, range.0, s.kind);
    if value < low then Store(t1, s, t1[s].(text := TextOfValue(s.kind, low)))
    else ClampHigh(g, users, t1, s, range.1)
  }

  /** The same against the high end x alone. */
  function ClampHigh(g: Graph, users: Users, t: Table, s: Symbol, x: Symbol): (r: Table)
    requires t.Keys == g.decls.Keys && s in t && t[s].valid && HasText(s)
    ensures LaterAround(t, r, s)
    decreases Pending(t), 1, 1
  {
    var (t1, high) := End(g, users, t, x, s.kind);
    if ValueOfText(s.kind, t[s].text) > high then Store(t1, s, t1[s].(text := TextOfValue(s.kind, high))) else t1
  }

  /** `sym_get_range_prop` */
  function Ranges(g: Graph, users: Users, t: Table, props: seq<Property>): (r: (Table, Option<(Symbol, Symbol)>))
    requires t.Keys == g.decls.Keys
    ensures Later(t, r.0)
    decreases Pending(t), 2, |props|
  {
    if props == [] then (t, None)
    else if props[0].Range? then
      var (t1, condition) := EvalOpt(g, users, t, props[0].condition);
      if condition == NO then Ranges(g, users, t1, props[1..]) else (t1, Some((props[0].low, props[0].high)))
    else Ranges(g, users, t, props[1..])
  }

  /** `sym_get_range_val` */
  function End(g: Graph, users: Users, t: Table, s: Symbol, kind: SymbolType): (r: (Table, int))
    requires t.Keys == g.decls.Keys
    ensures Later(t, r.0)
    decreases Pending(t), 1, 0
  {
    var t1 := Calc(g, users, t, s);
    (t1, EndOf(EnvOf(g, t1), s, kind))
  }

  /** The rest of `sym_calc_value` once the visibility is known. */
  function OwnValue(g: Graph, users: Users, t: Table, s: Symbol): (r: Table)
    requires t.Keys == g.decls.Keys && s in t && t[s].valid
    ensures LaterAround(t, r, s)
    decreases Pending(t), 3, 0
  {
    var (t1, default) := UsedDefault(g, users, Store(t, s, t[s].(value := NO, text := "")), s);
    Store(t1, s, Combine(g, s, UserValue(users, s), t1[s], default))
  }

  /** A visible symbol with a user value does not look at its defaults. */
  function UsedDefault(g: Graph, users: Users, t: Table, s: Symbol): (r: (Table, Option<Tristate>))
    requires t.Keys == g.decls.Keys && s in t
    ensures Later(t, r.0)
    decreases Pending(t), 2, |g.decls[s].props| + 1
  {
    if t[s].visible != NO && s in users.tri then (t, None) else Defaults(g, users, t, g.decls[s].props)
  }

  /** `sym_calc_visibility`: prompts, direct dependency, select bound */
  function Visibility(g: Graph, users: Users, t: Table, s: Symbol): (r: Table)
    requires t.Keys == g.decls.Keys && s in t && t[s].valid
    ensures LaterAround(t, r, s)
    decreases Pending(t), 4, 0
  {
    SelectBound(g, users, DirectDependency(g, users, PromptVisibility(g, users, t, s), s), s)
  }

  function PromptVisibility(g: Graph, users: Users, t: Table, s: Symbol): (r: Table)
    requires t.Keys == g.decls.Keys && s in t && t[s].valid
    ensures LaterAround(t, r, s)
    decreases Pending(t), 3, 0
  {
    var (t1, v) := Prompts(g, users, t, g.decls[s].props);
    Store(t1, s, t1[s].(visible := RaiseMod(ActsBoolean(g, s), v)))
  }

  function DirectDependency(g: Graph, users: Users, t: Table, s: Symbol): (r: Table)
    requires t.Keys == g.decls.Keys && s in t && t[s].valid
    ensures LaterAround(t, r, s)
    decreases Pending(t), 3, 0
  {
    var (t1, v) := EvalOpt(g, users, t, g.decls[s].depends);
    Store(t1, s, t1[s].(direct := RaiseMod(true, v)))
  }

  function SelectBound(g: Graph, users: Users, t: Table, s: Symbol): (r: Table)
    requires t.Keys == g.decls.Keys && s in t && t[s].valid
    ensures LaterAround(t, r, s)
    decreases Pending(t), 3, 0
  {
    var selected := g.decls[s].selected;
    var (t1, v) := if selected.None? then (t, NO) else Eval(g, users, t, selected.value);
    Store(t1, s, t1[s].(bound := RaiseMod(IsLogical(s) && ActsBoolean(g, s), v)))
  }

  function Prompts(g: Graph, users: Users, t: Table, props: seq<Property>): (r: (Table, Tristate))
    requires t.Keys == g.decls.Keys
    ensures Later(t, r.0)
    decreases Pending(t), 2, |props|
  {
    if props == [] then (t, NO)
    else if props[0].Prompt? then
      var (t1, a) := EvalOpt(g, users, t, props[0].condition);
      var (t2, b) := Prompts(g, users, t1, props[1..]);
      (t2, Apply(Or, a, b))
    else Prompts(g, users, t, props[1..])
  }

  /** `sym_get_default_prop` and the evaluation of its result. */
  function Defaults(g: Graph, users: Users, t: Table, props: seq<Property>): (r: (Table, Option<Tristate>))
    requires t.Keys == g.decls.Keys
    ensures Later(t, r.0)
    decreases Pending(t), 2, |props|
  {
    if props == [] then (t, None)
    else if props[0].Default? then
      var (t1, condition) := EvalOpt(g, users, t, props[0].condition);
      if condition == NO then Defaults(g, users, t1, props[1..])
      else
        var (t2, value) := Eval(g, users, t1, props[0].value);
        (t2, Some(Apply(And, value, condition)))
    else Defaults(g, users, t, props[1..])
  }

  function EvalOpt(g: Graph, users: Users, t: Table, e: Option<Expr>): (r: (Table, Tristate))
    requires t.Keys == g.decls.Keys
    ensures Later(t, r.0)
    decreases Pending(t), 1, if e.Some? then Size(e.value) + 1 else 0
  {
    if e.None? then (t, YES) else Eval(g, users, t, e.value)
  }

  /** `expr_calc_value` */
  function Eval(g: Graph, users: Users, t: Table, e: Expr): (r: (Table, Tristate))
    requires t.Keys == g.decls.Keys
    ensures Later(t, r.0)
    decreases Pending(t), 1, Size(e)
  {
    match e
    case Sym(s) =>
      var t1 := Calc(g, users, t, s);
      (t1, SymValue(EnvOf(g, t1), s))
    case Not(a) =>
      var (t1, v) := Eval(g, users, t, a);
      (t1, Negate(v))
    case Bin(op, l, r) =>
      var (t1, v) := Eval(g, users, t, l);
      var (t2, w) := Eval(g, users, t1, r);
      (t2, Apply(op, v, w))
    case Cmp(equal, a, b) =>
      var t1 := Calc(g, users, t, a);
      var t2 := Calc(g, users, t1, b);
      (t2, OfBool((SymText(EnvOf(g, t2), a) == SymText(EnvOf(g, t2), b)) == equal))
  }
}
