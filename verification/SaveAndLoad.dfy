/** Writing the configuration, reading it back as user values, and evaluating again. */
module SaveAndLoad {
  import opened Expressions
  import opened Numbers
  import opened ConfigText
  import opened MenuForest
  import opened MenuTree
  import opened MenuCollect
  import opened MenuGraph
  import opened SymbolGraph
  import opened Evaluation
  import opened EvaluationMeaning
  import opened Evaluator

  // ---------------------------------------------------------------- what is printed

  function CellValue(s: Symbol, c: Cell): ConfigText.Value {
    if IsLogical(s) then ConfigText.Value.Tri(c.value) else ConfigText.Value.Text(c.text)
  }

  /** What the walk over the entries prints: the titles of menus and comments that are visible, and each
      symbol with the flag WRITE once. */
  function Printed(info: Info, titles: map<Id, string>, t: Table, order: seq<Id>, done: set<Symbol>): seq<Entry> {
    if order == [] then []
    else if order[0] in info.sym then
      var s := info.sym[order[0]];
      if s in t && t[s].write && s !in done then [Entry(s.name, CellValue(s, t[s]))] + Printed(info, titles, t, order[1..], done + {s})
      else Printed(info, titles, t, order[1..], done)
    else if order[0] in titles then [Entry.Title(titles[order[0]])] + Printed(info, titles, t, order[1..], done)
    else Printed(info, titles, t, order[1..], done)
  }

  /** The symbol s has an entry. */
  predicate HasEntry(info: Info, order: seq<Id>, s: Symbol) { exists k :: k in order && k in info.sym && info.sym[k] == s }

  /** The reader knows the symbols by their names. */
  ghost predicate Named(kinds: Kinds, t: Table) {
    && (forall s :: s in t && IsTyped(s) ==> IsName(s.name) && s.name in kinds && kinds[s.name] == s.kind)
    && (forall s, u :: s in t && u in t && IsTyped(s) && IsTyped(u) && s.name == u.name ==> s == u)
  }

  /** Only symbols with a type are written. */
  ghost predicate TypedWrites(t: Table) { forall s :: s in t && t[s].write ==> IsTyped(s) }

  /** The entry for s, which has not been printed yet. */
  ghost predicate IsPrinted(info: Info, t: Table, order: seq<Id>, done: set<Symbol>, s: Symbol) {
    s in t && t[s].write && s !in done && HasEntry(info, order, s)
  }

  ghost predicate PrintedExactly(info: Info, t: Table, order: seq<Id>, done: set<Symbol>, entries: seq<Entry>) {
    && (forall e :: e in entries && e.Entry? ==> exists s :: IsPrinted(info, t, order, done, s) && e == Entry(s.name, CellValue(s, t[s])))
    && (forall s :: IsPrinted(info, t, order, done, s) ==> Entry(s.name, CellValue(s, t[s])) in entries)
  }

  lemma {:induction false} PrintedFacts(info: Info, titles: map<Id, string>, t: Table, order: seq<Id>, done: set<Symbol>, kinds: Kinds)
    requires Named(kinds, t) && TypedWrites(t)
    ensures PrintedExactly(info, t, order, done, Printed(info, titles, t, order, done))
    ensures Proper(kinds, Printed(info, titles, t, order, done))
    ensures forall e :: e in Printed(info, titles, t, order, done) && e.Title? ==> e.text in titles.Values
  {
    if order != [] {
      var k, rest := order[0], order[1..];
      forall s ensures HasEntry(info, order, s) <==> (k in info.sym && info.sym[k] == s) || HasEntry(info, rest, s) {
        assert k in order && forall j :: j in order <==> j == k || j in rest;
      }
      if k in info.sym && info.sym[k] in t && t[info.sym[k]].write && info.sym[k] !in done {
        PrintedFacts(info, titles, t, rest, done + {info.sym[k]}, kinds);
      } else {
        PrintedFacts(info, titles, t, rest, done, kinds);
      }
    }
  }

  /** The symbols that the entries of `order` add to those that have been printed. */
  function Marked(info: Info, t: Table, order: seq<Id>, done: set<Symbol>): set<Symbol> {
    done + set s | s in t && t[s].write && HasEntry(info, order, s)
  }

  /** What is printed follows the order of the entries. */
  lemma {:induction false} PrintedInOrder(info: Info, titles: map<Id, string>, t: Table, a: seq<Id>, b: seq<Id>, done: set<Symbol>)
    ensures Printed(info, titles, t, a + b, done) ==
            Printed(info, titles, t, a, done) + Printed(info, titles, t, b, Marked(info, t, a, done))
  {
    if a == [] {
      assert a + b == b && Marked(info, t, a, done) == done;
    } else {
      var k, rest := a[0], a[1..];
      assert (a + b)[0] == k && (a + b)[1..] == rest + b;
      MarkedNext(info, t, a, done);
      var next := if k in info.sym && info.sym[k] in t && t[info.sym[k]].write then done + {info.sym[k]} else done;
      if k in info.sym && info.sym[k] in done { assert done + {info.sym[k]} == done; }
      PrintedInOrder(info, titles, t, rest, b, next);
    }
  }

  lemma MarkedNext(info: Info, t: Table, order: seq<Id>, done: set<Symbol>)
    requires order != []
    ensures var k := order[0];
            Marked(info, t, order, done) ==
            Marked(info, t, order[1..], if k in info.sym && info.sym[k] in t && t[info.sym[k]].write then done + {info.sym[k]} else done)
  {
    var k, rest := order[0], order[1..];
    forall s ensures HasEntry(info, order, s) <==> (k in info.sym && info.sym[k] == s) || HasEntry(info, rest, s) {
      assert k in order && forall j :: j in order <==> j == k || j in rest;
    }
  }

  /** One entry prints its symbol, if that is to be written and has not been, or its title. */
  lemma PrintedOne(info: Info, titles: map<Id, string>, t: Table, k: Id, done: set<Symbol>)
    ensures Printed(info, titles, t, [k], done) ==
            if k in info.sym then
              var s := info.sym[k];
              if s in t && t[s].write && s !in done then [Entry(s.name, CellValue(s, t[s]))] else []
            else if k in titles then [Entry.Title(titles[k])] else []
  {
    assert [k][1..] == [];
  }

  // ---------------------------------------------------------------- what is loaded

  /** The user values of the symbols of the table after reading. */
  function Loaded(table: set<Symbol>, values: Values): Users {
    Users(map s | s in table && IsLogical(s) && s.name in values && values[s.name].Tri? :: values[s.name].tri,
          map s | s in table && HasText(s) && s.name in values && values[s.name].Text? :: values[s.name].text)
  }

  ghost predicate Different(entries: seq<Entry>) {
    forall i, j :: 0 <= i < j < |entries| && entries[i].Entry? && entries[j].Entry? ==> entries[i].name != entries[j].name
  }

  lemma DifferentAfter(e: Entry, later: seq<Entry>)
    requires Different(later)
    ensures (forall x :: x in later && x.Entry? && e.Entry? ==> x.name != e.name) ==> Different([e] + later)
  {
    var c := [e] + later;
    forall j | 0 < j < |c| ensures c[j] == later[j - 1] && c[j] in later {}
  }

  /** The values of entries with different names. */
  lemma {:induction false} ValuesOfEntries(values: Values, entries: seq<Entry>)
    requires Different(entries)
    ensures forall e :: e in entries && e.Entry? ==> e.name in ValuesOf(values, entries) && ValuesOf(values, entries)[e.name] == e.value
    ensures forall n :: (forall e :: e in entries && e.Entry? ==> e.name != n) ==>
              (n in ValuesOf(values, entries) <==> n in values) && (n in values ==> ValuesOf(values, entries)[n] == values[n])
    decreases |entries|
  {
    if entries != [] {
      var rest := entries[1..];
      assert forall e :: e in entries <==> e == entries[0] || e in rest;
      var next := if entries[0].Entry? then values[entries[0].name := entries[0].value] else values;
      ValuesOfEntries(next, rest);
      if entries[0].Entry? {
        forall e | e in rest && e.Entry? ensures e.name != entries[0].name {
          var i :| 0 <= i < |rest| && rest[i] == e;
          assert entries[i + 1] == e;
        }
      }
    }
  }

  lemma {:induction false} CarriedFacts(kinds: Kinds, entries: seq<Entry>, modules: bool)
    requires Proper(kinds, entries)
    ensures forall e :: e in Carried(kinds, entries, modules) <==> e in entries && e.Entry? && Storable(kinds[e.name], e.value, modules)
    ensures Different(Carried(kinds, entries, modules))
  {
    if entries != [] {
      var rest := entries[1..];
      assert entries[0] in entries && forall e :: e in entries <==> e == entries[0] || e in rest;
      CarriedFacts(kinds, rest, modules);
      forall e | e in rest && e.Entry? && entries[0].Entry? ensures e.name != entries[0].name {
        var i :| 0 <= i < |rest| && rest[i] == e;
        assert entries[i + 1] == e;
      }
      DifferentAfter(entries[0], Carried(kinds, rest, modules));
    }
  }

  /** What is written when the symbols in `done` have been printed already. */
  function SavedText(info: Info, titles: map<Id, string>, t: Table, order: seq<Id>, done: set<Symbol>, kinds: Kinds, modules: bool): string
    requires Named(kinds, t) && TypedWrites(t)
  {
    PrintedFacts(info, titles, t, order, done, kinds);
    WriteFile(kinds, Printed(info, titles, t, order, done), modules)
  }

  /** What is written stands on lines of its own, and titles are no comments about unset symbols. */
  ghost predicate Writable(kinds: Kinds, t: Table, titles: map<Id, string>) {
    && (forall s :: s in t && HasText(s) ==> OneLine(s.kind, CellValue(s, t[s])))
    && (forall k :: k in titles ==> Harmless(kinds, titles[k]))
  }

  /** The values that the format can carry are read back. */
  lemma ReadBack(info: Info, titles: map<Id, string>, t: Table, order: seq<Id>, kinds: Kinds, modules: bool)
    requires Named(kinds, t) && TypedWrites(t) && Writable(kinds, t, titles)
    requires forall x :: x in t && IsLogical(x) ==> Storable(x.kind, CellValue(x, t[x]), modules)
    ensures Proper(kinds, Printed(info, titles, t, order, {})) && PrintedExactly(info, t, order, {}, Printed(info, titles, t, order, {}))
    ensures ReadFile(kinds, map[], SavedText(info, titles, t, order, {}, kinds, modules)) ==
            ValuesOf(map[], Carried(kinds, Printed(info, titles, t, order, {}), modules))
  {
    var entries := Printed(info, titles, t, order, {});
    PrintedFacts(info, titles, t, order, {}, kinds);
    forall e | e in entries && e.Entry?
      ensures OneLine(kinds[e.name], e.value) && (e.value.Tri? ==> Storable(kinds[e.name], e.value, modules))
    {
      var x :| IsPrinted(info, t, order, {}, x) && e == Entry(x.name, CellValue(x, t[x]));
    }
    FileRoundTrip(kinds, map[], entries, modules);
  }

  /** A printed symbol is loaded with its value if the format can carry it, and nothing else is. */
  lemma LoadedUser(info: Info, titles: map<Id, string>, t: Table, order: seq<Id>, kinds: Kinds, modules: bool, s: Symbol)
    requires Named(kinds, t) && TypedWrites(t) && Writable(kinds, t, titles) && s in t && IsTyped(s)
    requires forall x :: x in t && IsLogical(x) ==> Storable(x.kind, CellValue(x, t[x]), modules)
    ensures Proper(kinds, Printed(info, titles, t, order, {}))
    ensures var loaded := Loaded(t.Keys, ReadFile(kinds, map[], SavedText(info, titles, t, order, {}, kinds, modules)));
            var kept := IsPrinted(info, t, order, {}, s) && Storable(s.kind, CellValue(s, t[s]), modules);
            && (IsLogical(s) ==> (s in loaded.tri <==> kept) && (kept ==> loaded.tri[s] == t[s].value))
            && (HasText(s) ==> (s in loaded.text <==> kept) && (kept ==> loaded.text[s] == t[s].text))
  {
    var entries := Printed(info, titles, t, order, {});
    ReadBack(info, titles, t, order, kinds, modules);
    CarriedFacts(kinds, entries, modules);
    ValuesOfEntries(map[], Carried(kinds, entries, modules));
    NameOfCarried(info, titles, t, order, kinds, modules, s);
  }

  lemma NameOfCarried(info: Info, titles: map<Id, string>, t: Table, order: seq<Id>, kinds: Kinds, modules: bool, s: Symbol)
    requires Named(kinds, t) && TypedWrites(t) && s in t && IsTyped(s)
    requires PrintedExactly(info, t, order, {}, Printed(info, titles, t, order, {})) && Proper(kinds, Printed(info, titles, t, order, {}))
    ensures var carried := Carried(kinds, Printed(info, titles, t, order, {}), modules);
            var own := Entry(s.name, CellValue(s, t[s]));
            && (own in carried <==> IsPrinted(info, t, order, {}, s) && Storable(s.kind, CellValue(s, t[s]), modules))
            && (forall e :: e in carried && e.Entry? && e.name == s.name ==> e == own)
  {
    var entries := Printed(info, titles, t, order, {});
    CarriedFacts(kinds, entries, modules);
    forall e | e in entries && e.Entry? && e.name == s.name ensures e == Entry(s.name, CellValue(s, t[s])) && IsPrinted(info, t, order, {}, s) {
      var x :| IsPrinted(info, t, order, {}, x) && e == Entry(x.name, CellValue(x, t[x]));
      assert x == s;
    }
  }

  // ---------------------------------------------------------------- what is evaluated then

  /** The value of s survives: it is invisible, or it does not exceed its visibility unless it is the select
      bound, or there is anything in the range of its text. */
  predicate Kept(g: Graph, t: Table, s: Symbol)
    requires s in t && s in g.decls
  {
    || t[s].visible == NO
    || (IsLogical(s) && (t[s].value <= t[s].visible || t[s].value == t[s].bound))
    || (HasText(s) &&
        var env := EnvOf(g, t);
        var range := RangeOf(env, s.kind, g.decls[s].props);
        range.None? || EndOf(env, range.value.0, s.kind) <= EndOf(env, range.value.1, s.kind))
  }

  /** User texts are valid; neither the reader nor the setter stores others. */
  ghost predicate ValidUsers(users: Users, modules: bool) {
    forall s :: s in users.text && HasText(s) ==> Storable(s.kind, ConfigText.Value.Text(users.text[s]), modules)
  }

  /** Printed numbers are valid. */
  lemma PrintedNumber(kind: SymbolType, n: int)
    requires kind == Int || kind == Hex
    ensures Storable(kind, ConfigText.Value.Text(TextOfValue(kind, n)), false)
  {
    var size := if n < 0 then -n else n;
    UnsignedDigits(size, 10);
    UnsignedLeading(size, 10);
    UnsignedDigits(n % INT_SIZE, 16);
    var d, h := Unsigned(size, 10), Unsigned(n % INT_SIZE, 16);
    assert forall c :: c in d ==> PlainDigit(c, 10);
    assert forall c :: c in h ==> PlainDigit(c, 16);
    assert d[0] in d;
    if kind == Int {
      assert IntDigits(Decimal(n)) == d;
    } else {
      assert HexDigits(Hexadecimal(n)) == h;
    }
  }

  lemma LogicalKept(g: Graph, users: Users, t: Table, s: Symbol, loaded: Users)
    requires Solves(g, users, t) && s in g.decls && IsLogical(s)
    requires t[s].visible != NO ==> s in loaded.tri && loaded.tri[s] == t[s].value
    ensures Equation(g, loaded, EnvOf(g, t), s) == t[s] <==> Kept(g, t, s)
  {
    var env, c := EnvOf(g, t), t[s];
    SolutionSane(g, users, t);
    assert c == Equation(g, users, env, s) == LogicalCell(g, users, env, s);
    if c.visible != NO {
      SolutionBounds(g, users, t, s);
      SameOwnValue(ActsBoolean(g, s), c.value, c.visible, c.bound);
      assert LogicalCell(g, loaded, env, s) ==
             c.(value := RaiseMod(ActsBoolean(g, s), Apply(Or, Apply(And, c.value, c.visible), c.bound)));
    }
  }

  /** A text that the format cannot carry is that of the default, within the range. */
  lemma DefaultKept(g: Graph, users: Users, t: Table, s: Symbol)
    requires Solves(g, users, t) && s in g.decls && HasText(s) && ValidUsers(users, g.modules)
    requires !Storable(s.kind, CellValue(s, t[s]), g.modules) && (s.kind == String ==> OneLine(s.kind, CellValue(s, t[s])))
    ensures t[s] == TextCell(g, Users(users.tri, map[]), EnvOf(g, t), s) && Kept(g, t, s)
  {
    var env, props := EnvOf(g, t), g.decls[s].props;
    assert t[s] == Equation(g, users, env, s) == TextCell(g, users, env, s);
    var range := RangeOf(env, s.kind, props);
    if range.Some? {
      PrintedNumber(s.kind, EndOf(env, range.value.0, s.kind));
      PrintedNumber(s.kind, EndOf(env, range.value.1, s.kind));
      SolutionTexts(g, users, t, s);
    }
  }

  lemma TextKept(g: Graph, users: Users, t: Table, s: Symbol, loaded: Users)
    requires Solves(g, users, t) && s in g.decls && HasText(s) && ValidUsers(users, g.modules)
    requires s.kind == String ==> OneLine(s.kind, CellValue(s, t[s]))
    requires t[s].visible != NO ==> (s in loaded.text <==> Storable(s.kind, CellValue(s, t[s]), g.modules))
    requires s in loaded.text && t[s].visible != NO ==> loaded.text[s] == t[s].text
    ensures Equation(g, loaded, EnvOf(g, t), s) == t[s] <==> Kept(g, t, s)
  {
    var env, c, props := EnvOf(g, t), t[s], g.decls[s].props;
    assert c == Equation(g, users, env, s) == TextCell(g, users, env, s);
    if c.visible != NO {
      if s in loaded.text {
        var range := RangeOf(env, s.kind, props);
        SolutionTexts(g, users, t, s);
        if range.Some? { ClampedExactly(env, s.kind, range.value, c.text); }
        assert TextCell(g, loaded, env, s) == c.(text := Validated(env, s.kind, props, c.text));
      } else {
        DefaultKept(g, users, t, s);
      }
    }
  }

  /** A visible symbol has an entry, and is written. */
  lemma VisibleIsPrinted(info: Info, c: Conditions, l: Listing, users: Users, t: Table, s: Symbol)
    requires Solves(GraphFrom(info, c, l), users, t) && s in l.table && IsTyped(s) && t[s].visible != NO
    requires forall x, p :: x in l.extra && p in l.extra[x] ==> p.Default?
    ensures IsPrinted(info, t, l.entries, {}, s)
  {
    var g := GraphFrom(info, c, l);
    var env := EnvOf(g, t);
    SolutionBounded(g, users, t, s);
    HighestPrompt(env, g.decls[s].props);
    var p :| p in g.decls[s].props && p.Prompt?;
    assert s in l.extra ==> forall q :: q in l.extra[s] ==> q.Default?;
    assert p in SymbolProperties(info, c, l.entries, s);
    PropertyHasEntry(info, c, l.entries, s);
    assert t[s] == Equation(g, users, env, s);
  }

  lemma {:induction false} PropertyHasEntry(info: Info, c: Conditions, entries: seq<Id>, s: Symbol)
    ensures SymbolProperties(info, c, entries, s) != [] ==> HasEntry(info, entries, s)
  {
    if entries != [] {
      assert entries[0] in entries && forall k :: k in entries[1..] ==> k in entries;
      PropertyHasEntry(info, c, entries[1..], s);
    }
  }

  /** The user values after writing the configuration and reading it back. */
  function Reloaded(info: Info, l: Listing, titles: map<Id, string>, t: Table, kinds: Kinds): Users
    requires Named(kinds, t) && TypedWrites(t)
  {
    Loaded(t.Keys, ReadFile(kinds, map[], SavedText(info, titles, t, l.entries, {}, kinds, l.modules)))
  }

  lemma SymbolKept(info: Info, c: Conditions, l: Listing, titles: map<Id, string>, users: Users, t: Table, kinds: Kinds, s: Symbol)
    requires Solves(GraphFrom(info, c, l), users, t) && ValidUsers(users, l.modules) && s in l.table && IsTyped(s)
    requires Named(kinds, t) && TypedWrites(t) && Writable(kinds, t, titles)
    requires forall x :: x in t && IsLogical(x) ==> Storable(x.kind, CellValue(x, t[x]), l.modules)
    requires forall x, p :: x in l.extra && p in l.extra[x] ==> p.Default?
    ensures var g := GraphFrom(info, c, l);
            Equation(g, Reloaded(info, l, titles, t, kinds), EnvOf(g, t), s) == t[s] <==> Kept(g, t, s)
  {
    var g, loaded := GraphFrom(info, c, l), Reloaded(info, l, titles, t, kinds);
    LoadedUser(info, titles, t, l.entries, kinds, l.modules, s);
    if t[s].visible != NO { VisibleIsPrinted(info, c, l, users, t, s); }
    if IsLogical(s) { LogicalKept(g, users, t, s, loaded); } else { TextKept(g, users, t, s, loaded); }
  }

  /** Writing a solution, reading it back and evaluating again gives the same solution exactly if every value
      is kept. */
  lemma SavedIsLoaded(info: Info, c: Conditions, l: Listing, titles: map<Id, string>, users: Users, t: Table, kinds: Kinds)
    requires Solves(GraphFrom(info, c, l), users, t) && ValidUsers(users, l.modules)
    requires Named(kinds, t) && Writable(kinds, t, titles)
    requires forall x, p :: x in l.extra && p in l.extra[x] ==> p.Default?
    ensures TypedWrites(t)
    ensures var g := GraphFrom(info, c, l);
            Solves(g, Reloaded(info, l, titles, t, kinds), t) <==> forall s :: s in l.table && IsTyped(s) ==> Kept(g, t, s)
  {
    var g := GraphFrom(info, c, l);
    LogicalStorable(g, users, t);
    UntypedCells(g, users, t);
    var loaded := Reloaded(info, l, titles, t, kinds);
    forall s | s in g.decls && IsTyped(s) ensures Equation(g, loaded, EnvOf(g, t), s) == t[s] <==> Kept(g, t, s) {
      SymbolKept(info, c, l, titles, users, t, kinds, s);
    }
    EachSymbol(g, users, loaded, t);
  }

  lemma UntypedCells(g: Graph, users: Users, t: Table)
    requires Solves(g, users, t)
    ensures TypedWrites(t) && forall s :: s in t && !IsTyped(s) ==> t[s] == UNTYPED
  {
    forall s | s in t && !IsTyped(s) ensures t[s] == UNTYPED { assert t[s] == Equation(g, users, EnvOf(g, t), s); }
  }

  lemma EachSymbol(g: Graph, users: Users, loaded: Users, t: Table)
    requires Solves(g, users, t)
    requires forall s :: s in g.decls && IsTyped(s) ==> (Equation(g, loaded, EnvOf(g, t), s) == t[s] <==> Kept(g, t, s))
    ensures Solves(g, loaded, t) <==> forall s :: s in g.decls && IsTyped(s) ==> Kept(g, t, s)
  {
    UntypedCells(g, users, t);
    if Solves(g, loaded, t) {
      forall s | s in g.decls && IsTyped(s) ensures Kept(g, t, s) { assert t[s] == Equation(g, loaded, EnvOf(g, t), s); }
    }
  }

  lemma LogicalStorable(g: Graph, users: Users, t: Table)
    requires Solves(g, users, t)
    ensures forall x :: x in t && IsLogical(x) ==> Storable(x.kind, CellValue(x, t[x]), g.modules)
  {
    SolutionSane(g, users, t);
    forall x | x in t && IsLogical(x) ensures Storable(x.kind, CellValue(x, t[x]), g.modules) {
      assert EnvOf(g, t).tri(x) == t[x].value;
    }
  }

  /** Only a default can be lost: a user value that is in effect is kept. */
  lemma UserValueKept(g: Graph, users: Users, t: Table, s: Symbol)
    requires Solves(g, users, t) && s in g.decls && IsLogical(s) && s in users.tri
    ensures Kept(g, t, s)
  {
    SolutionBounds(g, users, t, s);
  }

  /** The user values without those of invisible symbols. */
  function OnlyVisible(users: Users, t: Table): Users {
    Users(map s | s in users.tri && s in t && t[s].visible != NO :: users.tri[s],
          map s | s in users.text && s in t && t[s].visible != NO :: users.text[s])
  }

  /** `conf_read` drops the user values of invisible symbols, which changes nothing. */
  lemma InvisibleDropped(g: Graph, users: Users, t: Table)
    requires Solves(g, users, t)
    ensures Solves(g, OnlyVisible(users, t), t)
  {
    forall s | s in g.decls ensures Equation(g, OnlyVisible(users, t), EnvOf(g, t), s) == t[s] {
      assert t[s] == Equation(g, users, EnvOf(g, t), s);
      if IsTyped(s) { SolutionBounded(g, users, t, s); }
    }
  }

  // ---------------------------------------------------------------- values that are lost

  const ENTRY: Id := 0

  /** One symbol with one entry. */
  function OneEntry(x: Symbol, kinds: seq<Kind>): Info { Info(map[ENTRY := x], map[ENTRY := kinds], map[ENTRY := 1]) }

  function OneListing(x: Symbol): Listing { Listing([ENTRY], [ENTRY], [ENTRY], map[], {x}, true) }

  function OneCondition(visible: seq<Option<Expr>>): Conditions { Conditions(map[], map[ENTRY := visible]) }

  lemma OneDecl(x: Symbol, kinds: seq<Kind>, visible: seq<Option<Expr>>)
    requires |kinds| == |visible| && forall i :: 0 <= i < |kinds| ==> !kinds[i].Selects?
    ensures var g := GraphFrom(OneEntry(x, kinds), OneCondition(visible), OneListing(x));
            && g.decls.Keys == {x} && g.decls[x].selected == None && g.decls[x].depends == None
            && g.decls[x].props == seq(|kinds|, (i: nat) requires i < |kinds| => PropertyOf(kinds[i], visible[i]))
  {
    var info, c, l := OneEntry(x, kinds), OneCondition(visible), OneListing(x);
    assert [ENTRY][1..] == [] && [ENTRY][..0] == [];
    assert SymbolProperties(info, c, [ENTRY], x) == EntryProperties(info, c, ENTRY);
    NothingSelected(info, c, [ENTRY], x);
    NoDirect(info, c, [ENTRY], x);
    assert GraphFrom(info, c, l).decls[x] == DeclFrom(info, c, l, x);
  }

  /** A tristate with the default y whose prompt has the condition m: it is y, but once y is its user value,
      it is m. */
  lemma DefaultLost(x: Symbol)
    requires IsTristate(x)
    ensures var g := GraphFrom(OneEntry(x, [Definition, Kind.Title, Kind.Value(YES_EXPR)]), OneCondition([None, Some(Sym(SYMBOL_MOD)), None]), OneListing(x));
            var t := map[x := Cell(true, true, YES, MOD, NO, YES, "")];
            Solves(g, NOTHING_SET, t) && !Kept(g, t, x)
  {
    var kinds, visible := [Definition, Kind.Title, Kind.Value(YES_EXPR)], [None, Some(Sym(SYMBOL_MOD)), None];
    var g := GraphFrom(OneEntry(x, kinds), OneCondition(visible), OneListing(x));
    var t: Table := map[x := Cell(true, true, YES, MOD, NO, YES, "")];
    OneDecl(x, kinds, visible);
    var props := g.decls[x].props;
    assert props == [Other(None), Prompt(Some(Sym(SYMBOL_MOD))), Default(None, YES_EXPR)];
    var env := EnvOf(g, t);
    HighestPrompt(env, props);
    assert props[1] in props && ValOpt(env, props[1].condition) == MOD;
    FirstDefault(env, props, 2);
    assert Equation(g, NOTHING_SET, env, x) == LogicalCell(g, NOTHING_SET, env, x);
  }

  /** So the file that is written for it does not bring it back. */
  lemma DefaultNotReloaded(x: Symbol)
    requires IsTristate(x) && IsName(x.name)
    ensures var info, c := OneEntry(x, [Definition, Kind.Title, Kind.Value(YES_EXPR)]), OneCondition([None, Some(Sym(SYMBOL_MOD)), None]);
            var t := map[x := Cell(true, true, YES, MOD, NO, YES, "")];
            var kinds := map[x.name := x.kind];
            && Named(kinds, t) && TypedWrites(t) && Solves(GraphFrom(info, c, OneListing(x)), NOTHING_SET, t)
            && !Solves(GraphFrom(info, c, OneListing(x)), Reloaded(info, OneListing(x), map[], t, kinds), t)
  {
    var info, c := OneEntry(x, [Definition, Kind.Title, Kind.Value(YES_EXPR)]), OneCondition([None, Some(Sym(SYMBOL_MOD)), None]);
    DefaultLost(x);
    SavedIsLoaded(info, c, OneListing(x), map[], NOTHING_SET, map[x := Cell(true, true, YES, MOD, NO, YES, "")], map[x.name := x.kind]);
  }

  const TWO: Symbol := Const("2")
  const ONE: Symbol := Const("1")

  /** An int with a prompt and the empty range from 2 to 1: without a value it is 2, and loaded with 2 it is 1. */
  lemma NumberLost(x: Symbol)
    requires x.Config? && x.kind == Int
    ensures var g := GraphFrom(OneEntry(x, [Definition, Kind.Title, Ends(TWO, ONE)]), OneCondition([None, None, None]), OneListing(x));
            var t := map[x := Cell(true, true, NO, YES, NO, YES, "2")];
            Solves(g, NOTHING_SET, t) && !Kept(g, t, x)
  {
    var kinds := [Definition, Kind.Title, Ends(TWO, ONE)];
    var g := GraphFrom(OneEntry(x, kinds), OneCondition([None, None, None]), OneListing(x));
    var t: Table := map[x := Cell(true, true, NO, YES, NO, YES, "2")];
    OneDecl(x, kinds, [None, None, None]);
    assert g.decls[x].props == EmptyRange();
    NumberCell(g, EnvOf(g, t), x);
    SmallNumbers();
    assert t[x] == Equation(g, NOTHING_SET, EnvOf(g, t), x);
  }

  function EmptyRange(): seq<Property> { [Other(None), Prompt(None), Property.Range(None, TWO, ONE)] }

  lemma EmptyRangeValues(env: Env)
    ensures PromptValue(env, EmptyRange()) == YES && DefaultText(env, EmptyRange()) == None
    ensures ActiveRange(env, EmptyRange()) == Some((TWO, ONE))
  {
    var props := EmptyRange();
    var last := [Property.Range(None, TWO, ONE)];
    assert props[1..] == [Prompt(None)] + last && props[1..][1..] == last && last[1..] == [];
    HighestPrompt(env, props);
    assert props[1] in props && ValOpt(env, props[1].condition) == YES;
    assert ActiveRange(env, last) == Some((TWO, ONE)) && DefaultText(env, last) == None;
  }

  lemma NumberCell(g: Graph, env: Env, x: Symbol)
    requires x.Config? && x.kind == Int && x in g.decls && g.decls[x] == Decl(EmptyRange(), None, None)
    ensures Equation(g, NOTHING_SET, env, x) == Cell(true, true, NO, YES, NO, YES, "2")
    ensures RangeOf(env, x.kind, g.decls[x].props) == Some((TWO, ONE))
  {
    EmptyRangeValues(env);
    SmallNumbers();
    assert EndOf(env, TWO, Int) == 2;
    assert Equation(g, NOTHING_SET, env, x) == TextCell(g, NOTHING_SET, env, x);
  }

  lemma SmallNumbers()
    ensures Number("", 10) == 0 && Number("1", 10) == 1 && Number("2", 10) == 2 && Decimal(2) == "2"
  {
    NumberDecimal(1);
    NumberDecimal(2);
  }

  // ---------------------------------------------------------------- the writer's loop

  /** `conf_write` over the entries in the order of the walk.  A symbol is evaluated when its first entry is
      reached; once it is printed, its flag WRITE is cleared, so that it is not printed again. */
  method WriteConfiguration(solver: Solver, info: Info, titles: map<Id, string>, order: seq<Id>, kinds: Kinds)
    returns (text: string)
    requires solver.Valid() && Right(solver.graph, solver.users, solver.table) && Named(kinds, solver.table)
    modifies solver`table
    ensures solver.Valid() && Right(solver.graph, solver.users, solver.table)
    ensures var sol := SolutionTable(solver.graph, solver.users);
            TypedWrites(sol) && text == SavedText(info, titles, sol, order, {}, kinds, solver.graph.modules)
  {
    ghost var sol := SolutionTable(solver.graph, solver.users);
    SolutionExists(solver.graph, solver.users);
    UntypedCells(solver.graph, solver.users, sol);
    var cleared: set<Symbol> := {};
    text := "";
    for i := 0 to |order|
      invariant solver.Valid() && Right(solver.graph, solver.users, solver.table)
      invariant SavedText(info, titles, sol, order, {}, kinds, solver.graph.modules) ==
                text + SavedText(info, titles, sol, order[i..], cleared, kinds, solver.graph.modules)
    {
      assert order[i..] == [order[i]] + order[i + 1..];
      var line;
      line, cleared := WriteNext(solver, info, titles, order[i], order[i + 1..], cleared, kinds, sol);
      ghost var rest := SavedText(info, titles, sol, order[i + 1..], cleared, kinds, solver.graph.modules);
      assert text + (line + rest) == text + line + rest;
      text := text + line;
    }
  }

  /** One entry of the walk. */
  method WriteNext(solver: Solver, info: Info, titles: map<Id, string>, k: Id, ghost rest: seq<Id>, done: set<Symbol>, kinds: Kinds,
                   ghost sol: Table)
    returns (line: string, cleared: set<Symbol>)
    requires solver.Valid() && Right(solver.graph, solver.users, solver.table) && sol == SolutionTable(solver.graph, solver.users)
    requires Named(kinds, sol) && TypedWrites(sol)
    modifies solver`table
    ensures solver.Valid() && Right(solver.graph, solver.users, solver.table)
    ensures SavedText(info, titles, sol, [k] + rest, done, kinds, solver.graph.modules) ==
            line + SavedText(info, titles, sol, rest, cleared, kinds, solver.graph.modules)
  {
    line, cleared := "", done;
    NextText(info, titles, sol, k, rest, done, kinds, solver.graph.modules);
    if k in info.sym {
      var s := info.sym[k];
      CalcRight(solver.graph, solver.users, solver.table, s);
      solver.CalcValue(s);
      if s in solver.table && solver.table[s].write && s !in done {
        line := WriteEntry(kinds, Entry(s.name, CellValue(s, solver.table[s])), solver.graph.modules);
        cleared := done + {s};
      }
    } else if k in titles {
      line := WriteEntry(kinds, Entry.Title(titles[k]), solver.graph.modules);
    }
  }

  lemma NextText(info: Info, titles: map<Id, string>, t: Table, k: Id, rest: seq<Id>, done: set<Symbol>, kinds: Kinds, modules: bool)
    requires Named(kinds, t) && TypedWrites(t)
    ensures SavedText(info, titles, t, [k] + rest, done, kinds, modules) ==
            if k in info.sym && info.sym[k] in t && t[info.sym[k]].write && info.sym[k] !in done then
              var s := info.sym[k];
              WriteEntry(kinds, Entry(s.name, CellValue(s, t[s])), modules) + SavedText(info, titles, t, rest, done + {s}, kinds, modules)
            else if k !in info.sym && k in titles then
              WriteEntry(kinds, Entry.Title(titles[k]), modules) + SavedText(info, titles, t, rest, done, kinds, modules)
            else SavedText(info, titles, t, rest, done, kinds, modules)
  {
    assert ([k] + rest)[1..] == rest;
    PrintedFacts(info, titles, t, rest, done, kinds);
    if k in info.sym && info.sym[k] in t && t[info.sym[k]].write && info.sym[k] !in done {
      var s := info.sym[k];
      PrintedFacts(info, titles, t, rest, done + {s}, kinds);
      FirstWritten(kinds, Entry(s.name, CellValue(s, t[s])), Printed(info, titles, t, rest, done + {s}), modules);
    } else if k !in info.sym && k in titles {
      FirstWritten(kinds, Entry.Title(titles[k]), Printed(info, titles, t, rest, done), modules);
    }
  }

  lemma FirstWritten(kinds: Kinds, e: Entry, rest: seq<Entry>, modules: bool)
    requires (e.Entry? ==> e.name in kinds) && forall x :: x in rest && x.Entry? ==> x.name in kinds
    ensures WriteFile(kinds, [e] + rest, modules) == WriteEntry(kinds, e, modules) + WriteFile(kinds, rest, modules)
  {
    assert ([e] + rest)[1..] == rest;
  }
}
