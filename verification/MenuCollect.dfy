/** What `menu_finalize` collects for the symbols while it runs: the select bound `rev_dep` from the
    select properties, and the direct dependency `dir_dep` from the entries. */
module MenuCollect {
  import opened Expressions
  import opened MenuForest
  import opened MenuTree

  function Elements(s: seq<Id>): set<Id> { set x | x in s }

  function KindAt(info: Info, k: Id, i: nat): Kind {
    if k in info.props && i < |info.props[k]| then info.props[k][i] else Definition
  }

  function ConditionAt(c: Conditions, k: Id, i: nat): Option<Expr> {
    if k in c.visible && i < |c.visible[k]| then c.visible[k][i] else None
  }

  function PropertyCount(c: Conditions, k: Id): nat { if k in c.visible then |c.visible[k]| else 0 }

  /** e with the first n properties of entry k that select the target: each contributes "the symbol
      of k and the condition". */
  function EntrySelects(info: Info, c: Conditions, k: Id, n: nat, target: Symbol, e: Option<Expr>): Option<Expr> {
    if n == 0 then e
    else
      var before := EntrySelects(info, c, k, n - 1, target, e);
      if KindAt(info, k, n - 1) == Selects(target) && k in info.sym
      then AllocOr(before, AllocAnd(Some(Sym(info.sym[k])), ConditionAt(c, k, n - 1)))
      else before
  }

  /** The select bound of the target from the entries in the order in which they were handed their
      conditions. */
  function SelectsFrom(info: Info, c: Conditions, order: seq<Id>, target: Symbol): Option<Expr> {
    if order == [] then None
    else
      var k := order[|order| - 1];
      EntrySelects(info, c, k, PropertyCount(c, k), target, SelectsFrom(info, c, order[..|order| - 1], target))
  }

  /** The direct dependency of s from its entries, in the order in which they were finalised. */
  function DirectFrom(info: Info, c: Conditions, order: seq<Id>, s: Symbol): Option<Expr> {
    if order == [] then None
    else
      var k := order[|order| - 1];
      var before := DirectFrom(info, c, order[..|order| - 1], s);
      if k in info.sym && info.sym[k] == s then AllocOr(before, Lookup(c.dep, k)) else before
  }

  lemma {:induction false} NothingSelectedBy(info: Info, c: Conditions, k: Id, n: nat, s: Symbol)
    requires forall i: nat :: KindAt(info, k, i) != Selects(s)
    ensures EntrySelects(info, c, k, n, s, None) == None
  {
    if n > 0 { NothingSelectedBy(info, c, k, n - 1, s); }
  }

  /** A symbol that nothing selects has no bound. */
  lemma {:induction false} NothingSelected(info: Info, c: Conditions, order: seq<Id>, s: Symbol)
    requires forall k: Id, i: nat :: KindAt(info, k, i) != Selects(s)
    ensures SelectsFrom(info, c, order, s) == None
  {
    if order != [] {
      NothingSelected(info, c, order[..|order| - 1], s);
      var k := order[|order| - 1];
      NothingSelectedBy(info, c, k, PropertyCount(c, k), s);
    }
  }

  /** Without dependencies there is no direct dependency. */
  lemma {:induction false} NoDirect(info: Info, c: Conditions, order: seq<Id>, s: Symbol)
    requires c.dep == map[]
    ensures DirectFrom(info, c, order, s) == None
  {
    if order != [] { NoDirect(info, c, order[..|order| - 1], s); }
  }

  // ---------------------------------------------------------------- frames

  lemma {:induction false} EntrySelectsFrame(info: Info, c: Conditions, d: Conditions, k: Id, n: nat, target: Symbol,
                                             e: Option<Expr>)
    requires forall i: nat :: i < n ==> ConditionAt(c, k, i) == ConditionAt(d, k, i)
    ensures EntrySelects(info, c, k, n, target, e) == EntrySelects(info, d, k, n, target, e)
  {
    if n > 0 { EntrySelectsFrame(info, c, d, k, n - 1, target, e); }
  }

  lemma {:induction false} SelectsFrame(info: Info, c: Conditions, d: Conditions, order: seq<Id>, target: Symbol)
    requires SameOn(c, d, Elements(order))
    ensures SelectsFrom(info, c, order, target) == SelectsFrom(info, d, order, target)
  {
    if order != [] {
      var k := order[|order| - 1];
      assert k in Elements(order) && SameConditions(c, d, k);
      assert Elements(order[..|order| - 1]) <= Elements(order);
      SelectsFrame(info, c, d, order[..|order| - 1], target);
      EntrySelectsFrame(info, c, d, k, PropertyCount(c, k), target, SelectsFrom(info, c, order[..|order| - 1], target));
    }
  }

  lemma {:induction false} DirectFrame(info: Info, c: Conditions, d: Conditions, order: seq<Id>, s: Symbol)
    requires SameOn(c, d, Elements(order))
    ensures DirectFrom(info, c, order, s) == DirectFrom(info, d, order, s)
  {
    if order != [] {
      var k := order[|order| - 1];
      assert k in Elements(order) && SameConditions(c, d, k);
      assert Elements(order[..|order| - 1]) <= Elements(order);
      DirectFrame(info, c, d, order[..|order| - 1], s);
    }
  }

  lemma SelectsNext(info: Info, c: Conditions, order: seq<Id>, k: Id, target: Symbol)
    ensures SelectsFrom(info, c, order + [k], target) ==
            EntrySelects(info, c, k, PropertyCount(c, k), target, SelectsFrom(info, c, order, target))
  {
    assert (order + [k])[..|order + [k]| - 1] == order;
  }

  lemma DirectNext(info: Info, c: Conditions, order: seq<Id>, k: Id, s: Symbol)
    ensures DirectFrom(info, c, order + [k], s) ==
            if k in info.sym && info.sym[k] == s then AllocOr(DirectFrom(info, c, order, s), Lookup(c.dep, k))
            else DirectFrom(info, c, order, s)
  {
    assert (order + [k])[..|order + [k]| - 1] == order;
  }

  // ---------------------------------------------------------------- which entries have been collected

  /** The entries with a symbol and without a submenu of their own. */
  function SymbolLeaves(info: Info, f: Forest): set<Id> {
    if f.Nil? then {}
    else
      (if f.kids.Nil? && f.id in info.sym then {f.id} else {}) + SymbolLeaves(info, f.kids) + SymbolLeaves(info, f.rest)
  }

  lemma {:induction false} LeavesWithin(info: Info, f: Forest)
    ensures SymbolLeaves(info, f) <= Ids(f)
  {
    if f.Node? { LeavesWithin(info, f.kids); LeavesWithin(info, f.rest); }
  }

  /** The submenu of the entry k, wherever it stands. */
  function KidsOf(f: Forest, k: Id): Forest {
    if f.Nil? then Nil else if f.id == k then f.kids else if k in Ids(f.kids) then KidsOf(f.kids, k) else KidsOf(f.rest, k)
  }

  /** These are exactly the entries of symbols that were parsed without a submenu. */
  lemma {:induction false} LeavesExactly(info: Info, f: Forest, k: Id)
    requires Distinct(f) && k in Ids(f)
    ensures k in SymbolLeaves(info, f) <==> k in info.sym && KidsOf(f, k).Nil?
  {
    LeavesWithin(info, f.kids);
    LeavesWithin(info, f.rest);
    if k in Ids(f.kids) { LeavesExactly(info, f.kids, k); } else if k != f.id { LeavesExactly(info, f.rest, k); }
  }

  lemma {:induction false} LeavesOfTail(info: Info, f: Forest, t: Forest)
    requires TailOf(t, f) && Distinct(f)
    ensures SymbolLeaves(info, t) == SymbolLeaves(info, f) * Ids(t) && Inner(t) == Inner(f) * Ids(t)
  {
    LeavesWithin(info, f);
    IdsPreorder(f);
    InnerTail(t, f);
    if t != f {
      LeavesWithin(info, f.kids);
      LeavesWithin(info, f.rest);
      IdsPreorder(f.rest);
      InnerTail(t, f.rest);
      LeavesOfTail(info, f.rest, t);
    } else {
      LeavesWithin(info, t);
    }
  }

  /** The sets of entries collected so far in a loop over f: everything before the tail todo. */
  ghost predicate Collected(info: Info, f: Forest, todo: Forest, h0: set<Id>, h: set<Id>, e0: set<Id>, e: set<Id>) {
    h == h0 + (Inner(f) - Ids(todo)) && e == e0 + (SymbolLeaves(info, f) - Ids(todo))
  }

  lemma CollectedNothing(info: Info, f: Forest, h: set<Id>, e: set<Id>)
    ensures Collected(info, f, f, h, h, e, e)
  {
    LeavesWithin(info, f);
  }

  lemma ElementsNext(s: seq<Id>, k: Id)
    ensures Elements(s + [k]) == Elements(s) + {k}
  {
  }

  lemma StepSets(all: set<Id>, part: set<Id>, tail: set<Id>, left: set<Id>, s0: set<Id>, s: set<Id>)
    requires left <= tail && part == all * tail && s0 !! all && s == s0 + (all - tail)
    ensures s !! part && s + (part - left) == s0 + (all - left)
  {
  }

  /** What a call on the first entry of the tail t, which leaves the tail `left`, may rely on and adds. */
  lemma CollectedStep(info: Info, f: Forest, t: Forest, left: Forest, h0: set<Id>, h: set<Id>, e0: set<Id>, e: set<Id>)
    requires Distinct(f) && TailOf(t, f) && t.Node? && TailOf(left, t.rest)
    requires h0 !! Inner(f) && e0 !! Ids(f) && Collected(info, f, t, h0, h, e0, e)
    ensures h !! Inner(t) && e !! Ids(t)
    ensures Collected(info, f, left, h0, h + (Inner(t) - Ids(left)), e0, e + (SymbolLeaves(info, t) - Ids(left)))
  {
    LeavesOfTail(info, f, t);
    TailFacts(left, t.rest);
    InnerTail(t, f);
    InnerTail(left, t.rest);
    LeavesWithin(info, f);
    StepSets(Inner(f), Inner(t), Ids(t), Ids(left), h0, h);
    StepSets(SymbolLeaves(info, f), SymbolLeaves(info, t), Ids(t), Ids(left), e0, e);
  }

  lemma InnerOfNode(info: Info, m: Id, kids: Forest, rest: Forest)
    requires Distinct(Node(m, kids, rest))
    ensures Inner(Node(m, kids, rest)) == Ids(kids) + Inner(rest)
    ensures SymbolLeaves(info, Node(m, kids, rest)) <= Ids(Node(m, kids, rest))
  {
    IdsPreorder(rest);
    LeavesWithin(info, Node(m, kids, rest));
  }

  /** The two parts of `menu_finalize` together. */
  lemma SeenHere(info: Info, c: Conditions, m: Id, kids: Forest, rest: Forest, h0: set<Id>, h: set<Id>, e0: set<Id>, e: set<Id>)
    requires Distinct(Node(m, kids, rest))
    requires kids.Node? ==> h == h0 + Ids(kids) && e == e0 + SymbolLeaves(info, kids)
    requires kids.Nil? && m in info.sym ==> Collected(info, rest, FinalizedTaken(info, c, m, rest).1, h0, h, e0 + {m}, e)
    requires kids.Nil? && m !in info.sym ==> h == h0 && e == e0
    ensures Collected(info, Node(m, kids, rest), Finalized(info, c, m, kids, rest).1, h0, h, e0, e)
  {
    var left := Finalized(info, c, m, kids, rest).1;
    FinalizedTail(info, c, m, kids, rest);
    InnerTail(left, rest);
    SetsOfNode(info, m, kids, rest, Ids(left));
    SetsOfAll(info, rest);
  }

  lemma SetsOfNode(info: Info, m: Id, kids: Forest, rest: Forest, left: set<Id>)
    requires Distinct(Node(m, kids, rest)) && left <= Ids(rest)
    ensures Inner(Node(m, kids, rest)) - left == Ids(kids) + (Inner(rest) - left)
    ensures SymbolLeaves(info, Node(m, kids, rest)) - left ==
            (if kids.Nil? && m in info.sym then {m} else {}) + SymbolLeaves(info, kids) + (SymbolLeaves(info, rest) - left)
  {
    InnerOfNode(info, m, kids, rest);
    MinusLeft({}, Ids(kids), Inner(rest), left);
    LeavesOfNode(info, m, kids, rest, left);
  }

  lemma LeavesOfNode(info: Info, m: Id, kids: Forest, rest: Forest, left: set<Id>)
    requires Distinct(Node(m, kids, rest)) && left <= Ids(rest)
    ensures SymbolLeaves(info, Node(m, kids, rest)) - left ==
            (if kids.Nil? && m in info.sym then {m} else {}) + SymbolLeaves(info, kids) + (SymbolLeaves(info, rest) - left)
  {
    LeavesWithin(info, kids);
    var own := if kids.Nil? && m in info.sym then {m} else {};
    assert own !! left && SymbolLeaves(info, kids) !! left;
    assert SymbolLeaves(info, Node(m, kids, rest)) == own + SymbolLeaves(info, kids) + SymbolLeaves(info, rest);
    MinusLeft(own, SymbolLeaves(info, kids), SymbolLeaves(info, rest), left);
  }

  lemma MinusLeft(a: set<Id>, b: set<Id>, c: set<Id>, left: set<Id>)
    requires a !! left && b !! left
    ensures a + b + c - left == a + b + (c - left)
  {
  }

  lemma SetsOfAll(info: Info, rest: Forest)
    ensures Inner(rest) - Ids(rest) == {} && SymbolLeaves(info, rest) - Ids(rest) == {}
  {
    LeavesWithin(info, rest);
  }

  /** What a call on the first entry of t may rely on, and what it adds. */
  lemma CollectedBefore(info: Info, f: Forest, t: Forest, h0: set<Id>, h: set<Id>, e0: set<Id>, e: set<Id>)
    requires Distinct(f) && TailOf(t, f) && t.Node? && h0 !! Inner(f) && e0 !! Ids(f) && Collected(info, f, t, h0, h, e0, e)
    ensures h !! Inner(t) && e !! Ids(t)
  {
    NilTail(t.rest);
    CollectedStep(info, f, t, Nil, h0, h, e0, e);
  }

  lemma CollectedCall(info: Info, c: Conditions, f: Forest, t: Forest, h0: set<Id>, h: set<Id>, e0: set<Id>, e: set<Id>)
    requires Distinct(f) && TailOf(t, f) && t.Node? && h0 !! Inner(f) && e0 !! Ids(f) && Collected(info, f, t, h0, h, e0, e)
    ensures var left := Finalized(info, c, t.id, t.kids, t.rest).1;
            Collected(info, f, left, h0, h + (Inner(t) - Ids(left)), e0, e + (SymbolLeaves(info, t) - Ids(left)))
  {
    FinalizedTail(info, c, t.id, t.kids, t.rest);
    CollectedStep(info, f, t, Finalized(info, c, t.id, t.kids, t.rest).1, h0, h, e0, e);
  }

  lemma CollectedPlus(info: Info, f: Forest, todo: Forest, h0: set<Id>, h: set<Id>, e0: set<Id>, e: set<Id>, m: Id)
    requires Collected(info, f, todo, h0, h, e0, e)
    ensures Collected(info, f, todo, h0, h, e0 + {m}, e + {m})
  {
  }

  /** The entries of a list, and then what is below them. */
  lemma SubmenuSets(info: Info, kids: Forest, h0: set<Id>, h1: set<Id>, h: set<Id>, e0: set<Id>, e: set<Id>)
    requires h1 == h0 + Tops(kids) && Collected(info, kids, Nil, h1, h, e0, e)
    ensures h == h0 + Ids(kids) && e == e0 + SymbolLeaves(info, kids)
  {
    IdsPreorder(kids);
    assert Tops(kids) + Inner(kids) == Ids(kids);
  }
}
