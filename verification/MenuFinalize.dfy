/** `menu_finalize` on linked entries: it relinks next, list and parent pointers while it walks
    them, and overwrites dependencies and prompt conditions. */
module MenuFinalize {
  import opened Expressions
  import opened MenuForest
  import opened MenuDependencies
  import opened MenuTree
  import opened MenuCollect

  lemma PartlyHandedFacts(dep: Option<Expr>, own: seq<Option<Expr>>, symbol: Option<Symbol>, n: nat)
    requires n <= |own|
    ensures n == 0 ==> PartlyHanded(dep, own, symbol, n) == own
    ensures n < |own| ==>
              PartlyHanded(dep, own, symbol, n)[n] == own[n] &&
              PartlyHanded(dep, own, symbol, n + 1) ==
              PartlyHanded(dep, own, symbol, n)[n := HandDownPrompt(dep, own[n], symbol)]
  {
  }

  lemma SameExceptThrough(c: Conditions, d: Conditions, e: Conditions, a: set<Id>, b: set<Id>)
    requires SameExcept(c, d, a) && SameExcept(d, e, b)
    ensures SameExcept(c, e, a + b)
  {
    forall x: Id | x !in a + b ensures SameConditions(c, e, x) {
      assert SameConditions(c, d, x) && SameConditions(d, e, x);
    }
  }

  /** The entries of m first, then what is below them. */
  lemma SubmenuHanded(info: Info, c: Conditions, d: Conditions, e: Conditions, m: Id, kids: Forest)
    requires Distinct(kids) && m !in Ids(kids) && forall k :: k in Tops(kids) ==> HandedEntry(info, c, d, m, k)
    requires SameExcept(c, d, Tops(kids)) && SameExcept(d, e, Inner(kids)) && HandedBefore(info, d, e, kids, Nil)
    ensures HandedDown(info, c, e, m, kids) && SameExcept(c, e, Ids(kids))
  {
    IdsPreorder(kids);
    assert SameConditions(d, e, m);
    HandedCombine(info, c, d, e, m, kids);
    SameExceptThrough(c, d, e, Tops(kids), Inner(kids));
    assert Tops(kids) + Inner(kids) == Ids(kids);
  }

  /** The entry k with the submenu `kids` has become one with `newKids` in front of `newRest`. */
  lemma FlattenStep(info: Info, done: Forest, k: Id, kids: Forest, rest: Forest, newKids: Forest, newRest: Forest)
    requires Flattened(info, Node(k, kids, rest)) == Node(k, newKids, Flattened(info, newRest))
    requires Distinct(Node(k, newKids, newRest)) && Ids(done) !! Ids(Node(k, kids, rest))
    requires Ids(newKids) + Ids(newRest) == Ids(kids) + Ids(rest)
    ensures var next := Append(done, Node(k, newKids, Nil));
            && Append(next, Flattened(info, newRest)) == Append(done, Flattened(info, Node(k, kids, rest)))
            && Ids(next) + Ids(newRest) == Ids(done) + Ids(Node(k, kids, rest)) && Ids(next) !! Ids(newRest)
  {
    var top := Node(k, newKids, Nil);
    FlattenIds(done, k, kids, rest, newKids, newRest);
    AppendAssociative(done, top, Flattened(info, newRest));
    assert Append(top, Flattened(info, newRest)) == Node(k, newKids, Flattened(info, newRest));
  }

  lemma FlattenIds(done: Forest, k: Id, kids: Forest, rest: Forest, newKids: Forest, newRest: Forest)
    requires Distinct(Node(k, newKids, newRest)) && Ids(done) !! Ids(Node(k, kids, rest))
    requires Ids(newKids) + Ids(newRest) == Ids(kids) + Ids(rest)
    ensures var next := Append(done, Node(k, newKids, Nil));
            Ids(next) + Ids(newRest) == Ids(done) + Ids(Node(k, kids, rest)) && Ids(next) !! Ids(newRest)
  {
    AppendFacts(done, Node(k, newKids, Nil));
    assert Ids(Node(k, newKids, Nil)) == {k} + Ids(newKids);
    MovedIds(Ids(done), k, Ids(kids), Ids(rest), Ids(newKids), Ids(newRest));
  }

  /** The same about the sets alone. */
  lemma MovedIds(done: set<Id>, k: Id, kids: set<Id>, rest: set<Id>, newKids: set<Id>, newRest: set<Id>)
    requires newKids + newRest == kids + rest && k !in newRest && newKids !! newRest && done !! {k} + kids + rest
    ensures done + ({k} + newKids) + newRest == done + ({k} + kids + rest)
    ensures done + ({k} + newKids) !! newRest
  {
    assert {k} + newKids + newRest == {k} + kids + rest;
    assert newRest <= kids + rest;
  }

  /** One more entry of m handed down, from d to e. */
  lemma HandedOneMore(info: Info, c: Conditions, d: Conditions, e: Conditions, m: Id, k: Id, done: set<Id>)
    requires SameExcept(c, d, done) && SameExcept(d, e, {k}) && k !in done && k != m
    requires HandedEntry(info, d, e, m, k) && forall j :: j in done ==> HandedEntry(info, c, d, m, j)
    ensures SameExcept(c, e, done + {k}) && forall j :: j in done + {k} ==> HandedEntry(info, c, e, m, j)
  {
    assert SameConditions(c, d, k) && SameConditions(d, e, m);
    HandedEntryFrame(info, d, c, e, e, m, k);
    forall j | j in done ensures HandedEntry(info, c, e, m, j) {
      assert SameConditions(d, e, j);
      HandedEntryFrame(info, c, c, d, e, m, j);
    }
    forall x: Id | x !in done + {k} ensures SameConditions(c, e, x) {
      assert SameConditions(c, d, x) && SameConditions(d, e, x);
    }
  }

  class Menus {
    const info: Info
    var links: Links
    var conditions: Conditions
    /** `rev_dep.expr` and `dir_dep.expr` of the symbols. */
    var selects: map<Symbol, Expr>
    var direct: map<Symbol, Expr>
    /** The entries that have got their conditions and that have been finalised, in that order. */
    ghost var handed: seq<Id>
    ghost var entered: seq<Id>

    constructor (info: Info, links: Links, conditions: Conditions)
      ensures this.info == info && this.links == links && this.conditions == conditions
      ensures handed == entered == [] && Gathered()
    {
      this.info, this.links, this.conditions := info, links, conditions;
      selects, direct, handed, entered := map[], map[], [], [];
    }

    /** The collected expressions are those of the entries seen so far. */
    ghost predicate Gathered()
      reads this`conditions, this`selects, this`direct, this`handed, this`entered
    {
      && (forall s :: Lookup(selects, s) == SelectsFrom(info, conditions, handed, s))
      && (forall s :: Lookup(direct, s) == DirectFrom(info, conditions, entered, s))
    }

    /** Hands the condition of m down to its entry k: to its dependency and to all its properties.  A
        select property adds to the bound of its target. */
    method HandDownEntry(m: Id, k: Id)
      requires m != k && Gathered() && k !in handed && k !in entered
      modifies this`conditions, this`selects, this`handed
      ensures HandedEntry(info, old(conditions), conditions, m, k)
      ensures SameExcept(old(conditions), conditions, {k})
      ensures Gathered() && handed == old(handed) + [k]
    {
      ghost var before := conditions;
      var dep := HandDown(Guard(info, conditions, m), Lookup(conditions.dep, k));
      conditions := conditions.(dep := Store(conditions.dep, k, dep));
      if k in conditions.visible { HandDownProperties(k, dep); } 
      EntryGathered(before, k);
    }

    /** The new entry is added to what is gathered. */
    ghost method EntryGathered(before: Conditions, k: Id)
      requires SameExcept(before, conditions, {k}) && k !in handed && k !in entered
      requires forall s :: Lookup(selects, s) == EntrySelects(info, conditions, k, PropertyCount(conditions, k), s, SelectsFrom(info, before, handed, s))
      requires forall s :: Lookup(direct, s) == DirectFrom(info, before, entered, s)
      modifies this`handed
      ensures Gathered() && handed == old(handed) + [k]
    {
      forall s ensures Lookup(selects, s) == SelectsFrom(info, conditions, handed + [k], s) {
        SelectsFrame(info, before, conditions, handed, s);
        SelectsNext(info, conditions, handed, k, s);
      }
      forall s ensures Lookup(direct, s) == DirectFrom(info, conditions, entered, s) {
        DirectFrame(info, before, conditions, entered, s);
      }
      handed := handed + [k];
    }

    /** The loop over the properties of entry k. */
    method HandDownProperties(k: Id, dep: Option<Expr>)
      requires k in conditions.visible
      modifies this`conditions, this`selects
      ensures conditions.dep == old(conditions).dep
      ensures conditions.visible == old(conditions).visible[k :=
                HandedConditions(dep, Some(old(conditions).visible[k]), Lookup(info.sym, k)).value]
      ensures forall s :: Lookup(selects, s) ==
                EntrySelects(info, conditions, k, PropertyCount(conditions, k), s, Lookup(old(selects), s))
    {
      ghost var own := conditions.visible[k];
      var n := |conditions.visible[k]|;
      PartlyHandedFacts(dep, own, Lookup(info.sym, k), 0);
      for i := 0 to n
        invariant k in conditions.visible && conditions.visible[k] == PartlyHanded(dep, own, Lookup(info.sym, k), i)
        invariant conditions == old(conditions).(visible := old(conditions).visible[k := conditions.visible[k]])
        invariant forall s :: Lookup(selects, s) == EntrySelects(info, conditions, k, i, s, Lookup(old(selects), s))
      {
        ghost var earlier := conditions;
        HandDownProperty(k, i, dep);
        PartlyHandedFacts(dep, own, Lookup(info.sym, k), i);
        forall s ensures Lookup(selects, s) == EntrySelects(info, conditions, k, i + 1, s, Lookup(old(selects), s)) {
          EntrySelectsFrame(info, earlier, conditions, k, i, s, Lookup(old(selects), s));
        }
      }
    }

    /** One property: its condition, and what it selects. */
    method HandDownProperty(k: Id, i: nat, dep: Option<Expr>)
      requires k in conditions.visible && i < |conditions.visible[k]|
      modifies this`conditions, this`selects
      ensures var own := old(conditions).visible[k];
              conditions == old(conditions).(visible := old(conditions).visible[k :=
                own[i := HandDownPrompt(dep, own[i], Lookup(info.sym, k))]])
      ensures forall s :: Lookup(selects, s) ==
                if KindAt(info, k, i) == Selects(s) && k in info.sym
                then AllocOr(Lookup(old(selects), s), AllocAnd(Some(Sym(info.sym[k])), ConditionAt(conditions, k, i)))
                else Lookup(old(selects), s)
    {
      var condition := HandDownPrompt(dep, conditions.visible[k][i], Lookup(info.sym, k));
      conditions := conditions.(visible := conditions.visible[k := conditions.visible[k][i := condition]]);
      if KindAt(info, k, i).Selects? && k in info.sym {
        var target := KindAt(info, k, i).target;
        var bound := AllocOr(Lookup(selects, target), AllocAnd(Some(Sym(info.sym[k])), condition));
        selects := selects[target := bound.value];
      }
    }

    /** The loop over the entries of m that hands down its condition. */
    method HandDownTo(m: Id, ghost kids: Forest)
      requires Linked(links, Lookup(links.list, m), Some(m), kids) && Distinct(kids) && m !in Ids(kids)
      requires Gathered() && Elements(handed) !! Tops(kids) && Elements(entered) !! Tops(kids)
      modifies this`conditions, this`selects, this`handed
      ensures forall k :: k in Tops(kids) ==> HandedEntry(info, old(conditions), conditions, m, k)
      ensures SameExcept(old(conditions), conditions, Tops(kids))
      ensures Gathered() && Elements(handed) == Elements(old(handed)) + Tops(kids)
    {
      var cur := Lookup(links.list, m);
      ghost var before, h0 := conditions, Elements(handed);
      ghost var done: set<Id>, todo := {}, kids;
      IdsPreorder(kids);
      while cur.Some?
        invariant Linked(links, cur, Some(m), todo) && Distinct(todo)
        invariant done + Tops(todo) == Tops(kids) && done !! Tops(todo)
        invariant HandedSoFar(m, before, done) && Elements(handed) == h0 + done
        decreases todo
      {
        IdsPreorder(todo.rest);
        assert cur.value in Tops(todo) && cur.value in Tops(kids);
        HandDownNext(m, cur.value, before, done);
        done := done + {cur.value};
        cur, todo := Lookup(links.next, cur.value), todo.rest;
      }
    }

    ghost predicate HandedSoFar(m: Id, before: Conditions, done: set<Id>)
      reads this`conditions, this`selects, this`direct, this`handed, this`entered
    {
      Gathered() && SameExcept(before, conditions, done) &&
      forall k :: k in done ==> HandedEntry(info, before, conditions, m, k)
    }

    /** One entry of that loop. */
    method HandDownNext(m: Id, k: Id, ghost before: Conditions, ghost done: set<Id>)
      requires HandedSoFar(m, before, done) && k !in done && k != m
      requires k !in Elements(handed) && k !in Elements(entered)
      modifies this`conditions, this`selects, this`handed
      ensures HandedSoFar(m, before, done + {k}) && Elements(handed) == Elements(old(handed)) + {k}
    {
      ghost var earlier := conditions;
      ElementsNext(handed, k);
      HandDownEntry(m, k);
      HandedOneMore(info, before, earlier, conditions, m, k, done);
    }

    /** The test on the sibling k of m: its dependency against the prompt of m. */
    method WouldTake(m: Id, k: Id) returns (b: bool)
      ensures b == Takes(info, conditions, m, k)
    {
      b := m in info.sym && Adopts(Guard(info, conditions, k), PromptCondition(info, conditions, m), info.sym[m]);
    }

    /** `last_menu->parent = parent` for the entries below k; returns the last one. */
    method Reparent(k: Id, m: Id, ghost kids: Forest) returns (last: Id)
      requires kids.Node? && Linked(links, Lookup(links.list, k), Some(k), kids) && Distinct(kids) && k !in Ids(kids)
      modifies this`links
      ensures links == old(links).(parent := links.parent)
      ensures Linked(links, Lookup(links.list, k), Some(m), kids) && last == Last(kids)
      ensures SameOutside(old(links), links, Ids(kids))
    {
      last := links.list[k];
      ghost var before := links;
      ghost var done, todo := Nil, kids;
      while true
        invariant todo.Node? && last == todo.id && Append(done, todo) == kids && Last(todo) == Last(kids)
        invariant links == before.(parent := links.parent)
        invariant LinkedTo(links, Lookup(links.list, k), Some(m), done, Some(last)) && Linked(links, Some(last), Some(k), todo)
        invariant SameOutside(before, links, Ids(kids))
        decreases todo
      {
        ghost var top := Node(last, todo.kids, Nil);
        AppendFacts(done, todo);
        ReparentOne(k, m, last, done, todo);
        AppendAssociative(done, top, todo.rest);
        assert Append(top, todo.rest) == todo;
        done := Append(done, top);
        if last !in links.next {
          AppendFacts(done, Nil);
          break;
        }
        last := links.next[last];
        todo := todo.rest;
      }
    }

    /** One entry changes its parent from k to m; the entries before it already have. */
    method ReparentOne(k: Id, m: Id, x: Id, ghost done: Forest, ghost todo: Forest)
      requires todo.Node? && todo.id == x && Distinct(todo) && Ids(done) !! Ids(todo) && k !in Ids(todo)
      requires LinkedTo(links, Lookup(links.list, k), Some(m), done, Some(x)) && Linked(links, Some(x), Some(k), todo)
      modifies this`links
      ensures links == old(links).(parent := old(links).parent[x := m])
      ensures LinkedTo(links, Lookup(links.list, k), Some(m), Append(done, Node(x, todo.kids, Nil)), Lookup(links.next, x))
      ensures Linked(links, Lookup(links.next, x), Some(k), todo.rest)
      ensures SameOutside(old(links), links, {x})
    {
      ghost var before := links;
      links := links.(parent := links.parent[x := m]);
      LinkedFrame(before, links, Lookup(links.list, x), Some(x), todo.kids, None);
      LinkedFrame(before, links, Lookup(links.next, x), Some(k), todo.rest, None);
      LinkedGrows(before, links, Lookup(links.list, k), Some(m), done, Node(x, todo.kids, Nil), {x});
    }

    /** Splices the submenu of k into the list of m, behind k. */
    method SpliceUp(m: Id, k: Id, ghost kids: Forest, ghost rest: Forest)
      requires kids.Node? && Linked(links, Some(k), Some(m), Node(k, kids, rest)) && Distinct(Node(k, kids, rest))
      modifies this`links
      ensures Linked(links, Some(k), Some(m), Node(k, Nil, Append(kids, rest)))
      ensures SameOutside(old(links), links, Ids(Node(k, kids, rest)))
    {
      ghost var l0 := links;
      var last := Reparent(k, m, kids);
      ghost var l1 := links;
      LastFacts(kids);
      LinkedFrame(l0, l1, Lookup(l1.next, k), Some(m), rest, None);
      links := links.(next := Store(links.next, last, Lookup(links.next, k)));
      ghost var l2 := links;
      LinkedNewTail(l1, l2, Lookup(l1.list, k), Some(m), kids, None, Lookup(l1.next, k));
      LinkedFrame(l1, l2, Lookup(l2.next, k), Some(m), rest, None);
      LinkedAppend(l2, Lookup(l2.list, k), Some(m), kids, Lookup(l2.next, k), rest, None);
      links := links.(next := links.next[k := links.list[k]], list := links.list - {k});
      AppendFacts(kids, rest);
      LinkedFrame(l2, links, Lookup(l2.list, k), Some(m), Append(kids, rest), None);
    }

    /** One step of the last loop of `menu_finalize`. */
    method FlattenEntry(m: Id, k: Id, ghost kids: Forest, ghost rest: Forest)
      returns (ghost kids': Forest, ghost rest': Forest)
      requires Linked(links, Some(k), Some(m), Node(k, kids, rest)) && Distinct(Node(k, kids, rest))
      modifies this`links
      ensures Linked(links, Some(k), Some(m), Node(k, kids', rest')) && Distinct(Node(k, kids', rest'))
      ensures Flattened(info, Node(k, kids, rest)) == Node(k, kids', Flattened(info, rest'))
      ensures Ids(kids') + Ids(rest') == Ids(kids) + Ids(rest) && Count(rest') <= Count(kids) + Count(rest)
      ensures SameOutside(old(links), links, Ids(Node(k, kids, rest)))
    {
      kids', rest' := kids, rest;
      assert LinkedTo(links, Lookup(links.list, k), Some(k), kids, None);
      if k in links.list && k !in info.prompt {
        AppendFacts(kids, rest);
        SpliceUp(m, k, kids, rest);
        kids', rest' := Nil, Append(kids, rest);
      }
    }

    /** The list of m is flattened up to its tail todo. */
    ghost predicate FlattenLoop(m: Id, grown: Forest, done: Forest, todo: Forest, cur: Option<Id>, l0: Links)
      reads this`links
    {
      && LinkedTo(links, Lookup(links.list, m), Some(m), done, cur) && Linked(links, cur, Some(m), todo)
      && Distinct(todo) && Ids(done) !! Ids(todo) && Ids(done) + Ids(todo) == Ids(grown)
      && Append(done, Flattened(info, todo)) == Flattened(info, grown)
      && SameOutside(l0, links, Ids(grown))
    }

    /** The last loop of `menu_finalize`: entries without a prompt lose their submenus to m. */
    method FlattenEntries(m: Id, ghost grown: Forest)
      requires Linked(links, Lookup(links.list, m), Some(m), grown) && Distinct(grown) && m !in Ids(grown)
      modifies this`links
      ensures Linked(links, Lookup(links.list, m), Some(m), Flattened(info, grown))
      ensures SameOutside(old(links), links, Ids(grown))
    {
      var cur := Lookup(links.list, m);
      ghost var before := links;
      ghost var done, todo := Nil, grown;
      while cur.Some?
        invariant FlattenLoop(m, grown, done, todo, cur, before)
        decreases Count(todo)
      {
        done, todo := FlattenNext(m, cur.value, grown, done, todo, before);
        cur := Lookup(links.next, cur.value);
      }
      AppendFacts(done, Nil);
    }

    /** One entry of that loop. */
    method FlattenNext(m: Id, k: Id, ghost grown: Forest, ghost done: Forest, ghost todo: Forest, ghost l0: Links)
      returns (ghost newDone: Forest, ghost newTodo: Forest)
      requires FlattenLoop(m, grown, done, todo, Some(k), l0) && m !in Ids(grown)
      modifies this`links
      ensures FlattenLoop(m, grown, newDone, newTodo, Lookup(links.next, k), l0) && Count(newTodo) < Count(todo)
    {
      ghost var earlier := links;
      ghost var kids, rest := FlattenEntry(m, k, todo.kids, todo.rest);
      ghost var top := Node(k, kids, Nil);
      assert SameAt(earlier, links, m);
      LinkedGrows(earlier, links, Lookup(links.list, m), Some(m), done, top, Ids(todo));
      FlattenStep(info, done, k, todo.kids, todo.rest, kids, rest);
      newDone, newTodo := Append(done, top), rest;
    }

    /** Before the entries of the list f are finalised: their submenus have not been handed anything, and
        none of them has been finalised. */
    ghost predicate Fresh(f: Forest)
      reads this`conditions, this`selects, this`direct, this`handed, this`entered
    {
      Gathered() && Elements(handed) !! Inner(f) && Elements(entered) !! Ids(f)
    }

    /** Of the entries of f, those before the tail `left` have been handed their conditions and entered. */
    ghost predicate Seen(f: Forest, left: Forest, h: set<Id>, e: set<Id>)
      reads this`conditions, this`selects, this`direct, this`handed, this`entered
    {
      Gathered() && Collected(info, f, left, h, Elements(handed), e, Elements(entered))
    }

    /** The first part of `menu_finalize` for an entry with a submenu. */
    method FinalizeSubmenu(m: Id, ghost owner: Option<Id>, ghost kids: Forest, ghost rest: Forest)
      requires Linked(links, Some(m), owner, Node(m, kids, rest)) && Distinct(Node(m, kids, rest)) && kids.Node?
      requires Gathered() && Elements(handed) !! Ids(kids) && Elements(entered) !! Ids(kids)
      modifies this
      ensures Linked(links, Some(m), owner, Node(m, FinalizedList(info, conditions, kids), rest))
      ensures HandedDown(info, old(conditions), conditions, m, kids)
      ensures SameOutside(old(links), links, Ids(kids))
      ensures SameExcept(old(conditions), conditions, Ids(kids))
      ensures Gathered() && Elements(handed) == Elements(old(handed)) + Ids(kids)
      ensures Elements(entered) == Elements(old(entered)) + SymbolLeaves(info, kids)
      decreases Count(kids), 2
    {
      ghost var l0, c0, h0, e0 := links, conditions, Elements(handed), Elements(entered);
      IdsPreorder(kids);
      HandDownTo(m, kids);
      ghost var c1, h1 := conditions, Elements(handed);
      FinalizeEntries(m, kids);
      assert SameAt(l0, links, m) && SameConditions(c1, conditions, m);
      LinkedFrame(l0, links, Lookup(l0.next, m), owner, rest, None);
      SubmenuHanded(info, c0, c1, conditions, m, kids);
      SubmenuSets(info, kids, h0, h1, Elements(handed), e0, Elements(entered));
    }

    /** The loop over the entries of m has done the entries before the tail todo. */
    ghost predicate ListLoop(m: Id, kids: Forest, done: Forest, todo: Forest, cur: Option<Id>, l0: Links, c0: Conditions,
                             h0: set<Id>, e0: set<Id>)
      reads this
    {
      && LinkedTo(links, Lookup(links.list, m), Some(m), done, cur) && Linked(links, cur, Some(m), todo)
      && TailOf(todo, kids) && Distinct(todo) && Ids(done) !! Ids(todo) && Ids(done) <= Ids(kids)
      && ListSoFar(info, conditions, kids, done, todo) && HandedBefore(info, c0, conditions, kids, todo)
      && SameOutside(l0, links, Ids(kids)) && SameExcept(c0, conditions, Inner(kids))
      && Seen(kids, todo, h0, e0)
    }

    /** The loop that finalises the entries of m; the list shrinks while it runs. */
    method FinalizeEntries(m: Id, ghost kids: Forest)
      requires Linked(links, Lookup(links.list, m), Some(m), kids) && Distinct(kids) && m !in Ids(kids)
      requires Fresh(kids)
      modifies this
      ensures Linked(links, Lookup(links.list, m), Some(m), FinalizedList(info, conditions, kids))
      ensures HandedBefore(info, old(conditions), conditions, kids, Nil)
      ensures SameOutside(old(links), links, Ids(kids))
      ensures SameExcept(old(conditions), conditions, Inner(kids))
      ensures Seen(kids, Nil, Elements(old(handed)), Elements(old(entered)))
      decreases Count(kids), 1
    {
      var cur := Lookup(links.list, m);
      ghost var l0, c0, h0, e0 := links, conditions, Elements(handed), Elements(entered);
      ghost var done, todo := Nil, kids;
      CollectedNothing(info, kids, h0, e0);
      while cur.Some?
        invariant ListLoop(m, kids, done, todo, cur, l0, c0, h0, e0)
        decreases Count(todo)
      {
        TailFacts(todo, kids);
        done, todo := FinalizeNext(m, cur.value, kids, done, todo, l0, c0, h0, e0);
        cur := Lookup(links.next, cur.value);
      }
      ListEnd(info, conditions, kids, done);
    }

    /** One entry of the loop; it may take some of the siblings behind it. */
    method FinalizeNext(m: Id, k: Id, ghost kids: Forest, ghost done: Forest, ghost todo: Forest, ghost l0: Links,
                        ghost c0: Conditions, ghost h0: set<Id>, ghost e0: set<Id>)
      returns (ghost newDone: Forest, ghost newTodo: Forest)
      requires ListLoop(m, kids, done, todo, Some(k), l0, c0, h0, e0) && Distinct(kids) && m !in Ids(kids)
      requires h0 !! Inner(kids) && e0 !! Ids(kids)
      modifies this
      ensures ListLoop(m, kids, newDone, newTodo, Lookup(links.next, k), l0, c0, h0, e0)
      ensures Count(newTodo) < Count(todo)
      decreases Count(todo), 0
    {
      ghost var l1, c1, h1, e1 := links, conditions, Elements(handed), Elements(entered);
      assert todo == Node(k, todo.kids, todo.rest);
      TailFacts(todo, kids);
      CollectedBefore(info, kids, todo, h0, h1, e0, e1);
      Finalize(k, Some(m), todo.kids, todo.rest);
      ghost var (newKids, left) := Finalized(info, conditions, k, todo.kids, todo.rest);
      LoopStep(info, c0, c1, conditions, kids, todo);
      ListStep(info, c1, conditions, kids, done, todo);
      CollectedCall(info, conditions, kids, todo, h0, h1, e0, e1);
      ghost var top := Node(k, newKids, Nil);
      assert SameAt(l1, links, m);
      LinkedGrows(l1, links, Lookup(links.list, m), Some(m), done, top, Ids(todo));
      AppendFacts(done, top);
      newDone, newTodo := Append(done, top), left;
    }

    /** Takes the siblings behind m into its submenu, while they pass the test. */
    method TakeSiblings(m: Id, ghost owner: Option<Id>, ghost rest: Forest)
      requires Linked(links, Some(m), owner, Node(m, Nil, rest)) && Distinct(Node(m, Nil, rest)) && m in info.sym
      requires Fresh(rest) && m !in entered
      modifies this
      ensures var (t, l) := FinalizedTaken(info, conditions, m, rest);
              && Linked(links, Some(m), owner, Node(m, t, l)) && HandedBefore(info, old(conditions), conditions, rest, l)
              && Collected(info, rest, l, Elements(old(handed)), Elements(handed), Elements(old(entered)) + {m}, Elements(entered))
      ensures SameOutside(old(links), links, Ids(rest) + {m})
      ensures SameExcept(old(conditions), conditions, Inner(rest))
      ensures Gathered()
      decreases Count(rest), 3
    {
      TakeAndAttach(m, owner, rest);
      ghost var seen := entered;
      AddDirect(m);
      ElementsNext(seen, m);
      CollectedPlus(info, rest, FinalizedTaken(info, conditions, m, rest).1, Elements(old(handed)), Elements(handed),
                    Elements(old(entered)), Elements(seen), m);
    }

    /** The loop and the pointer writes behind it. */
    method TakeAndAttach(m: Id, ghost owner: Option<Id>, ghost rest: Forest)
      requires Linked(links, Some(m), owner, Node(m, Nil, rest)) && Distinct(Node(m, Nil, rest)) && m in info.sym
      requires Fresh(rest)
      modifies this
      ensures var (t, l) := FinalizedTaken(info, conditions, m, rest);
              && Linked(links, Some(m), owner, Node(m, t, l)) && HandedBefore(info, old(conditions), conditions, rest, l)
              && Seen(rest, l, Elements(old(handed)), Elements(old(entered)))
      ensures SameOutside(old(links), links, Ids(rest) + {m})
      ensures SameExcept(old(conditions), conditions, Inner(rest))
      decreases Count(rest), 2
    {
      ghost var l0 := links;
      var last := TakeWhilePassing(m, owner, rest);
      TakenDistinct(info, conditions, m, rest);
      ghost var (t, l) := FinalizedTaken(info, conditions, m, rest);
      assert SameAt(l0, links, m) && LinkedTo(l0, Lookup(l0.list, m), Some(m), Nil, None);
      if last.Some? {
        AttachSubmenu(m, last.value, owner, t, l);
      }
    }

    /** The dependency of m joins the direct dependency of its symbol. */
    method AddDirect(m: Id)
      requires Gathered() && m in info.sym
      modifies this`direct, this`entered
      ensures Gathered() && entered == old(entered) + [m]
    {
      var s := info.sym[m];
      direct := Store(direct, s, AllocOr(Lookup(direct, s), Lookup(conditions.dep, m)));
      forall x ensures Lookup(direct, x) == DirectFrom(info, conditions, entered + [m], x) {
        DirectNext(info, conditions, entered, m, x);
      }
      entered := entered + [m];
    }

    /** The loop over the siblings behind m has taken those before the tail todo. */
    ghost predicate TakeLoop(m: Id, owner: Option<Id>, rest: Forest, taken: Forest, todo: Forest, cur: Option<Id>,
                             last: Option<Id>, l0: Links, c0: Conditions, h0: set<Id>, e0: set<Id>)
      reads this
    {
      && LinkedTo(links, Lookup(links.next, m), Some(m), taken, cur) && Linked(links, cur, owner, todo)
      && TailOf(todo, rest) && Distinct(todo) && Ids(taken) !! Ids(todo) && Ids(taken) <= Ids(rest)
      && last == (if taken.Nil? then None else Some(Last(taken)))
      && cur == Lookup(links.next, if taken.Nil? then m else Last(taken))
      && TakenSoFar(info, conditions, m, rest, taken, todo) && HandedBefore(info, c0, conditions, rest, todo)
      && SameOutside(l0, links, Ids(rest)) && SameExcept(c0, conditions, Inner(rest))
      && Seen(rest, todo, h0, e0)
    }

    /** The loop over the siblings behind m; their next pointers are only cut afterwards. */
    method TakeWhilePassing(m: Id, ghost owner: Option<Id>, ghost rest: Forest) returns (last: Option<Id>)
      requires Linked(links, Lookup(links.next, m), owner, rest) && Distinct(Node(m, Nil, rest)) && m in info.sym
      requires Fresh(rest)
      modifies this
      ensures var (t, l) := FinalizedTaken(info, conditions, m, rest);
              && last == (if t.Nil? then None else Some(Last(t)))
              && (var mid := Lookup(links.next, if t.Nil? then m else Last(t));
                  LinkedTo(links, Lookup(links.next, m), Some(m), t, mid) && Linked(links, mid, owner, l))
              && HandedBefore(info, old(conditions), conditions, rest, l)
              && Seen(rest, l, Elements(old(handed)), Elements(old(entered)))
      ensures SameOutside(old(links), links, Ids(rest))
      ensures SameExcept(old(conditions), conditions, Inner(rest))
      decreases Count(rest), 1
    {
      var cur := Lookup(links.next, m);
      last := None;
      ghost var l0, c0, h0, e0 := links, conditions, Elements(handed), Elements(entered);
      ghost var taken, todo := Nil, rest;
      CollectedNothing(info, rest, h0, e0);
      while cur.Some?
        invariant TakeLoop(m, owner, rest, taken, todo, cur, last, l0, c0, h0, e0)
        decreases Count(todo)
      {
        var passes := WouldTake(m, cur.value);
        if !passes { break; }
        TailFacts(todo, rest);
        taken, todo := TakeNext(m, cur.value, owner, rest, taken, todo, last, l0, c0, h0, e0);
        last := cur;
        cur := Lookup(links.next, cur.value);
      }
      TakenEnd(info, conditions, m, rest, taken, todo);
    }

    /** One sibling that passes the test. */
    method TakeNext(m: Id, k: Id, ghost owner: Option<Id>, ghost rest: Forest, ghost taken: Forest, ghost todo: Forest,
                    ghost last: Option<Id>, ghost l0: Links, ghost c0: Conditions, ghost h0: set<Id>, ghost e0: set<Id>)
      returns (ghost newTaken: Forest, ghost newTodo: Forest)
      requires TakeLoop(m, owner, rest, taken, todo, Some(k), last, l0, c0, h0, e0)
      requires Distinct(Node(m, Nil, rest)) && Takes(info, conditions, m, k) && h0 !! Inner(rest) && e0 !! Ids(rest)
      modifies this
      ensures TakeLoop(m, owner, rest, newTaken, newTodo, Lookup(links.next, k), Some(k), l0, c0, h0, e0)
      ensures Count(newTodo) < Count(todo)
      decreases Count(todo), 0
    {
      ghost var l1, c1, h1, e1 := links, conditions, Elements(handed), Elements(entered);
      assert todo == Node(k, todo.kids, todo.rest);
      TailFacts(todo, rest);
      CollectedBefore(info, rest, todo, h0, h1, e0, e1);
      TakeSibling(m, k, owner, todo.kids, todo.rest);
      ghost var (newKids, left) := Finalized(info, conditions, k, todo.kids, todo.rest);
      LoopStep(info, c0, c1, conditions, rest, todo);
      TakenStep(info, c1, conditions, m, rest, taken, todo);
      CollectedCall(info, conditions, rest, todo, h0, h1, e0, e1);
      ghost var top := Node(k, newKids, Nil);
      assert SameAt(l1, links, m);
      LinkedGrows(l1, links, Lookup(links.next, m), Some(m), taken, top, Ids(todo));
      AppendFacts(taken, top);
      newTaken, newTodo := Append(taken, top), left;
    }

    /** menu_finalize(menu); menu->parent = parent; for the sibling k that passed the test of m. */
    method TakeSibling(m: Id, k: Id, ghost owner: Option<Id>, ghost kids: Forest, ghost rest: Forest)
      requires Linked(links, Some(k), owner, Node(k, kids, rest)) && Distinct(Node(k, kids, rest))
      requires Fresh(Node(k, kids, rest))
      modifies this
      ensures var (n, l) := Finalized(info, conditions, k, kids, rest);
              && LinkedTo(links, Some(k), Some(m), Node(k, n, Nil), Lookup(links.next, k))
              && Linked(links, Lookup(links.next, k), owner, l)
              && HandedDown(info, old(conditions), conditions, k, kids)
              && HandedBefore(info, old(conditions), conditions, rest, l)
              && Seen(Node(k, kids, rest), l, Elements(old(handed)), Elements(old(entered)))
      ensures SameOutside(old(links), links, Ids(Node(k, kids, rest)))
      ensures SameExcept(old(conditions), conditions, Ids(kids) + Inner(rest))
      decreases Count(kids) + Count(rest), 6
    {
      Finalize(k, owner, kids, rest);
      ghost var (n, l) := Finalized(info, conditions, k, kids, rest);
      FinalizedDistinct(info, conditions, k, kids, rest);
      ghost var before := links;
      links := links.(parent := links.parent[k := m]);
      assert forall x: Id :: x != k ==> SameAt(before, links, x);
      LinkedFrame(before, links, Lookup(links.list, k), Some(k), n, None);
      LinkedFrame(before, links, Lookup(links.next, k), owner, l, None);
    }

    /** parent->list = parent->next; parent->next = last_menu->next; last_menu->next = NULL. */
    method AttachSubmenu(m: Id, last: Id, ghost owner: Option<Id>, ghost taken: Forest, ghost todo: Forest)
      requires taken.Node? && last == Last(taken) && Distinct(Node(m, taken, todo))
      requires LinkedTo(links, Lookup(links.next, m), Some(m), taken, Lookup(links.next, last))
      requires Linked(links, Lookup(links.next, last), owner, todo) && Lookup(links.parent, m) == owner
      modifies this`links
      ensures Linked(links, Some(m), owner, Node(m, taken, todo))
      ensures SameOutside(old(links), links, Ids(taken) + {m})
    {
      ghost var l0 := links;
      LastFacts(taken);
      links := links.(list := Store(links.list, m, Lookup(links.next, m)),
                      next := Store(links.next, m, Lookup(links.next, last)));
      ghost var l1 := links;
      assert Lookup(l1.list, m) == Lookup(l0.next, m) && Lookup(l1.next, m) == Lookup(l0.next, last);
      assert forall x: Id :: x != m ==> SameAt(l0, l1, x);
      LinkedFrame(l0, l1, Lookup(l1.list, m), Some(m), taken, Lookup(l0.next, last));
      LinkedFrame(l0, l1, Lookup(l1.next, m), owner, todo, None);
      links := links.(next := Store(links.next, last, None));
      LinkedNewTail(l1, links, Lookup(l1.list, m), Some(m), taken, Lookup(l0.next, last), None);
      assert forall x: Id :: x != last ==> SameAt(l1, links, x);
      LinkedFrame(l1, links, Lookup(l1.next, m), owner, todo, None);
    }

    /** The submenu of m before it is flattened: its own entries, or the siblings it takes. */
    ghost function Grown(m: Id, kids: Forest, rest: Forest): Forest
      reads this`conditions
    {
      if kids.Node? then FinalizedList(info, conditions, kids)
      else if m in info.sym then FinalizedTaken(info, conditions, m, rest).0 else Nil
    }

    /** Both branches of `menu_finalize`, up to the last loop. */
    method Grow(m: Id, ghost owner: Option<Id>, ghost kids: Forest, ghost rest: Forest)
      requires Linked(links, Some(m), owner, Node(m, kids, rest)) && Distinct(Node(m, kids, rest))
      requires Fresh(Node(m, kids, rest))
      modifies this
      ensures var left := Finalized(info, conditions, m, kids, rest).1;
              && Linked(links, Some(m), owner, Node(m, Grown(m, kids, rest), left))
              && Distinct(Node(m, Grown(m, kids, rest), left)) && Ids(Grown(m, kids, rest)) <= Ids(kids) + Ids(rest)
              && HandedDown(info, old(conditions), conditions, m, kids)
              && HandedBefore(info, old(conditions), conditions, rest, left)
              && Seen(Node(m, kids, rest), left, Elements(old(handed)), Elements(old(entered)))
      ensures SameOutside(old(links), links, Ids(Node(m, kids, rest)))
      ensures SameExcept(old(conditions), conditions, Ids(kids) + Inner(rest))
      decreases Count(kids) + Count(rest), 4
    {
      ghost var h0, e0 := Elements(handed), Elements(entered);
      assert LinkedTo(links, Lookup(links.list, m), Some(m), kids, None);
      InnerOfNode(info, m, kids, rest);
      if m in links.list {
        FinalizeSubmenu(m, owner, kids, rest);
        ListDistinct(info, conditions, kids);
      } else if m in info.sym {
        TakeSiblings(m, owner, rest);
        TakenDistinct(info, conditions, m, rest);
      }
      SeenHere(info, conditions, m, kids, rest, h0, Elements(handed), e0, Elements(entered));
    }

    /** `menu_finalize` on entry m with the submenu `kids`, followed by the siblings `rest`. */
    method Finalize(m: Id, ghost owner: Option<Id>, ghost kids: Forest, ghost rest: Forest)
      requires Linked(links, Some(m), owner, Node(m, kids, rest)) && Distinct(Node(m, kids, rest))
      requires Fresh(Node(m, kids, rest))
      modifies this
      ensures var (k, r) := Finalized(info, conditions, m, kids, rest);
              && Linked(links, Some(m), owner, Node(m, k, r))
              && HandedDown(info, old(conditions), conditions, m, kids)
              && HandedBefore(info, old(conditions), conditions, rest, r)
              && Seen(Node(m, kids, rest), r, Elements(old(handed)), Elements(old(entered)))
      ensures SameOutside(old(links), links, Ids(Node(m, kids, rest)))
      ensures SameExcept(old(conditions), conditions, Ids(kids) + Inner(rest))
      decreases Count(kids) + Count(rest), 5
    {
      Grow(m, owner, kids, rest);
      ghost var l := links;
      ghost var left := Finalized(info, conditions, m, kids, rest).1;
      FlattenEntries(m, Grown(m, kids, rest));
      assert SameAt(l, links, m);
      LinkedFrame(l, links, Lookup(l.next, m), owner, left, None);
    }
  }
}
