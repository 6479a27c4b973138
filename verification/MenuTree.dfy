/** `menu_finalize`: hands dependencies down, turns following siblings into implied submenus, and
    moves the submenus of entries without a prompt up into the surrounding list. */
module MenuTree {
  import opened Expressions
  import opened MenuForest
  import opened MenuDependencies

  /** The properties of an entry: the definition of its symbol, its prompts, and the defaults, selects
      and ranges of its symbol. */
  datatype Kind = Definition | Title | Value(value: Expr) | Selects(target: Symbol) | Ends(low: Symbol, high: Symbol)

  /** What is fixed about the entries: their symbols, their properties, and which property is the
      prompt, if there is one. */
  datatype Info = Info(sym: map<Id, Symbol>, props: map<Id, seq<Kind>>, prompt: map<Id, nat>)

  /** What `menu_finalize` rewrites: the dependencies and the conditions of the properties.
      None, or a missing key, is a null expression. */
  datatype Conditions = Conditions(dep: map<Id, Expr>, visible: map<Id, seq<Option<Expr>>>)

  function PromptCondition(info: Info, c: Conditions, x: Id): Option<Expr> {
    if x in info.prompt && x in c.visible && info.prompt[x] < |c.visible[x]| then c.visible[x][info.prompt[x]] else None
  }

  /** The condition an entry imposes on its submenu, and on a sibling that wants to adopt it. */
  function Guard(info: Info, c: Conditions, x: Id): Option<Expr> {
    if x in info.prompt then PromptCondition(info, c, x) else Lookup(c.dep, x)
  }

  /** The prompt of an entry is one of its properties. */
  ghost predicate Shaped(info: Info, c: Conditions) {
    forall x :: x in info.prompt ==> x in c.visible && info.prompt[x] < |c.visible[x]|
  }

  /** Entry m takes the following sibling k as an implied submenu. */
  predicate Takes(info: Info, c: Conditions, m: Id, k: Id) {
    m in info.sym && Adopts(Guard(info, c, k), PromptCondition(info, c, m), info.sym[m])
  }

  ghost predicate SameConditions(c: Conditions, d: Conditions, x: Id) {
    Lookup(c.dep, x) == Lookup(d.dep, x) && Lookup(c.visible, x) == Lookup(d.visible, x)
  }

  ghost predicate SameOn(c: Conditions, d: Conditions, ids: set<Id>) {
    forall x :: x in ids ==> SameConditions(c, d, x)
  }

  ghost predicate SameExcept(c: Conditions, d: Conditions, ids: set<Id>) {
    forall x: Id :: x !in ids ==> SameConditions(c, d, x)
  }

  // ---------------------------------------------------------------- what finalisation computes

  /** An entry without a prompt keeps no submenu: it is spliced in behind the entry. */
  function Flattened(info: Info, f: Forest): (r: Forest)
    ensures Count(r) == Count(f)
    decreases Count(f)
  {
    if f.Nil? then Nil
    else if f.kids.Node? && f.id !in info.prompt then
      AppendFacts(f.kids, f.rest);
      Node(f.id, Nil, Flattened(info, Append(f.kids, f.rest)))
    else Node(f.id, f.kids, Flattened(info, f.rest))
  }

  /** Only entries with a prompt have submenus, at every level. */
  predicate Flat(info: Info, f: Forest) {
    f.Node? ==> (f.kids.Nil? || f.id in info.prompt) && Flat(info, f.kids) && Flat(info, f.rest)
  }

  predicate FlatBelow(info: Info, f: Forest) {
    f.Node? ==> Flat(info, f.kids) && FlatBelow(info, f.rest)
  }

  lemma {:induction false} FlatAppend(info: Info, f: Forest, g: Forest)
    requires Flat(info, f) && FlatBelow(info, g)
    ensures FlatBelow(info, Append(f, g))
  {
    if f.Node? { FlatAppend(info, f.rest, g); }
  }

  /** Splicing keeps the order of the entries. */
  lemma {:induction false} FlattenedOrder(info: Info, f: Forest)
    ensures Preorder(Flattened(info, f)) == Preorder(f)
    decreases Count(f)
  {
    if f.Node? {
      if f.kids.Node? && f.id !in info.prompt {
        AppendFacts(f.kids, f.rest);
        FlattenedOrder(info, Append(f.kids, f.rest));
        assert Preorder(f) == [f.id] + (Preorder(f.kids) + Preorder(f.rest));
      } else {
        FlattenedOrder(info, f.rest);
      }
    }
  }

  lemma {:induction false} FlattenedFlat(info: Info, f: Forest)
    requires FlatBelow(info, f)
    ensures Flat(info, Flattened(info, f))
    decreases Count(f)
  {
    if f.Node? {
      if f.kids.Node? && f.id !in info.prompt {
        AppendFacts(f.kids, f.rest);
        FlatAppend(info, f.kids, f.rest);
        FlattenedFlat(info, Append(f.kids, f.rest));
      } else {
        FlattenedFlat(info, f.rest);
      }
    }
  }

  /** The submenu of the entry x in the list f. */
  function SubmenuOf(f: Forest, x: Id): Forest {
    if f.Nil? then Nil else if f.id == x then f.kids else SubmenuOf(f.rest, x)
  }

  lemma {:induction false} SubmenuAppend(f: Forest, g: Forest, x: Id)
    requires x !in Tops(f)
    ensures SubmenuOf(Append(f, g), x) == SubmenuOf(g, x)
  {
    if f.Node? { SubmenuAppend(f.rest, g, x); }
  }

  /** An entry with a prompt keeps its submenu, and the others have none left. */
  lemma {:induction false} FlattenedSubmenu(info: Info, f: Forest, x: Id)
    requires Distinct(f) && x in Tops(f)
    ensures SubmenuOf(Flattened(info, f), x) == if x in info.prompt then SubmenuOf(f, x) else Nil
    ensures x in Tops(Flattened(info, f))
    decreases Count(f)
  {
    if f.kids.Node? && f.id !in info.prompt {
      AppendFacts(f.kids, f.rest);
      IdsPreorder(f.kids);
      IdsPreorder(f.rest);
      if x != f.id {
        assert x in Ids(f.rest);
        SubmenuAppend(f.kids, f.rest, x);
        FlattenedSubmenu(info, Append(f.kids, f.rest), x);
      }
    } else if x != f.id {
      FlattenedSubmenu(info, f.rest, x);
    }
  }

  /** The submenu of entry m and the siblings left after it, once m has been finalised: its
      entries are finalised one after the other, or else it takes following siblings. */
  function Finalized(info: Info, c: Conditions, m: Id, kids: Forest, rest: Forest): (r: (Forest, Forest))
    ensures Count(r.0) + Count(r.1) == Count(kids) + Count(rest) && Count(r.1) <= Count(rest)
    decreases Count(kids) + Count(rest), 2
  {
    if kids.Node? then
      (Flattened(info, FinalizedList(info, c, kids)), rest)
    else if m in info.sym then
      var (taken, left) := FinalizedTaken(info, c, m, rest);
      (Flattened(info, taken), left)
    else (Nil, rest)
  }

  /** All entries of the list f, each with the siblings it did not lose to an earlier one. */
  function FinalizedList(info: Info, c: Conditions, f: Forest): (r: Forest)
    ensures Count(r) == Count(f)
    decreases Count(f), 1
  {
    if f.Nil? then Nil
    else
      var (kids, left) := Finalized(info, c, f.id, f.kids, f.rest);
      Node(f.id, kids, FinalizedList(info, c, left))
  }

  /** The entries m takes from the list f of siblings behind it, up to the first it does not. */
  function FinalizedTaken(info: Info, c: Conditions, m: Id, f: Forest): (r: (Forest, Forest))
    ensures Count(r.0) + Count(r.1) == Count(f) && Count(r.1) <= Count(f)
    decreases Count(f), 1
  {
    if f.Nil? || !Takes(info, c, m, f.id) then (Nil, f)
    else
      var (kids, left) := Finalized(info, c, f.id, f.kids, f.rest);
      var (taken, left') := FinalizedTaken(info, c, m, left);
      (Node(f.id, kids, taken), left')
  }

  // ---------------------------------------------------------------- order and shape

  lemma Regroup(h: seq<Id>, k: seq<Id>, t: seq<Id>, u: seq<Id>, l: seq<Id>, kids: seq<Id>, rest: seq<Id>)
    requires t + u == l && k + l == kids + rest
    ensures h + k + t + u == h + kids + rest
  {
    assert h + k + t + u == h + (k + (t + u));
    assert h + kids + rest == h + (kids + rest);
  }

  /** Nothing is lost, duplicated or reordered. */
  lemma {:induction false} FinalizedOrder(info: Info, c: Conditions, m: Id, kids: Forest, rest: Forest)
    ensures var (k, r) := Finalized(info, c, m, kids, rest);
            Preorder(k) + Preorder(r) == Preorder(kids) + Preorder(rest)
    decreases Count(kids) + Count(rest), 2
  {
    if kids.Node? {
      FinalizedListOrder(info, c, kids);
      FlattenedOrder(info, FinalizedList(info, c, kids));
    } else if m in info.sym {
      FinalizedTakenOrder(info, c, m, rest);
      FlattenedOrder(info, FinalizedTaken(info, c, m, rest).0);
    }
  }

  lemma {:induction false} FinalizedListOrder(info: Info, c: Conditions, f: Forest)
    ensures Preorder(FinalizedList(info, c, f)) == Preorder(f)
    decreases Count(f), 1
  {
    if f.Node? {
      FinalizedOrder(info, c, f.id, f.kids, f.rest);
      var (kids, left) := Finalized(info, c, f.id, f.kids, f.rest);
      FinalizedListOrder(info, c, left);
      Regroup([f.id], Preorder(kids), Preorder(left), [], Preorder(left), Preorder(f.kids), Preorder(f.rest));
    }
  }

  lemma {:induction false} FinalizedTakenOrder(info: Info, c: Conditions, m: Id, f: Forest)
    ensures var (t, l) := FinalizedTaken(info, c, m, f);
            Preorder(t) + Preorder(l) == Preorder(f)
    decreases Count(f), 1
  {
    if f.Node? && Takes(info, c, m, f.id) {
      FinalizedOrder(info, c, f.id, f.kids, f.rest);
      var (kids, left) := Finalized(info, c, f.id, f.kids, f.rest);
      FinalizedTakenOrder(info, c, m, left);
      var (taken, left') := FinalizedTaken(info, c, m, left);
      Regroup([f.id], Preorder(kids), Preorder(taken), Preorder(left'), Preorder(left), Preorder(f.kids), Preorder(f.rest));
    }
  }

  /** The siblings left over are an untouched tail of the list. */
  lemma {:induction false} FinalizedTail(info: Info, c: Conditions, m: Id, kids: Forest, rest: Forest)
    ensures TailOf(Finalized(info, c, m, kids, rest).1, rest)
    decreases Count(kids) + Count(rest), 2
  {
    if kids.Nil? && m in info.sym { FinalizedTakenTail(info, c, m, rest); }
  }

  lemma {:induction false} FinalizedTakenTail(info: Info, c: Conditions, m: Id, f: Forest)
    ensures TailOf(FinalizedTaken(info, c, m, f).1, f)
    decreases Count(f), 1
  {
    if f.Node? && Takes(info, c, m, f.id) {
      FinalizedTail(info, c, f.id, f.kids, f.rest);
      var left := Finalized(info, c, f.id, f.kids, f.rest).1;
      FinalizedTakenTail(info, c, m, left);
      TailFacts(left, f.rest);
    }
  }

  /** Afterwards only entries with a prompt have submenus. */
  lemma {:induction false} FinalizedFlat(info: Info, c: Conditions, m: Id, kids: Forest, rest: Forest)
    ensures Flat(info, Finalized(info, c, m, kids, rest).0)
    decreases Count(kids) + Count(rest), 2
  {
    if kids.Node? {
      FinalizedListFlat(info, c, kids);
      FlattenedFlat(info, FinalizedList(info, c, kids));
    } else if m in info.sym {
      FinalizedTakenFlat(info, c, m, rest);
      FlattenedFlat(info, FinalizedTaken(info, c, m, rest).0);
    }
  }

  lemma {:induction false} FinalizedListFlat(info: Info, c: Conditions, f: Forest)
    ensures FlatBelow(info, FinalizedList(info, c, f))
    decreases Count(f), 1
  {
    if f.Node? {
      FinalizedFlat(info, c, f.id, f.kids, f.rest);
      FinalizedListFlat(info, c, Finalized(info, c, f.id, f.kids, f.rest).1);
    }
  }

  lemma {:induction false} FinalizedTakenFlat(info: Info, c: Conditions, m: Id, f: Forest)
    ensures FlatBelow(info, FinalizedTaken(info, c, m, f).0)
    decreases Count(f), 1
  {
    if f.Node? && Takes(info, c, m, f.id) {
      FinalizedFlat(info, c, f.id, f.kids, f.rest);
      FinalizedTakenFlat(info, c, m, Finalized(info, c, f.id, f.kids, f.rest).1);
    }
  }

  /** Before splicing, m has exactly taken the entries that pass the test, up to the first that
      does not. */
  lemma {:induction false} TakenExactly(info: Info, c: Conditions, m: Id, f: Forest)
    ensures var (t, l) := FinalizedTaken(info, c, m, f);
            && (forall k :: k in Tops(t) ==> Takes(info, c, m, k))
            && (l.Node? ==> !Takes(info, c, m, l.id))
    decreases Count(f)
  {
    if f.Node? && Takes(info, c, m, f.id) {
      TakenExactly(info, c, m, Finalized(info, c, f.id, f.kids, f.rest).1);
    }
  }

  // ---------------------------------------------------------------- entries stay distinct

  lemma {:induction false} IdsOfPreorder(f: Forest, g: Forest)
    requires Preorder(f) == Preorder(g)
    ensures Ids(f) == Ids(g)
  {
    IdsPreorder(f);
    IdsPreorder(g);
  }

  lemma NoDuplicatesSplit(a: seq<Id>, b: seq<Id>)
    requires NoDuplicates(a + b)
    ensures NoDuplicates(a) && NoDuplicates(b) && forall x :: x in a ==> x !in b
  {
    var s := a + b;
    assert forall i :: 0 <= i < |a| ==> s[i] == a[i];
    forall i | 0 <= i < |b| ensures s[|a| + i] == b[i] {}
    forall i, j | 0 <= i < |a| && 0 <= j < |b| ensures a[i] != b[j] {
      assert s[i] != s[|a| + j];
    }
    forall i, j | 0 <= i < j < |b| ensures b[i] != b[j] {
      assert s[|a| + i] != s[|a| + j];
    }
  }

  lemma {:induction false} DistinctNoDuplicates(f: Forest)
    requires NoDuplicates(Preorder(f))
    ensures Distinct(f)
  {
    if f.Node? {
      NoDuplicatesSplit([f.id] + Preorder(f.kids), Preorder(f.rest));
      NoDuplicatesSplit([f.id], Preorder(f.kids));
      DistinctNoDuplicates(f.kids);
      DistinctNoDuplicates(f.rest);
      IdsPreorder(f.kids);
      IdsPreorder(f.rest);
    }
  }

  lemma SamePreorder(f: Forest, g: Forest)
    requires Distinct(f) && Preorder(f) == Preorder(g)
    ensures Distinct(g) && Ids(g) == Ids(f)
  {
    DistinctPreorder(f);
    DistinctNoDuplicates(g);
    IdsOfPreorder(f, g);
  }

  /** The new submenu and the siblings left over share out the old entries. */
  lemma FinalizedDistinct(info: Info, c: Conditions, m: Id, kids: Forest, rest: Forest)
    requires Distinct(Node(m, kids, rest))
    ensures var (k, r) := Finalized(info, c, m, kids, rest);
            Distinct(Node(m, k, r)) && Ids(k) + Ids(r) == Ids(kids) + Ids(rest)
  {
    var (k, r) := Finalized(info, c, m, kids, rest);
    FinalizedOrder(info, c, m, kids, rest);
    Regroup([m], Preorder(k), Preorder(r), [], Preorder(r), Preorder(kids), Preorder(rest));
    SamePreorder(Node(m, kids, rest), Node(m, k, r));
    assert Ids(k) + Ids(r) == Ids(Node(m, k, r)) - {m};
    assert Ids(kids) + Ids(rest) == Ids(Node(m, kids, rest)) - {m};
  }

  // ---------------------------------------------------------------- the conditions that matter

  /** The entries below the tops of f. */
  function Inner(f: Forest): set<Id> { Ids(f) - Tops(f) }

  lemma {:induction false} InnerTail(t: Forest, f: Forest)
    requires TailOf(t, f) && Distinct(f)
    ensures Inner(t) <= Inner(f) && Ids(t) <= Ids(f) && Distinct(t)
  {
    TailFacts(t, f);
    IdsPreorder(f);
    if t != f {
      InnerTail(t, f.rest);
      IdsPreorder(f.rest);
    }
  }

  /** Conditions inside the siblings that are left over play no part. */
  lemma {:induction false} FinalizedFrame(info: Info, c: Conditions, d: Conditions, m: Id, kids: Forest, rest: Forest)
    requires Distinct(Node(m, kids, rest))
    requires SameOn(c, d, {m} + Ids(kids) + (Ids(rest) - Inner(Finalized(info, c, m, kids, rest).1)))
    ensures Finalized(info, c, m, kids, rest) == Finalized(info, d, m, kids, rest)
    decreases Count(kids) + Count(rest), 2
  {
    if kids.Node? {
      FinalizedListFrame(info, c, d, kids);
    } else if m in info.sym {
      FinalizedTakenFrame(info, c, d, m, rest);
    }
  }

  lemma {:induction false} FinalizedListFrame(info: Info, c: Conditions, d: Conditions, f: Forest)
    requires Distinct(f) && SameOn(c, d, Ids(f))
    ensures FinalizedList(info, c, f) == FinalizedList(info, d, f)
    decreases Count(f), 1
  {
    if f.Node? {
      FinalizedFrame(info, c, d, f.id, f.kids, f.rest);
      FinalizedTail(info, c, f.id, f.kids, f.rest);
      var left := Finalized(info, c, f.id, f.kids, f.rest).1;
      InnerTail(left, f.rest);
      FinalizedListFrame(info, c, d, left);
    }
  }

  /** The first sibling and its call, under conditions that differ inside the rest only. */
  lemma TakenFrameParts(info: Info, c: Conditions, d: Conditions, m: Id, f: Forest)
    requires Distinct(f) && m !in Ids(f) && f.Node?
    requires SameOn(c, d, {m} + (Ids(f) - Inner(FinalizedTaken(info, c, m, f).1)))
    ensures Takes(info, c, m, f.id) == Takes(info, d, m, f.id)
    ensures Takes(info, c, m, f.id) ==>
              var left := Finalized(info, c, f.id, f.kids, f.rest).1;
              && Distinct(left) && Ids(left) <= Ids(f.rest)
              && SameOn(c, d, {f.id} + Ids(f.kids) + (Ids(f.rest) - Inner(left)))
              && SameOn(c, d, {m} + (Ids(left) - Inner(FinalizedTaken(info, c, m, left).1)))
  {
    var after := FinalizedTaken(info, c, m, f).1;
    FinalizedTakenTail(info, c, m, f);
    InnerTail(after, f);
    assert f.id in Tops(f) && f.id !in Inner(f);
    assert SameConditions(c, d, f.id) && SameConditions(c, d, m);
    if Takes(info, c, m, f.id) {
      var left := Finalized(info, c, f.id, f.kids, f.rest).1;
      FinalizedTail(info, c, f.id, f.kids, f.rest);
      InnerTail(left, f.rest);
      FinalizedTakenTail(info, c, m, left);
      InnerTail(after, left);
    }
  }

  lemma {:induction false} FinalizedTakenFrame(info: Info, c: Conditions, d: Conditions, m: Id, f: Forest)
    requires Distinct(f) && m !in Ids(f)
    requires SameOn(c, d, {m} + (Ids(f) - Inner(FinalizedTaken(info, c, m, f).1)))
    ensures FinalizedTaken(info, c, m, f) == FinalizedTaken(info, d, m, f)
    decreases Count(f), 1
  {
    if f.Node? {
      TakenFrameParts(info, c, d, m, f);
      if Takes(info, c, m, f.id) {
        FinalizedFrame(info, c, d, f.id, f.kids, f.rest);
        FinalizedTakenFrame(info, c, d, m, Finalized(info, c, f.id, f.kids, f.rest).1);
      }
    }
  }

  /** The conditions of an entry with the dependency dep, of which the first n have been handed it. */
  function PartlyHanded(dep: Option<Expr>, own: seq<Option<Expr>>, symbol: Option<Symbol>, n: nat): (r: seq<Option<Expr>>)
    requires n <= |own|
    ensures |r| == |own|
  {
    seq(|own|, (i: nat) requires i < |own| => if i < n then HandDownPrompt(dep, own[i], symbol) else own[i])
  }

  function HandedConditions(dep: Option<Expr>, own: Option<seq<Option<Expr>>>, symbol: Option<Symbol>)
    : Option<seq<Option<Expr>>>
  {
    if own.None? then None else Some(PartlyHanded(dep, own.value, symbol, |own.value|))
  }

  /** Entry k of the menu p has got its dependencies: old ones in c, new ones in d. */
  predicate HandedEntry(info: Info, c: Conditions, d: Conditions, p: Id, k: Id) {
    && Lookup(d.dep, k) == HandDown(Guard(info, d, p), Lookup(c.dep, k))
    && Lookup(d.visible, k) == HandedConditions(Lookup(d.dep, k), Lookup(c.visible, k), Lookup(info.sym, k))
  }

  /** All entries of f, which was the submenu of p when parsed, have got their dependencies. */
  predicate HandedDown(info: Info, c: Conditions, d: Conditions, p: Id, f: Forest)
    decreases f
  {
    f.Node? ==>
      && HandedEntry(info, c, d, p, f.id)
      && HandedDown(info, c, d, f.id, f.kids)
      && HandedDown(info, c, d, p, f.rest)
  }

  /** The submenus of the entries before the tail t have got theirs; from t on nothing changed. */
  ghost predicate HandedBefore(info: Info, c: Conditions, d: Conditions, f: Forest, t: Forest)
    decreases f
  {
    if f == t then SameOn(c, d, Ids(t))
    else
      && f.Node?
      && SameConditions(c, d, f.id)
      && HandedDown(info, c, d, f.id, f.kids)
      && HandedBefore(info, c, d, f.rest, t)
  }

  // ---------------------------------------------------------------- dependencies across the tree

  /** The entry is not ruled out. */
  ghost predicate On(info: Info, c: Conditions, env: Env, x: Id) { ValOpt(env, Guard(info, c, x)) != NO }

  /** Wherever an entry of f is not ruled out, what is above is not either, and so on below. */
  ghost predicate Implied(info: Info, c: Conditions, env: Env, above: bool, f: Forest)
    decreases f
  {
    f.Node? ==>
      && (On(info, c, env, f.id) ==> above)
      && Implied(info, c, env, On(info, c, env, f.id), f.kids)
      && Implied(info, c, env, above, f.rest)
  }

  /** The guard of an entry that has got its dependencies. */
  lemma HandedGuard(info: Info, c: Conditions, d: Conditions, p: Id, k: Id)
    requires HandedEntry(info, c, d, p, k) && (k in info.prompt ==> k in c.visible && info.prompt[k] < |c.visible[k]|)
    ensures Guard(info, d, k) ==
            if k in info.prompt
            then HandDownPrompt(Lookup(d.dep, k), c.visible[k][info.prompt[k]], Lookup(info.sym, k))
            else Lookup(d.dep, k)
  {
  }

  lemma {:induction false} HandedDownImplies(info: Info, c: Conditions, d: Conditions, env: Env, p: Id, f: Forest)
    requires Sane(env) && Shaped(info, c) && HandedDown(info, c, d, p, f) && Normal(Guard(info, d, p))
    ensures Implied(info, d, env, On(info, d, env, p), f)
    decreases f
  {
    if f.Node? {
      var above := Guard(info, d, p);
      var own := Lookup(c.dep, f.id);
      HandDownValue(env, above, own);
      HandDownNormal(above, own);
      HandedGuard(info, c, d, p, f.id);
      if f.id in info.prompt {
        var condition := c.visible[f.id][info.prompt[f.id]];
        HandDownPromptValue(env, HandDown(above, own), condition, Lookup(info.sym, f.id));
        HandDownPromptNormal(HandDown(above, own), condition, Lookup(info.sym, f.id));
      }
      HandedDownImplies(info, c, d, env, f.id, f.kids);
      HandedDownImplies(info, c, d, env, p, f.rest);
    }
  }

  // ---------------------------------------------------------------- frames

  lemma HandedEntryFrame(info: Info, c: Conditions, c': Conditions, d: Conditions, d': Conditions, p: Id, k: Id)
    requires HandedEntry(info, c, d, p, k)
    requires SameConditions(c, c', k) && SameConditions(d, d', k) && SameConditions(d, d', p)
    ensures HandedEntry(info, c', d', p, k)
  {
  }

  lemma {:induction false} HandedDownFrame(info: Info, c: Conditions, c': Conditions, d: Conditions, d': Conditions,
                                           p: Id, f: Forest)
    requires HandedDown(info, c, d, p, f)
    requires SameOn(c, c', Ids(f)) && SameOn(d, d', Ids(f) + {p})
    ensures HandedDown(info, c', d', p, f)
    decreases f
  {
    if f.Node? {
      assert f.id in Ids(f) && p in Ids(f) + {p};
      assert SameConditions(c, c', f.id) && SameConditions(d, d', f.id) && SameConditions(d, d', p);
      HandedDownFrame(info, c, c', d, d', f.id, f.kids);
      HandedDownFrame(info, c, c', d, d', p, f.rest);
    }
  }

  /** One more submenu done: from t = (t.id, t.kids, ..) on to a later tail u. */
  lemma {:induction false} HandedBeforeStep(info: Info, c: Conditions, d: Conditions, e: Conditions,
                                            f: Forest, t: Forest, u: Forest)
    requires Distinct(f) && TailOf(t, f) && t.Node? && TailOf(u, t.rest)
    requires HandedBefore(info, c, d, f, t)
    requires HandedDown(info, d, e, t.id, t.kids) && HandedBefore(info, d, e, t.rest, u)
    requires SameExcept(d, e, Ids(t) - {t.id})
    ensures HandedBefore(info, c, e, f, u)
  {
    TailFacts(u, t.rest);
    if f == t {
      TailShorter(u, t);
      assert t.id in Ids(t) && SameConditions(c, d, t.id) && SameConditions(d, e, t.id);
      HandedDownFrame(info, d, c, e, e, t.id, t.kids);
      HandedBeforeFrame(info, d, c, e, t.rest, u);
    } else {
      TailFacts(t, f.rest);
      assert TailOf(u, f.rest);
      TailShorter(u, f);
      HandedBeforeStep(info, c, d, e, f.rest, t, u);
      HandedSkip(info, c, d, e, f, t);
    }
  }

  /** The first entry of f is not concerned by what happens from its tail t on. */
  lemma HandedSkip(info: Info, c: Conditions, d: Conditions, e: Conditions, f: Forest, t: Forest)
    requires Distinct(f) && f.Node? && TailOf(t, f.rest) && t.Node? && SameExcept(d, e, Ids(t) - {t.id})
    requires SameConditions(c, d, f.id) && HandedDown(info, c, d, f.id, f.kids)
    ensures SameConditions(c, e, f.id) && HandedDown(info, c, e, f.id, f.kids)
  {
    TailFacts(t, f.rest);
    assert f.id !in Ids(t) && Ids(f.kids) !! Ids(t);
    assert SameConditions(d, e, f.id);
    assert SameOn(d, e, Ids(f.kids) + {f.id});
    HandedDownFrame(info, c, c, d, e, f.id, f.kids);
  }

  lemma TailShorter(u: Forest, f: Forest)
    requires f.Node? && TailOf(u, f.rest)
    ensures u != f
  {
    TailFacts(u, f.rest);
  }

  lemma {:induction false} HandedBeforeFrame(info: Info, c: Conditions, c': Conditions, d: Conditions, f: Forest, u: Forest)
    requires HandedBefore(info, c, d, f, u) && SameOn(c, c', Ids(f))
    ensures HandedBefore(info, c', d, f, u)
  {
    if f != u {
      assert f.id in Ids(f) && SameConditions(c, c', f.id);
      HandedDownFrame(info, c, c', d, d, f.id, f.kids);
      HandedBeforeFrame(info, c, c', d, f.rest, u);
    }
  }

  lemma {:induction false} HandedBeforeTail(info: Info, c: Conditions, d: Conditions, f: Forest, t: Forest)
    requires HandedBefore(info, c, d, f, t)
    ensures TailOf(t, f) && SameOn(c, d, Ids(t))
  {
    if f != t { HandedBeforeTail(info, c, d, f.rest, t); }
  }

  lemma {:induction false} NilTail(f: Forest)
    ensures TailOf(Nil, f)
  {
    if f.Node? { NilTail(f.rest); }
  }

  /** The entries of m first (from c to d), then their submenus (from d to e). */
  lemma {:induction false} HandedCombine(info: Info, c: Conditions, d: Conditions, e: Conditions, m: Id, f: Forest)
    requires Distinct(f) && forall k :: k in Tops(f) ==> HandedEntry(info, c, d, m, k)
    requires SameOn(c, d, Inner(f)) && SameConditions(d, e, m) && HandedBefore(info, d, e, f, Nil)
    ensures HandedDown(info, c, e, m, f)
    decreases f
  {
    if f.Node? {
      IdsPreorder(f);
      IdsPreorder(f.rest);
      HandedEntryFrame(info, c, c, d, e, m, f.id);
      assert Ids(f.kids) <= Inner(f) && Inner(f.rest) <= Inner(f);
      HandedDownFrame(info, d, c, e, e, f.id, f.kids);
      HandedCombine(info, c, d, e, m, f.rest);
    }
  }

  // ---------------------------------------------------------------- loops over a list in progress

  /** The list f is done up to the tail `todo`, with the result `done`, whatever is still to change
      inside that tail. */
  ghost predicate ListSoFar(info: Info, c: Conditions, f: Forest, done: Forest, todo: Forest) {
    forall d: Conditions :: SameExcept(c, d, Inner(todo)) ==>
      FinalizedList(info, d, f) == Append(done, FinalizedList(info, d, todo))
  }

  ghost predicate TakenSoFar(info: Info, c: Conditions, m: Id, f: Forest, taken: Forest, todo: Forest) {
    forall d: Conditions :: SameExcept(c, d, Inner(todo)) ==>
      var (t, l) := FinalizedTaken(info, d, m, todo);
      FinalizedTaken(info, d, m, f) == (Append(taken, t), l)
  }

  /** What one call on the first entry of t leaves: the conditions d may change later, inside the
      siblings that are left over. */
  lemma CallStable(info: Info, c: Conditions, e: Conditions, d: Conditions, t: Forest)
    requires t.Node? && Distinct(t) && SameExcept(c, e, Ids(t.kids) + Inner(t.rest))
    requires SameExcept(e, d, Inner(Finalized(info, e, t.id, t.kids, t.rest).1))
    ensures SameExcept(c, d, Inner(t))
    ensures Finalized(info, d, t.id, t.kids, t.rest) == Finalized(info, e, t.id, t.kids, t.rest)
    ensures SameConditions(c, d, t.id)
  {
    var left := Finalized(info, e, t.id, t.kids, t.rest).1;
    FinalizedTail(info, e, t.id, t.kids, t.rest);
    InnerTail(left, t.rest);
    IdsPreorder(t.rest);
    assert Ids(t.kids) + Inner(t.rest) <= Inner(t);
    forall x: Id | x !in Inner(t) ensures SameConditions(c, d, x) {
      assert SameConditions(c, e, x) && SameConditions(e, d, x);
    }
    FinalizedFrame(info, e, d, t.id, t.kids, t.rest);
  }

  lemma ListStep(info: Info, c: Conditions, e: Conditions, f: Forest, done: Forest, t: Forest)
    requires ListSoFar(info, c, f, done, t) && t.Node? && Distinct(t)
    requires SameExcept(c, e, Ids(t.kids) + Inner(t.rest))
    ensures var (kids, left) := Finalized(info, e, t.id, t.kids, t.rest);
            ListSoFar(info, e, f, Append(done, Node(t.id, kids, Nil)), left)
  {
    var (kids, left) := Finalized(info, e, t.id, t.kids, t.rest);
    forall d: Conditions | SameExcept(e, d, Inner(left))
      ensures FinalizedList(info, d, f) == Append(Append(done, Node(t.id, kids, Nil)), FinalizedList(info, d, left))
    {
      CallStable(info, c, e, d, t);
      AppendAssociative(done, Node(t.id, kids, Nil), FinalizedList(info, d, left));
    }
  }

  lemma TakenStep(info: Info, c: Conditions, e: Conditions, m: Id, f: Forest, taken: Forest, t: Forest)
    requires TakenSoFar(info, c, m, f, taken, t) && t.Node? && Distinct(t) && m !in Ids(t)
    requires Takes(info, c, m, t.id) && SameExcept(c, e, Ids(t.kids) + Inner(t.rest))
    ensures var (kids, left) := Finalized(info, e, t.id, t.kids, t.rest);
            TakenSoFar(info, e, m, f, Append(taken, Node(t.id, kids, Nil)), left)
  {
    var (kids, left) := Finalized(info, e, t.id, t.kids, t.rest);
    forall d: Conditions | SameExcept(e, d, Inner(left))
      ensures var (u, l) := FinalizedTaken(info, d, m, left);
              FinalizedTaken(info, d, m, f) == (Append(Append(taken, Node(t.id, kids, Nil)), u), l)
    {
      CallStable(info, c, e, d, t);
      assert SameConditions(c, d, m);
      AppendAssociative(taken, Node(t.id, kids, Nil), FinalizedTaken(info, d, m, left).0);
    }
  }

  lemma ListDistinct(info: Info, c: Conditions, f: Forest)
    requires Distinct(f)
    ensures Distinct(FinalizedList(info, c, f)) && Ids(FinalizedList(info, c, f)) == Ids(f)
  {
    FinalizedListOrder(info, c, f);
    SamePreorder(f, FinalizedList(info, c, f));
  }

  lemma TakenDistinct(info: Info, c: Conditions, m: Id, f: Forest)
    requires Distinct(f)
    ensures var (t, l) := FinalizedTaken(info, c, m, f);
            Distinct(t) && Distinct(l) && Ids(t) !! Ids(l) && Ids(t) + Ids(l) == Ids(f)
  {
    var (t, l) := FinalizedTaken(info, c, m, f);
    FinalizedTakenOrder(info, c, m, f);
    AppendFacts(t, l);
    SamePreorder(f, Append(t, l));
  }

  lemma LoopSets(info: Info, e: Conditions, f: Forest, t: Forest)
    requires Distinct(f) && TailOf(t, f) && t.Node?
    ensures var (kids, left) := Finalized(info, e, t.id, t.kids, t.rest);
            && TailOf(left, t.rest) && TailOf(left, f)
            && Distinct(Node(t.id, kids, left)) && Ids(kids) + Ids(left) == Ids(t) - {t.id}
            && Ids(t) <= Ids(f) && Distinct(t) && Ids(t.kids) + Inner(t.rest) <= Inner(t) <= Inner(f)
  {
    var left := Finalized(info, e, t.id, t.kids, t.rest).1;
    FinalizedTail(info, e, t.id, t.kids, t.rest);
    TailFacts(t, f);
    assert TailOf(left, t);
    InnerTail(t, f);
    IdsPreorder(t.rest);
    FinalizedDistinct(info, e, t.id, t.kids, t.rest);
  }

  /** A call on the first entry of the tail t of the list f, for the bookkeeping of a loop over f. */
  lemma LoopStep(info: Info, c: Conditions, d: Conditions, e: Conditions, f: Forest, t: Forest)
    requires Distinct(f) && TailOf(t, f) && t.Node?
    requires HandedBefore(info, c, d, f, t) && SameExcept(c, d, Inner(f))
    requires HandedDown(info, d, e, t.id, t.kids)
    requires HandedBefore(info, d, e, t.rest, Finalized(info, e, t.id, t.kids, t.rest).1)
    requires SameExcept(d, e, Ids(t.kids) + Inner(t.rest))
    ensures var (kids, left) := Finalized(info, e, t.id, t.kids, t.rest);
            && TailOf(left, f) && Distinct(Node(t.id, kids, left)) && Ids(kids) + Ids(left) == Ids(t) - {t.id}
            && Ids(t) <= Ids(f) && Distinct(t)
            && HandedBefore(info, c, e, f, left) && SameExcept(c, e, Inner(f))
  {
    LoopSets(info, e, f, t);
    IdsPreorder(t);
    assert t.id in Tops(t) && t.id !in Inner(t);
    assert Ids(t.kids) + Inner(t.rest) <= Ids(t) - {t.id};
    HandedBeforeStep(info, c, d, e, f, t, Finalized(info, e, t.id, t.kids, t.rest).1);
    forall x: Id | x !in Inner(f) ensures SameConditions(c, e, x) {
      assert SameConditions(c, d, x) && SameConditions(d, e, x);
    }
  }

  /** A loop that is through. */
  lemma ListEnd(info: Info, c: Conditions, f: Forest, done: Forest)
    requires ListSoFar(info, c, f, done, Nil)
    ensures FinalizedList(info, c, f) == done
  {
    assert SameExcept(c, c, Inner(Nil));
    AppendFacts(done, Nil);
  }

  lemma TakenEnd(info: Info, c: Conditions, m: Id, f: Forest, taken: Forest, todo: Forest)
    requires TakenSoFar(info, c, m, f, taken, todo) && (todo.Node? ==> !Takes(info, c, m, todo.id))
    ensures FinalizedTaken(info, c, m, f) == (taken, todo)
  {
    assert SameExcept(c, c, Inner(todo));
    AppendFacts(taken, Nil);
  }
}
