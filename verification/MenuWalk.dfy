/** The walk of `conf_write` and `conf_write_defconfig`: one cursor, no stack, led by the next, list
    and parent pointers that `menu_finalize` has left. */
module MenuWalk {
  import opened Expressions
  import opened MenuForest
  import opened MenuTree
  import opened MenuCollect
  import opened MenuFinalize

  /** What is still to be visited above a list whose owner is `owner`: for the owner and each of its
      ancestors, the siblings behind it. */
  ghost predicate Pending(links: Links, owner: Option<Id>, stack: seq<Forest>)
    decreases |stack|
  {
    if owner.None? then stack == []
    else
      && stack != []
      && Linked(links, Lookup(links.next, owner.value), Lookup(links.parent, owner.value), stack[0])
      && Pending(links, Lookup(links.parent, owner.value), stack[1..])
  }

  function Flatten(stack: seq<Forest>): seq<Id> {
    if stack == [] then [] else Preorder(stack[0]) + Flatten(stack[1..])
  }

  function Total(stack: seq<Forest>): nat {
    if stack == [] then 0 else Count(stack[0]) + Total(stack[1..])
  }

  /** menu = menu->parent, until an ancestor has a next entry. */
  method Climb(links: Links, from: Option<Id>, ghost stack: seq<Forest>)
    returns (cur: Option<Id>, ghost owner: Option<Id>, ghost f: Forest, ghost above: seq<Forest>)
    requires Pending(links, from, stack)
    ensures Linked(links, cur, owner, f) && (cur.Some? ==> Pending(links, owner, above))
    ensures cur.Some? ==> Preorder(f) + Flatten(above) == Flatten(stack) && Count(f) + Total(above) == Total(stack)
    ensures cur.None? ==> Flatten(stack) == []
  {
    var menu := from;
    ghost var left := stack;
    while menu.Some?
      invariant Pending(links, menu, left) && Flatten(left) == Flatten(stack) && Total(left) == Total(stack)
      decreases |left|
    {
      var m := menu.value;
      if m in links.next {
        return Some(links.next[m]), Lookup(links.parent, m), left[0], left[1..];
      }
      menu := Lookup(links.parent, m);
      left := left[1..];
    }
    return None, None, Nil, [];
  }

  lemma Regrouped(v: seq<Id>, f: Forest, rest: seq<Id>)
    requires f.Node?
    ensures v + (Preorder(f) + rest) == v + [f.id] + (Preorder(f.kids) + (Preorder(f.rest) + rest))
  {
    Associative(Preorder(f.kids), Preorder(f.rest), rest);
    Associative([f.id], Preorder(f.kids), Preorder(f.rest));
    Associative([f.id], Preorder(f.kids) + Preorder(f.rest), rest);
    Associative(v, [f.id], Preorder(f.kids) + (Preorder(f.rest) + rest));
  }

  lemma Associative(a: seq<Id>, b: seq<Id>, c: seq<Id>)
    ensures (a + b) + c == a + (b + c)
  {
  }

  lemma Skip(f: Forest, rest: seq<Id>)
    ensures f.Nil? ==> Preorder(f) + rest == rest
  {
  }

  /** Visits the entries below the root, in the order in which they are written. */
  method Walk(links: Links, root: Id, ghost kids: Forest) returns (visited: seq<Id>)
    requires Linked(links, Some(root), None, Node(root, kids, Nil))
    ensures visited == Preorder(kids)
  {
    visited := [];
    var menu := Lookup(links.list, root);
    ghost var owner, f, stack := Some(root), kids, [Nil];
    assert Pending(links, None, stack[1..]);
    while menu.Some?
      invariant Linked(links, menu, owner, f)
      invariant menu.Some? ==> Pending(links, owner, stack)
      invariant visited + (if menu.Some? then Preorder(f) + Flatten(stack) else []) == Preorder(kids)
      decreases if menu.Some? then 1 + Count(f) + Total(stack) else 0
    {
      var k := menu.value;
      ghost var g, rest := f, Flatten(stack);
      assert LinkedTo(links, Lookup(links.list, k), Some(k), g.kids, None);
      assert LinkedTo(links, Lookup(links.next, k), owner, g.rest, None);
      Regrouped(visited, f, rest);
      visited := visited + [k];
      assert visited + (Preorder(g.kids) + (Preorder(g.rest) + rest)) == Preorder(kids);
      if k in links.list {
        assert ([g.rest] + stack)[1..] == stack;
        stack := [g.rest] + stack;
        assert Flatten(stack) == Preorder(g.rest) + rest;
        menu := Some(links.list[k]);
        owner, f := Some(k), g.kids;
      } else if k in links.next {
        Skip(g.kids, Preorder(g.rest) + rest);
        menu := Some(links.next[k]);
        f := g.rest;
      } else {
        Skip(g.kids, Preorder(g.rest) + rest);
        Skip(g.rest, rest);
        assert g.kids.Nil? && g.rest.Nil?;
        menu, owner, f, stack := Climb(links, Lookup(links.parent, k), stack);
        assert visited + rest == Preorder(kids);
        assert menu.None? ==> visited + [] == Preorder(kids);
      }
    }
  }

  /** From the root on, every entry is handed its conditions and every entry of a symbol is entered. */
  lemma RootSets(info: Info, root: Id, kids: Forest, h: set<Id>, e: set<Id>)
    requires Distinct(Node(root, kids, Nil)) && root !in info.sym
    requires Collected(info, Node(root, kids, Nil), Nil, {}, h, {}, e)
    ensures h == Ids(kids) && e == SymbolLeaves(info, kids) <= Ids(kids)
  {
    InnerOfNode(info, root, kids, Nil);
    LeavesWithin(info, kids);
  }

  /** `menu_finalize` on the root menu: order, shape and conditions of the whole tree, and what the
      symbols have collected. */
  method FinalizeRoot(menus: Menus, root: Id, ghost kids: Forest) returns (ghost f: Forest)
    requires Linked(menus.links, Some(root), None, Node(root, kids, Nil)) && Distinct(Node(root, kids, Nil))
    requires menus.Gathered() && menus.handed == menus.entered == [] && root !in menus.info.sym
    modifies menus
    ensures f == Finalized(menus.info, menus.conditions, root, kids, Nil).0
    ensures Linked(menus.links, Some(root), None, Node(root, f, Nil)) && Flat(menus.info, f) && Preorder(f) == Preorder(kids)
    ensures HandedDown(menus.info, old(menus.conditions), menus.conditions, root, kids)
    ensures menus.Gathered() && Elements(menus.handed) == Ids(kids)
    ensures Elements(menus.entered) == SymbolLeaves(menus.info, kids) <= Ids(kids)
  {
    menus.Finalize(root, None, kids, Nil);
    ghost var (k, left) := Finalized(menus.info, menus.conditions, root, kids, Nil);
    f := k;
    FinalizedTail(menus.info, menus.conditions, root, kids, Nil);
    FinalizedFlat(menus.info, menus.conditions, root, kids, Nil);
    FinalizedOrder(menus.info, menus.conditions, root, kids, Nil);
    assert left == Nil && Preorder(f) + [] == Preorder(f) && Preorder(kids) + [] == Preorder(kids);
    RootSets(menus.info, root, kids, Elements(menus.handed), Elements(menus.entered));
  }

  /** `menu_finalize` on the root menu and then the walk: every entry is visited exactly once, in the
      order in which the entries were parsed. */
  method FinalizeAndWalk(menus: Menus, root: Id, ghost kids: Forest) returns (visited: seq<Id>)
    requires Linked(menus.links, Some(root), None, Node(root, kids, Nil)) && Distinct(Node(root, kids, Nil))
    requires menus.Gathered() && menus.handed == menus.entered == [] && root !in menus.info.sym
    modifies menus
    ensures visited == Preorder(kids) && NoDuplicates(visited)
    ensures forall x :: x in Ids(kids) <==> x in visited
    ensures var f := Finalized(menus.info, menus.conditions, root, kids, Nil).0;
            Linked(menus.links, Some(root), None, Node(root, f, Nil)) && Flat(menus.info, f)
  {
    ghost var f := FinalizeRoot(menus, root, kids);
    DistinctPreorder(kids);
    IdsPreorder(kids);
    visited := Walk(menus.links, root, f);
  }
}
