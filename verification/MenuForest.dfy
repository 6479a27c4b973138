/** Menu entries as linked structures: what `next`, `list` and `parent` pointers represent. */
module MenuForest {
  import opened Expressions

  type Id = nat

  /** A list of sibling entries: the first entry, its submenu, and the siblings after it. */
  datatype Forest = Nil | Node(id: Id, kids: Forest, rest: Forest)

  /** The pointer fields of all entries; a missing key is a null pointer. */
  datatype Links = Links(next: map<Id, Id>, list: map<Id, Id>, parent: map<Id, Id>)

  function Lookup<K(==), T>(m: map<K, T>, k: K): Option<T> { if k in m then Some(m[k]) else None }

  function Store<K(==), T>(m: map<K, T>, k: K, v: Option<T>): map<K, T> {
    if v.Some? then m[k := v.value] else m - {k}
  }

  // ---------------------------------------------------------------- forests

  function Count(f: Forest): nat {
    if f.Nil? then 0 else 1 + Count(f.kids) + Count(f.rest)
  }

  /** Every entry before its submenu, submenus before later siblings. */
  function Preorder(f: Forest): seq<Id> {
    if f.Nil? then [] else [f.id] + Preorder(f.kids) + Preorder(f.rest)
  }

  function Ids(f: Forest): set<Id> {
    if f.Nil? then {} else {f.id} + Ids(f.kids) + Ids(f.rest)
  }

  /** The entries of the list itself. */
  function Tops(f: Forest): set<Id> {
    if f.Nil? then {} else {f.id} + Tops(f.rest)
  }

  /** No entry occurs twice. */
  predicate Distinct(f: Forest) {
    f.Node? ==>
      && f.id !in Ids(f.kids) && f.id !in Ids(f.rest) && Ids(f.kids) !! Ids(f.rest)
      && Distinct(f.kids) && Distinct(f.rest)
  }

  function Append(f: Forest, g: Forest): Forest {
    if f.Nil? then g else Node(f.id, f.kids, Append(f.rest, g))
  }

  lemma {:induction false} AppendFacts(f: Forest, g: Forest)
    ensures Preorder(Append(f, g)) == Preorder(f) + Preorder(g)
    ensures Ids(Append(f, g)) == Ids(f) + Ids(g)
    ensures Tops(Append(f, g)) == Tops(f) + Tops(g)
    ensures Count(Append(f, g)) == Count(f) + Count(g)
    ensures Distinct(Append(f, g)) <==> Distinct(f) && Distinct(g) && Ids(f) !! Ids(g)
    ensures g.Nil? ==> Append(f, g) == f
  {
    if f.Node? { AppendFacts(f.rest, g); }
  }

  lemma {:induction false} AppendAssociative(f: Forest, g: Forest, h: Forest)
    ensures Append(Append(f, g), h) == Append(f, Append(g, h))
  {
    if f.Node? { AppendAssociative(f.rest, g, h); }
  }

  lemma {:induction false} IdsPreorder(f: Forest)
    ensures forall x :: x in Ids(f) <==> x in Preorder(f)
    ensures |Preorder(f)| == Count(f)
    ensures Tops(f) <= Ids(f)
  {
    if f.Node? {
      IdsPreorder(f.kids);
      IdsPreorder(f.rest);
    }
  }

  ghost predicate NoDuplicates(s: seq<Id>) {
    forall i, j :: 0 <= i < j < |s| ==> s[i] != s[j]
  }

  lemma NoDuplicatesAppend(a: seq<Id>, b: seq<Id>)
    requires NoDuplicates(a) && NoDuplicates(b) && forall x :: x in a ==> x !in b
    ensures NoDuplicates(a + b)
  {
    var s := a + b;
    forall i, j | 0 <= i < j < |s| ensures s[i] != s[j] {
      if j < |a| {
        assert s[i] == a[i] && s[j] == a[j];
      } else if i < |a| {
        assert s[i] in a && s[j] in b;
      } else {
        assert s[i] == b[i - |a|] && s[j] == b[j - |a|];
      }
    }
  }

  /** Distinct forests list every entry exactly once. */
  lemma {:induction false} DistinctPreorder(f: Forest)
    requires Distinct(f)
    ensures NoDuplicates(Preorder(f))
  {
    if f.Node? {
      DistinctPreorder(f.kids);
      DistinctPreorder(f.rest);
      IdsPreorder(f.kids);
      IdsPreorder(f.rest);
      NoDuplicatesAppend([f.id], Preorder(f.kids));
      NoDuplicatesAppend([f.id] + Preorder(f.kids), Preorder(f.rest));
    }
  }

  // ---------------------------------------------------------------- what the pointers represent

  /** From `head`, the next pointers lead through the tops of f to `tail`; every top has the
      parent `owner` (none for the root), and its list pointer leads through its submenu to null. */
  predicate LinkedTo(links: Links, head: Option<Id>, owner: Option<Id>, f: Forest, tail: Option<Id>)
    decreases f
  {
    if f.Nil? then head == tail
    else
      && head == Some(f.id)
      && Lookup(links.parent, f.id) == owner
      && LinkedTo(links, Lookup(links.list, f.id), Some(f.id), f.kids, None)
      && LinkedTo(links, Lookup(links.next, f.id), owner, f.rest, tail)
  }

  predicate Linked(links: Links, head: Option<Id>, owner: Option<Id>, f: Forest) {
    LinkedTo(links, head, owner, f, None)
  }

  ghost predicate SameAt(l: Links, m: Links, x: Id) {
    && Lookup(l.next, x) == Lookup(m.next, x)
    && Lookup(l.list, x) == Lookup(m.list, x)
    && Lookup(l.parent, x) == Lookup(m.parent, x)
  }

  /** Only entries of `ids` may have changed pointers. */
  ghost predicate SameOutside(l: Links, m: Links, ids: set<Id>) {
    forall x: Id :: x !in ids ==> SameAt(l, m, x)
  }

  lemma {:induction false} LinkedFrame(l: Links, m: Links, head: Option<Id>, owner: Option<Id>, f: Forest, tail: Option<Id>)
    requires LinkedTo(l, head, owner, f, tail)
    requires forall x :: x in Ids(f) ==> SameAt(l, m, x)
    ensures LinkedTo(m, head, owner, f, tail)
    decreases f
  {
    if f.Node? {
      assert f.id in Ids(f) && SameAt(l, m, f.id);
      LinkedFrame(l, m, Lookup(l.list, f.id), Some(f.id), f.kids, None);
      LinkedFrame(l, m, Lookup(l.next, f.id), owner, f.rest, tail);
    }
  }

  lemma {:induction false} LinkedAppend(l: Links, head: Option<Id>, owner: Option<Id>, f: Forest, mid: Option<Id>,
                                        g: Forest, tail: Option<Id>)
    requires LinkedTo(l, head, owner, f, mid) && LinkedTo(l, mid, owner, g, tail)
    ensures LinkedTo(l, head, owner, Append(f, g), tail)
    decreases f
  {
    if f.Node? { LinkedAppend(l, Lookup(l.next, f.id), owner, f.rest, mid, g, tail); }
  }

  /** The last entry of a list. */
  function Last(f: Forest): Id
    requires f.Node?
  {
    if f.rest.Nil? then f.id else Last(f.rest)
  }

  lemma {:induction false} LastFacts(f: Forest)
    requires f.Node?
    ensures Last(f) in Tops(f) && Last(f) in Ids(f)
  {
    if f.rest.Node? { LastFacts(f.rest); }
  }

  lemma {:induction false} LastOfAppend(f: Forest, g: Forest)
    requires g.Node?
    ensures Append(f, g).Node? && Last(Append(f, g)) == Last(g)
  {
    if f.Node? { LastOfAppend(f.rest, g); }
  }

  /** Setting the next pointer of the last entry changes where the list leads. */
  lemma {:induction false} LinkedNewTail(l: Links, m: Links, head: Option<Id>, owner: Option<Id>, f: Forest,
                                         tail: Option<Id>, tail': Option<Id>)
    requires LinkedTo(l, head, owner, f, tail) && f.Node? && Distinct(f)
    requires m == l.(next := Store(l.next, Last(f), tail'))
    ensures LinkedTo(m, head, owner, f, tail')
    decreases f
  {
    LastFacts(f);
    if f.rest.Node? {
      LastFacts(f.rest);
      LinkedFrame(l, m, Lookup(l.list, f.id), Some(f.id), f.kids, None);
      LinkedNewTail(l, m, Lookup(l.next, f.id), owner, f.rest, tail, tail');
    } else {
      LinkedFrame(l, m, Lookup(l.list, f.id), Some(f.id), f.kids, None);
    }
  }

  lemma {:induction false} LinkedLast(l: Links, head: Option<Id>, owner: Option<Id>, f: Forest, tail: Option<Id>)
    requires LinkedTo(l, head, owner, f, tail) && f.Node?
    ensures Lookup(l.next, Last(f)) == tail
    decreases f
  {
    if f.rest.Node? { LinkedLast(l, Lookup(l.next, f.id), owner, f.rest, tail); }
  }

  /** A list of done entries grows by one when only entries outside it have been relinked. */
  lemma LinkedGrows(l: Links, m: Links, head: Option<Id>, owner: Option<Id>, done: Forest, top: Forest, changed: set<Id>)
    requires top.Node? && top.rest.Nil? && Ids(done) !! changed && SameOutside(l, m, changed)
    requires LinkedTo(l, head, owner, done, Some(top.id))
    requires LinkedTo(m, Some(top.id), owner, top, Lookup(m.next, top.id))
    ensures LinkedTo(m, head, owner, Append(done, top), Lookup(m.next, top.id))
    ensures Append(done, top).Node? && Last(Append(done, top)) == top.id
  {
    LinkedFrame(l, m, head, owner, done, Some(top.id));
    LinkedAppend(m, head, owner, done, Some(top.id), top, Lookup(m.next, top.id));
    LastOfAppend(done, top);
  }

  /** t is what is left of the list f after some of its first entries. */
  predicate TailOf(t: Forest, f: Forest) {
    t == f || (f.Node? && TailOf(t, f.rest))
  }

  lemma {:induction false} TailFacts(t: Forest, f: Forest)
    requires TailOf(t, f)
    ensures Ids(t) <= Ids(f) && Tops(t) <= Tops(f) && Count(t) <= Count(f)
    ensures Distinct(f) ==> Distinct(t)
    ensures forall s :: TailOf(s, t) ==> TailOf(s, f)
  {
    if t != f {
      TailFacts(t, f.rest);
    }
  }
}
